/**
 * The header rewrite (tools/transform-readme.php, lines 71-136): the text
 * before the first "## Description" is cut into title, short description
 * and metadata, checked, and written back in readme.txt layout.
 */
module Header {
  import opened Wrappers
  import opened Text
  import opened Diagnostics
  import opened HeaderBlock
  import opened Metadata

  /** The three parts of a header that passed every check. */
  datatype Header = Header(title: string, description: string, metadata: Entries)

  /** The header block with decorations deleted, trimmed, and split at blank lines (lines 75-77). */
  function HeaderParts(block: string): (parts: seq<string>)
    ensures |parts| >= 1 && forall i :: 0 <= i < |parts| ==> NoBlankLine(parts[i])
  {
    SplitParagraphs(Trim(StripDecorations(block)))
  }

  /**
   * The checks of lines 79-125 on the parts of the header: exactly three
   * parts, a short description of at most 150 characters, metadata lines
   * that all parse, and every required key present and non-empty.
   */
  function ParseParts(parts: seq<string>): (r: Result<Header, Diagnostic>)
    ensures |parts| != 3 ==> r == Failure(Diagnostic("Too many sections in header found.", 80))
    ensures |parts| == 3 && |parts[1]| > 150 ==>
      r == Failure(Diagnostic("The short description is too long: " + parts[1], 87))
    ensures r.Success? ==> (|parts| == 3 && r.value.title == parts[0] && r.value.description == parts[1]
      && |r.value.description| <= 150
      && MetadataOf(parts[2]) == Success(r.value.metadata)
      && CheckRequired(r.value.metadata).Pass?)
    ensures |parts| == 3 && |parts[1]| <= 150 ==>
      (r.Success? <==> (MetadataOf(parts[2]).Success? && CheckRequired(MetadataOf(parts[2]).value).Pass?))
  {
    if |parts| != 3 then Failure(Diagnostic("Too many sections in header found.", 80))
    else if |parts[1]| > 150 then Failure(Diagnostic("The short description is too long: " + parts[1], 87))
    else
      match MetadataOf(parts[2])
      case Failure(d) => Failure(d)
      case Success(md) =>
        match CheckRequired(md)
        case Fail(d) => Failure(d)
        case Pass => Success(Header(parts[0], parts[1], md))
  }

  function ParseHeader(block: string): Result<Header, Diagnostic> {
    ParseParts(HeaderParts(block))
  }

  /** `$replaced` as lines 127-131 build it. */
  function HeaderText(h: Header): string {
    h.title + "\n\n" + RenderEntries(h.metadata) + "\n" + h.description + "\n\n"
  }

  /** Lines 127-133: the title, the metadata lines, the short description. */
  method EmitHeader(h: Header) returns (replaced: string)
    ensures replaced == HeaderText(h)
  {
    replaced := h.title + "\n\n";
    var i := 0;
    while i < |h.metadata|
      invariant 0 <= i <= |h.metadata|
      invariant replaced == h.title + "\n\n" + RenderEntries(h.metadata[..i])
    {
      var (key, value) := h.metadata[i];
      assert h.metadata[..i + 1][..i] == h.metadata[..i];
      assert EntryTexts(h.metadata[..i + 1]) == EntryTexts(h.metadata[..i]) + [key + ": " + value];
      replaced := replaced + key + ": " + value + "\n";
      i := i + 1;
    }
    assert h.metadata[..i] == h.metadata;
    replaced := replaced + "\n" + h.description + "\n\n";
  }

  /**
   * The rewritten header is the title, a blank line, the `Key: value`
   * lines, a blank line, and the short description verbatim followed by a
   * blank line.
   */
  lemma HeaderLayout(h: Header)
    requires h.metadata != []
    ensures HeaderText(h) == h.title + "\n\n" + Join(EntryTexts(h.metadata), '\n') + "\n\n" + h.description + "\n\n"
  {
    UnlinesJoin(EntryTexts(h.metadata));
    JoinSnoc(EntryTexts(h.metadata), "", '\n');
  }

  /** The header callback of lines 73-134: the checks, then the new text. */
  function RewriteBlock(block: string): (r: Result<string, Diagnostic>)
    ensures r.Success? <==> ParseHeader(block).Success?
    ensures r.Success? ==> r.value == HeaderText(ParseHeader(block).value)
  {
    var h :- ParseHeader(block);
    Success(HeaderText(h))
  }

  /** The header callback with its two loops (lines 90-111 and 127-131) written out. */
  method HeaderCallback(block: string) returns (r: Result<string, Diagnostic>)
    ensures r == RewriteBlock(block)
  {
    var parts := HeaderParts(block);
    assert ParseHeader(block) == ParseParts(parts);
    if |parts| != 3 {
      return Failure(Diagnostic("Too many sections in header found.", 80));
    }
    if |parts[1]| > 150 {
      return Failure(Diagnostic("The short description is too long: " + parts[1], 87));
    }
    var metadata := ParseMetadata(Split(parts[2], '\n'));
    if metadata.Failure? {
      return Failure(metadata.error);
    }
    var check := CheckRequired(metadata.value);
    if check.Fail? {
      return Failure(check.error);
    }
    var replaced := EmitHeader(Header(parts[0], parts[1], metadata.value));
    return Success(replaced);
  }

  /**
   * preg_replace_callback( '/^.+?(?=## Description)/s', … ): the text before
   * the first "## Description" that is not at the very start is replaced;
   * without one the document is left alone.
   */
  function RewriteHeader(doc: string): (r: Result<string, Diagnostic>)
    ensures FindFrom(doc, 1, "## Description").None? ==> r == Success(doc)
    ensures FindFrom(doc, 1, "## Description").Some? ==>
      var k := FindFrom(doc, 1, "## Description").value;
      (r.Success? <==> ParseHeader(doc[..k]).Success?)
      && (r.Success? ==> r.value == HeaderText(ParseHeader(doc[..k]).value) + doc[k..])
  {
    match FindFrom(doc, 1, "## Description")
    case None => Success(doc)
    case Some(k) =>
      var text :- RewriteBlock(doc[..k]);
      Success(text + doc[k..])
  }

  /** The header replacement as the script performs it, through the header callback. */
  method ReplaceHeader(doc: string) returns (r: Result<string, Diagnostic>)
    ensures r == RewriteHeader(doc)
  {
    var found := FindFrom(doc, 1, "## Description");
    if found.None? {
      return Success(doc);
    }
    var k := found.value;
    var replaced := HeaderCallback(doc[..k]);
    if replaced.Failure? {
      return Failure(replaced.error);
    }
    r := Success(replaced.value + doc[k..]);
  }

  /** Everything from the first "## Description" on is kept as it is, at the end of the result. */
  lemma DescriptionSectionKept(doc: string, k: nat, out: string)
    requires FindFrom(doc, 1, "## Description") == Some(k)
    requires RewriteHeader(doc) == Success(out)
    ensures |doc| - k <= |out| && out[|out| - (|doc| - k)..] == doc[k..]
  {
    RewrittenParts(doc, k, out);
    SuffixOf(out, HeaderText(ParseHeader(doc[..k]).value), doc[k..]);
  }

  lemma RewrittenParts(doc: string, k: nat, out: string)
    requires FindFrom(doc, 1, "## Description") == Some(k)
    requires RewriteHeader(doc) == Success(out)
    ensures out == HeaderText(ParseHeader(doc[..k]).value) + doc[k..]
  {
  }
}
