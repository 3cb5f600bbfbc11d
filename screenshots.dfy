/**
 * The screenshot pass of the readme transformer: the first
 * `## Screenshots` ... `## Changelog` region becomes a numbered list of the
 * captions found in its `### caption` lines, and the screenshot files of the
 * plugin directory must then be numbered 1..N in listing order.
 */
module Screenshots {
  import opened Wrappers
  import opened Text
  import opened Diagnostics

  /**
   * One match of `(\n## Screenshots(?: ##)?\n+)(.+?\n)(?=## Changelog)`
   * under /s: the heading is s[start..headEnd], the body s[headEnd..bodyEnd],
   * and "## Changelog" follows at bodyEnd without being consumed.
   */
  datatype Region = Region(start: nat, headEnd: nat, bodyEnd: nat)

  /** The body may end at `b`: it ends with a line break and "## Changelog" follows. */
  predicate BodyClosesAt(s: string, b: nat) {
    1 <= b <= |s| && s[b - 1] == '\n' && StartsAt(s, b, "## Changelog")
  }

  /** The lazy `.+?\n(?=## Changelog)` step: the first index at or after `b` where the body may end. */
  function BodyEnd(s: string, b: nat): (r: Option<nat>)
    requires 1 <= b
    ensures r.Some? ==> b <= r.value && BodyClosesAt(s, r.value)
    ensures r.Some? ==> forall k :: b <= k < r.value ==> !BodyClosesAt(s, k)
    ensures r.None? ==> forall k :: b <= k ==> !BodyClosesAt(s, k)
    decreases |s| - b
  {
    if b > |s| then None
    else if BodyClosesAt(s, b) then Some(b)
    else BodyEnd(s, b + 1)
  }

  /**
   * The region the pattern matches at index `p`, if any. The newline run is
   * greedy: the body starts after all of it, and only when no "## Changelog"
   * follows a later line break does the run give back two newlines, which
   * then form the whole body, if "## Changelog" follows the run at once.
   */
  function RegionAt(s: string, p: nat): (r: Option<Region>)
    ensures r.Some? ==> r.value.start == p && StartsAt(s, p, "\n## Screenshots")
    ensures r.Some? ==> p + 16 <= r.value.headEnd && r.value.headEnd + 2 <= r.value.bodyEnd <= |s|
    ensures r.Some? ==> s[r.value.headEnd - 1] == '\n' && BodyClosesAt(s, r.value.bodyEnd)
    ensures r.Some? ==> forall k :: r.value.headEnd + 2 <= k < r.value.bodyEnd ==> !BodyClosesAt(s, k)
    ensures !StartsAt(s, p, "\n## Screenshots") ==> r.None?
  {
    if !StartsAt(s, p, "\n## Screenshots") then None
    else
      var q := if StartsAt(s, p + 15, " ##") then p + 18 else p + 15;
      if q >= |s| || s[q] != '\n' then None
      else
        var a := RunEnd(s, q, '\n');
        match BodyEnd(s, a + 2)
        case Some(b) => Some(Region(p, a, b))
        case None =>
          if a - q >= 3 && BodyClosesAt(s, a) then Some(Region(p, a - 2, a)) else None
  }

  /**
   * A heading followed by a run of line breaks ending at `a`, and a first
   * place `b` at least two characters further where the body may end: the
   * heading takes the whole run and the body ends at `b`.
   */
  lemma RegionAtIs(s: string, p: nat, q: nat, a: nat, b: nat)
    requires StartsAt(s, p, "\n## Screenshots")
    requires q == if StartsAt(s, p + 15, " ##") then p + 18 else p + 15
    requires q < a <= |s| && (a == |s| || s[a] != '\n')
    requires forall k :: q <= k < a ==> s[k] == '\n'
    requires a + 2 <= b && BodyClosesAt(s, b)
    requires forall k :: a + 2 <= k < b ==> !BodyClosesAt(s, k)
    ensures RegionAt(s, p) == Some(Region(p, a, b))
  {
    RunEndIs(s, q, a, '\n');
  }

  /** The leftmost match at index `p` or later. */
  function FindRegion(s: string, p: nat): (r: Option<Region>)
    ensures r.Some? ==> p <= r.value.start && RegionAt(s, r.value.start) == r
    ensures r.Some? ==> forall k :: p <= k < r.value.start ==> RegionAt(s, k).None?
    ensures r.None? ==> forall k :: p <= k ==> RegionAt(s, k).None?
    decreases |s| - p
  {
    if p >= |s| then NoRegionPastEnd(s, p); None
    else
      var here := RegionAt(s, p);
      if here.Some? then here else FindRegion(s, p + 1)
  }

  lemma NoRegionPastEnd(s: string, p: nat)
    requires p >= |s|
    ensures forall k :: p <= k ==> RegionAt(s, k).None?
  {
    forall k | p <= k
      ensures RegionAt(s, k).None?
    {
      assert !StartsAt(s, k, "\n## Screenshots");
    }
  }

  /** `^### (.+?)(?: ###)?$` on one line: the caption, without an optional closing " ###". */
  function CaptionOf(line: string): (r: Option<string>)
    ensures r.Some? <==> |line| >= 5 && StartsWith(line, "### ")
    ensures r.Some? ==> |r.value| >= 1 && (line == "### " + r.value || line == "### " + r.value + " ###")
  {
    if |line| < 5 || !StartsWith(line, "### ") then None
    else if |line| >= 9 && line[|line| - 4..] == " ###" then
      assert line == "### " + line[4..|line| - 4] + " ###";
      Some(line[4..|line| - 4])
    else
      assert line == "### " + line[4..];
      Some(line[4..])
  }

  /** The captions of the caption lines among `lines`, in order. */
  function CaptionsOf(lines: seq<string>): (cs: seq<string>)
    ensures |cs| <= |lines|
    ensures cs == [] <==> forall i :: 0 <= i < |lines| ==> CaptionOf(lines[i]).None?
  {
    if lines == [] then []
    else
      var init := CaptionsOf(lines[..|lines| - 1]);
      match CaptionOf(lines[|lines| - 1])
      case Some(c) => init + [c]
      case None =>
        assert forall i :: 0 <= i < |lines| - 1 ==> lines[..|lines| - 1][i] == lines[i];
        init
  }

  /** preg_match_all( '/^### (.+?)(?: ###)?$/m', body ): a caption per line that has one. */
  function Captions(body: string): seq<string> {
    CaptionsOf(Split(body, '\n'))
  }

  /** The lines "1. c1" ... "N. cN". */
  function NumberedLines(captions: seq<string>): (ls: seq<string>)
    ensures |ls| == |captions|
    ensures forall i :: 0 <= i < |captions| ==> ls[i] == NatToString(i + 1) + ". " + captions[i]
  {
    if captions == [] then []
    else
      NumberedLines(captions[..|captions| - 1]) + [NatToString(|captions|) + ". " + captions[|captions| - 1]]
  }

  /** One more caption adds its numbered line to the list. */
  lemma CaptionListStep(captions: seq<string>, i: nat)
    requires i < |captions|
    ensures Unlines(NumberedLines(captions[..i + 1]))
         == Unlines(NumberedLines(captions[..i])) + (NatToString(i + 1) + ". " + captions[i] + "\n")
  {
    var line := NatToString(i + 1) + ". " + captions[i];
    assert captions[..i + 1][..i] == captions[..i];
    assert NumberedLines(captions[..i + 1]) == NumberedLines(captions[..i]) + [line];
    UnlinesSnoc(NumberedLines(captions[..i]), line);
  }

  /** The heading, the numbered caption lines, and a blank line. */
  method RenderCaptions(heading: string, captions: seq<string>) returns (text: string, count: nat)
    ensures text == heading + CaptionList(captions)
    ensures count == |captions|
  {
    text := heading;
    count := 0;
    for i := 0 to |captions|
      invariant text == heading + Unlines(NumberedLines(captions[..i]))
      invariant count == i
    {
      RenderStep(heading, captions, i, text);
      text := text + (NatToString(i + 1) + ". " + captions[i] + "\n");
      count := count + 1;
    }
    RenderDone(heading, captions, text);
    text := text + "\n";
  }

  lemma RenderStep(heading: string, captions: seq<string>, i: nat, text: string)
    requires i < |captions| && text == heading + Unlines(NumberedLines(captions[..i]))
    ensures text + (NatToString(i + 1) + ". " + captions[i] + "\n") == heading + Unlines(NumberedLines(captions[..i + 1]))
  {
    CaptionListStep(captions, i);
  }

  lemma RenderDone(heading: string, captions: seq<string>, text: string)
    requires text == heading + Unlines(NumberedLines(captions[..|captions|]))
    ensures text + "\n" == heading + CaptionList(captions)
  {
    assert captions[..|captions|] == captions;
  }

  /** The buffer after the screenshot pass, and the number of captions it listed. */
  datatype Captioned = Captioned(text: string, count: nat)

  /** The numbered caption lines and the blank line that closes the list. */
  function CaptionList(captions: seq<string>): string {
    Unlines(NumberedLines(captions)) + "\n"
  }

  /** `s` with the body of region `g` replaced by the caption list. */
  function Relisted(s: string, g: Region, captions: seq<string>): (t: string)
    requires g.headEnd <= g.bodyEnd <= |s|
    ensures StartsWith(t, s[..g.headEnd]) && t[g.headEnd..] == CaptionList(captions) + s[g.bodyEnd..]
  {
    var t := s[..g.headEnd] + CaptionList(captions) + s[g.bodyEnd..];
    assert t[g.headEnd..] == CaptionList(captions) + s[g.bodyEnd..];
    t
  }

  /**
   * The screenshot pass: the first region's body becomes the numbered
   * caption list, text outside it is kept, and a body without any caption
   * line is an error. Without a region nothing changes and no caption is
   * counted (the script only warns).
   */
  function ScreenshotsFixed(s: string): (r: Result<Captioned, Diagnostic>)
    ensures FindRegion(s, 0).None? ==> r == Success(Captioned(s, 0))
    ensures r.Failure? ==> r.error == Diagnostic("Unable to parse screenshot headings.", 151)
    ensures FindRegion(s, 0).Some? ==>
      var g := FindRegion(s, 0).value;
      var captions := Captions(s[g.headEnd..g.bodyEnd]);
      && (r.Failure? <==> captions == [])
      && (r.Success? ==> r.value == Captioned(Relisted(s, g, captions), |captions|))
  {
    match FindRegion(s, 0)
    case None => Success(Captioned(s, 0))
    case Some(g) =>
      var captions := Captions(s[g.headEnd..g.bodyEnd]);
      if captions == [] then Failure(Diagnostic("Unable to parse screenshot headings.", 151))
      else Success(Captioned(Relisted(s, g, captions), |captions|))
  }

  /** The preg_replace_callback() call with its caption counter. */
  method FixScreenshots(s: string) returns (r: Result<Captioned, Diagnostic>)
    ensures r == ScreenshotsFixed(s)
  {
    var found := FindRegion(s, 0);
    if found.None? {
      return Success(Captioned(s, 0));
    }
    var g := found.value;
    var captions := Captions(s[g.headEnd..g.bodyEnd]);
    if captions == [] {
      return Failure(Diagnostic("Unable to parse screenshot headings.", 151));
    }
    var replaced, count := RenderCaptions(s[g.start..g.headEnd], captions);
    Regrouped(s, g.start, g.headEnd, CaptionList(captions), s[g.bodyEnd..]);
    r := Success(Captioned(s[..g.start] + replaced + s[g.bodyEnd..], count));
  }

  lemma Regrouped(s: string, i: nat, j: nat, x: string, y: string)
    requires i <= j <= |s|
    ensures s[..i] + (s[i..j] + x) + y == s[..j] + x + y
  {
    assert s[..i] + s[i..j] == s[..j];
  }

  /** The numbered list is one "i. caption" line per caption, in order. */
  lemma ListedLines(captions: seq<string>)
    requires forall i :: 0 <= i < |captions| ==> '\n' !in captions[i]
    ensures Split(Unlines(NumberedLines(captions)), '\n') == NumberedLines(captions) + [""]
  {
    var ls := NumberedLines(captions);
    forall i | 0 <= i < |ls|
      ensures '\n' !in ls[i]
    {
      NumberedLineOneLine(i + 1, captions[i]);
    }
    SplitUnlines(ls);
  }

  lemma NumberedLineOneLine(n: nat, caption: string)
    requires '\n' !in caption
    ensures '\n' !in NatToString(n) + ". " + caption
  {
    var digits := NatToString(n);
    assert forall k :: 0 <= k < |digits| ==> digits[k] != '\n' by {
      forall k | 0 <= k < |digits| ensures digits[k] != '\n' {
        assert IsDigit(digits[k]);
      }
    }
  }

  /** A caption heading closed by " ###" gives back its caption. */
  lemma ClosedCaption(caption: string)
    requires |caption| >= 1
    ensures CaptionOf("### " + caption + " ###") == Some(caption)
  {
    var line := "### " + caption + " ###";
    assert line[..4] == "### ";
    assert line[|line| - 4..] == " ###";
    assert line[4..|line| - 4] == caption;
  }

  /** An unclosed caption heading gives back its caption. */
  lemma OpenCaption(caption: string)
    requires |caption| >= 1
    requires |caption| >= 5 ==> caption[|caption| - 4..] != " ###"
    ensures CaptionOf("### " + caption) == Some(caption)
  {
    var line := "### " + caption;
    assert line[..4] == "### ";
    if |line| >= 9 {
      assert line[|line| - 4..] == caption[|caption| - 4..];
    }
    assert line[4..] == caption;
  }

  /** The closed caption headings of the captions, one per line. */
  function CaptionHeadings(captions: seq<string>): (ls: seq<string>)
    ensures |ls| == |captions|
    ensures forall i :: 0 <= i < |captions| ==> ls[i] == "### " + captions[i] + " ###"
  {
    if captions == [] then []
    else CaptionHeadings(captions[..|captions| - 1]) + ["### " + captions[|captions| - 1] + " ###"]
  }

  /** Caption headings are read back as the captions, in source order. */
  lemma {:induction false} CaptionsOfHeadings(captions: seq<string>)
    requires forall i :: 0 <= i < |captions| ==> |captions[i]| >= 1
    ensures CaptionsOf(CaptionHeadings(captions)) == captions
    decreases |captions|
  {
    if captions != [] {
      var init := captions[..|captions| - 1];
      var ls := CaptionHeadings(captions);
      assert ls[..|ls| - 1] == CaptionHeadings(init);
      CaptionsOfHeadings(init);
      ClosedCaption(captions[|captions| - 1]);
      assert init + [captions[|captions| - 1]] == captions;
    }
  }

  /** A single line gives its caption when it holds one, and nothing otherwise. */
  lemma CaptionsOfOne(line: string)
    ensures CaptionsOf([line]) == if CaptionOf(line).Some? then [CaptionOf(line).value] else []
  {
    assert [line][..0] == [];
  }

  /** One more line adds its caption, if it holds one. */
  lemma CaptionsOfSnoc(lines: seq<string>, last: string)
    ensures CaptionsOf(lines + [last]) == CaptionsOf(lines) + CaptionsOf([last])
  {
    assert (lines + [last])[..|lines|] == lines;
    CaptionsOfOne(last);
  }

  lemma CaptionsRegrouped(whole: seq<string>, x: seq<string>, y: seq<string>, t: seq<string>, yt: seq<string>)
    requires whole == (x + y) + t && yt == y + t
    ensures whole == x + yt
  {
  }

  /** The captions of two runs of lines are those of the first followed by those of the second. */
  lemma {:induction false} CaptionsOfAppend(a: seq<string>, b: seq<string>)
    ensures CaptionsOf(a + b) == CaptionsOf(a) + CaptionsOf(b)
    decreases |b|
  {
    if b == [] {
      assert a + b == a;
    } else {
      var init := b[..|b| - 1];
      var last := b[|b| - 1];
      var t := CaptionsOf([last]);
      assert CaptionsOf(b) == CaptionsOf(init) + t by {
        CaptionsOfSnoc(init, last);
        assert init + [last] == b;
      }
      assert CaptionsOf(a + b) == CaptionsOf(a + init) + t by {
        CaptionsOfSnoc(a + init, last);
        assert (a + init) + [last] == a + b;
      }
      CaptionsOfAppend(a, init);
      CaptionsRegrouped(CaptionsOf(a + b), CaptionsOf(a), CaptionsOf(init), t, CaptionsOf(b));
    }
  }

  /**
   * The captions of a body are the captions of its lines, in line order: one
   * for each line that starts "### " and has at least one more character,
   * whatever the other lines hold.
   */
  lemma CaptionsOfBody(lines: seq<string>)
    requires forall i :: 0 <= i < |lines| ==> '\n' !in lines[i]
    ensures Captions(Unlines(lines)) == CaptionsOf(lines)
  {
    SplitUnlines(lines);
    BlankLineIgnored(lines);
  }

  /** A body made of caption headings, one per line, yields those captions in order. */
  lemma CaptionsParsed(captions: seq<string>)
    requires forall i :: 0 <= i < |captions| ==> |captions[i]| >= 1 && '\n' !in captions[i]
    ensures Captions(Unlines(CaptionHeadings(captions))) == captions
  {
    HeadingsOnOneLine(captions);
    CaptionsOfBody(CaptionHeadings(captions));
    CaptionsOfHeadings(captions);
  }

  lemma HeadingsOnOneLine(captions: seq<string>)
    requires forall i :: 0 <= i < |captions| ==> '\n' !in captions[i]
    ensures var ls := CaptionHeadings(captions); forall i :: 0 <= i < |ls| ==> '\n' !in ls[i]
  {
    var ls := CaptionHeadings(captions);
    forall i | 0 <= i < |ls|
      ensures '\n' !in ls[i]
    {
      assert ls[i] == "### " + captions[i] + " ###";
    }
  }

  /** The empty line after the last line break holds no caption. */
  lemma BlankLineIgnored(ls: seq<string>)
    ensures CaptionsOf(ls + [""]) == CaptionsOf(ls)
  {
    assert (ls + [""])[..|ls|] == ls;
    assert CaptionOf("").None?;
  }

  /** The name prefix `screenshot-<n>.` of the n-th screenshot file. */
  function ScreenshotPrefix(n: nat): string {
    "screenshot-" + NatToString(n) + "."
  }

  /** The i-th listed file (from 0) is named `screenshot-<i + 1>.` something. */
  predicate Sequential(file: string, i: nat) {
    StartsWith(Basename(file), ScreenshotPrefix(i + 1))
  }

  /** The first index at or after `i` whose file is out of sequence. */
  function FirstOutOfSequence(files: seq<string>, i: nat): (r: Option<nat>)
    ensures r.Some? ==> i <= r.value < |files| && !Sequential(files[r.value], r.value)
    ensures r.Some? ==> forall k :: i <= k < r.value ==> Sequential(files[k], k)
    ensures r.None? ==> forall k :: i <= k < |files| ==> Sequential(files[k], k)
    decreases |files| - i
  {
    if i >= |files| then None
    else if !Sequential(files[i], i) then Some(i)
    else FirstOutOfSequence(files, i + 1)
  }

  /**
   * The file check: the listing must hold one file per caption, and the
   * i-th must be `screenshot-<i + 1>.*`; the first file out of sequence is
   * reported.
   */
  function FilesChecked(files: seq<string>, captioned: nat): (r: Outcome<Diagnostic>)
    ensures r.Pass? <==> |files| == captioned && forall i :: 0 <= i < |files| ==> Sequential(files[i], i)
    ensures r.Fail? && |files| != captioned ==>
      r.error == Diagnostic("Number of screenshot files does not match number of screenshot captions.", 173)
    ensures r.Fail? && |files| == captioned ==>
      exists i :: (&& 0 <= i < |files| && !Sequential(files[i], i)
                   && (forall k :: 0 <= k < i ==> Sequential(files[k], k))
                   && r.error == Diagnostic("Screenshot filename is not sequential: " + files[i] + ".", 177))
  {
    if |files| != captioned then
      Fail(Diagnostic("Number of screenshot files does not match number of screenshot captions.", 173))
    else
      match FirstOutOfSequence(files, 0)
      case None => Pass
      case Some(i) => Fail(Diagnostic("Screenshot filename is not sequential: " + files[i] + ".", 177))
  }

  /** The count comparison and the loop over the listing. */
  method CheckScreenshotFiles(files: seq<string>, captioned: nat) returns (r: Outcome<Diagnostic>)
    ensures r == FilesChecked(files, captioned)
  {
    if |files| != captioned {
      return Fail(Diagnostic("Number of screenshot files does not match number of screenshot captions.", 173));
    }
    for i := 0 to |files|
      invariant FirstOutOfSequence(files, 0) == FirstOutOfSequence(files, i)
    {
      if !StartsWith(Basename(files[i]), ScreenshotPrefix(i + 1)) {
        return Fail(Diagnostic("Screenshot filename is not sequential: " + files[i] + ".", 177));
      }
    }
    return Pass;
  }

  /**
   * A listing `dir/screenshot-1.<ext>` ... `dir/screenshot-N.<ext>` passes for
   * N captions. The listing is taken in numeric order here; glob() returns
   * names sorted as strings, so with ten or more files it lists
   * `screenshot-10` second and line 177 reports it out of sequence.
   */
  lemma NumberedFilesPass(dir: string, extensions: seq<string>)
    requires forall i :: 0 <= i < |extensions| ==> '/' !in extensions[i]
    ensures FilesChecked(ScreenshotFiles(dir, extensions), |extensions|).Pass?
  {
    var files := ScreenshotFiles(dir, extensions);
    forall i | 0 <= i < |files|
      ensures Sequential(files[i], i)
    {
      var name := ScreenshotPrefix(i + 1) + extensions[i];
      PrefixedName(i + 1, extensions[i]);
      BasenameOf(dir, name);
    }
  }

  lemma PrefixedName(n: nat, extension: string)
    requires '/' !in extension
    ensures '/' !in ScreenshotPrefix(n) + extension
    ensures StartsWith(ScreenshotPrefix(n) + extension, ScreenshotPrefix(n))
  {
    var digits := NatToString(n);
    assert forall k :: 0 <= k < |digits| ==> IsDigit(digits[k]);
  }

  /** The paths `dir/screenshot-<i + 1>.<extensions[i]>`. */
  function ScreenshotFiles(dir: string, extensions: seq<string>): (files: seq<string>)
    ensures |files| == |extensions|
    ensures forall i :: 0 <= i < |files| ==>
      files[i] == dir + "/" + (ScreenshotPrefix(i + 1) + extensions[i])
  {
    if extensions == [] then []
    else
      var n := |extensions|;
      ScreenshotFiles(dir, extensions[..n - 1]) + [dir + "/" + (ScreenshotPrefix(n) + extensions[n - 1])]
  }
}
