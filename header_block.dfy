/**
 * The layout of the readme header block (tools/transform-readme.php, lines
 * 74-81): image, badge and comment lines are deleted, and what is left is
 * cut into parts at runs of two or more line breaks.
 */
module HeaderBlock {
  import opened Wrappers
  import opened Text

  /**
   * End of an image or linked image `\[?!\[[^]]+?]\([^)]+?\)(](.+?))?`
   * matched at index `p` and closed by `$`. The alternative text and the
   * image URL stop at the first ']' and the first ')' (they may run over a
   * line break, as the negated classes allow); a linked image runs on to the
   * end of its line.
   */
  function ImageEnd(s: string, p: nat): (r: Option<nat>)
    ensures r.Some? ==> p < r.value <= |s| && AtLineEnd(s, r.value)
  {
    var q := if StartsAt(s, p, "[![") then p + 3 else if StartsAt(s, p, "![") then p + 2 else 0;
    if q == 0 then None
    else match FindChar(s, q, ']')
      case None => None
      case Some(i) =>
        if i == q || i + 1 >= |s| || s[i + 1] != '(' then None
        else match FindChar(s, i + 2, ')')
          case None => None
          case Some(j) =>
            if j == i + 2 then None
            else if j + 2 < |s| && s[j + 1] == ']' && s[j + 2] != '\n' then Some(LineEnd(s, j + 2))
            else if AtLineEnd(s, j + 1) then Some(j + 1)
            else None
  }

  /** End of an `<img[^>]+?>` tag matched at index `p` and closed by `$`. */
  function ImgTagEnd(s: string, p: nat): (r: Option<nat>)
    ensures r.Some? ==> p < r.value <= |s| && AtLineEnd(s, r.value)
  {
    if !StartsAt(s, p, "<img") then None
    else match FindChar(s, p + 4, '>')
      case None => None
      case Some(g) => if g > p + 4 && AtLineEnd(s, g + 1) then Some(g + 1) else None
  }

  /** End of an HTML comment `<!--.+?-->` matched at index `p` and closed by `$`. */
  function CommentEnd(s: string, p: nat): (r: Option<nat>)
    ensures r.Some? ==> p < r.value <= |s| && AtLineEnd(s, r.value)
  {
    if !StartsAt(s, p, "<!--") then None
    else
      var e := LineEnd(s, p);
      if e >= p + 8 && s[e - 3..e] == "-->" then Some(e) else None
  }

  /** End of a decoration (one of the three alternatives) matched at index `p`. */
  function DecorationEnd(s: string, p: nat): (r: Option<nat>)
    ensures r.Some? ==> p < r.value <= |s|
  {
    if ImageEnd(s, p).Some? then ImageEnd(s, p)
    else if ImgTagEnd(s, p).Some? then ImgTagEnd(s, p)
    else CommentEnd(s, p)
  }

  /** A decoration pattern matches at index `i`, which starts a line. */
  predicate DecorationAt(s: string, i: nat) {
    AtLineStart(s, i) && DecorationEnd(s, i).Some?
  }

  /** Deletes the decorations from index `i` on, leaving their line breaks in place. */
  function StripFrom(s: string, i: nat): string
    decreases |s| - i
  {
    if i >= |s| then []
    else if DecorationAt(s, i) then StripFrom(s, DecorationEnd(s, i).value)
    else [s[i]] + StripFrom(s, i + 1)
  }

  /** preg_replace( '/^(...)$/m', '', s ): deletes every image, badge and comment line. */
  function StripDecorations(s: string): (r: string)
    ensures (forall k :: 0 <= k < |s| ==> !DecorationAt(s, k)) ==> r == s
  {
    if forall k :: 0 <= k < |s| ==> !DecorationAt(s, k) then
      StripCopies(s, 0, |s|);
      assert s[0..|s|] == s;
      StripFrom(s, 0)
    else StripFrom(s, 0)
  }

  lemma StripStep(s: string, i: nat)
    requires i < |s| && !DecorationAt(s, i)
    ensures StripFrom(s, i) == [s[i]] + StripFrom(s, i + 1)
  {
  }

  /** A decoration found at the start of a line is deleted and scanning resumes after it. */
  lemma StripSkips(s: string, i: nat, e: nat)
    requires i < |s| && AtLineStart(s, i) && DecorationEnd(s, i) == Some(e)
    ensures StripFrom(s, i) == StripFrom(s, e)
  {
  }

  /** An image takes precedence over the other two alternatives. */
  lemma ImageDecoration(s: string, i: nat)
    requires ImageEnd(s, i).Some?
    ensures DecorationEnd(s, i) == ImageEnd(s, i)
  {
  }

  /** After "<!" only the comment alternative can match. */
  lemma CommentDecoration(s: string, i: nat)
    requires i + 1 < |s| && s[i] == '<' && s[i + 1] == '!'
    ensures DecorationEnd(s, i) == CommentEnd(s, i)
  {
    assert !StartsAt(s, i, "[![") && !StartsAt(s, i, "![") && !StartsAt(s, i, "<img");
  }

  /** Decorations are only looked for at the start of a line. */
  lemma InsideLine(s: string, k: nat)
    requires 0 < k <= |s| && s[k - 1] != '\n'
    ensures !DecorationAt(s, k)
  {
  }

  /** No decoration starts with a character other than '[', '!' or '<'. */
  lemma NoDecorationAt(s: string, k: nat)
    requires k < |s| && s[k] != '[' && s[k] != '!' && s[k] != '<'
    ensures DecorationEnd(s, k).None? && !DecorationAt(s, k)
  {
    assert !StartsAt(s, k, "[![") && !StartsAt(s, k, "![");
    assert !StartsAt(s, k, "<img") && !StartsAt(s, k, "<!--");
  }

  /** Text with no decoration starting in it is copied through. */
  lemma {:induction false} StripCopies(s: string, i: nat, n: nat)
    requires i + n <= |s|
    requires forall k :: i <= k < i + n ==> !DecorationAt(s, k)
    ensures StripFrom(s, i) == s[i..i + n] + StripFrom(s, i + n)
    decreases n
  {
    if n > 0 {
      StripStep(s, i);
      StripCopies(s, i + 1, n - 1);
      assert s[i..i + n] == [s[i]] + s[i + 1..i + n];
    } else {
      assert s[i..i + n] == [];
    }
  }

  /**
   * A line that does not start with '[', '!' or '<' is kept as it is,
   * together with the line break that ends it.
   */
  lemma PlainLineKept(s: string, i: nat, line: string)
    requires AtLineStart(s, i) && StartsAt(s, i, line)
    requires '\n' !in line
    requires line == [] || (line[0] != '[' && line[0] != '!' && line[0] != '<')
    ensures StripFrom(s, i) == line + StripFrom(s, i + |line|)
  {
    PlainLineClear(s, i, line);
    StripCopies(s, i, |line|);
  }

  /** No decoration starts inside a plain line. */
  lemma PlainLineClear(s: string, i: nat, line: string)
    requires AtLineStart(s, i) && StartsAt(s, i, line)
    requires '\n' !in line
    requires line == [] || (line[0] != '[' && line[0] != '!' && line[0] != '<')
    ensures forall k :: i <= k < i + |line| ==> !DecorationAt(s, k)
  {
    forall k | i <= k < i + |line|
      ensures !DecorationAt(s, k)
    {
      if k == i {
        assert s[k] == line[0];
        NoDecorationAt(s, k);
      } else {
        assert s[k - 1] == line[k - 1 - i];
        InsideLine(s, k);
      }
    }
  }

  /** The index facts that make `ImageEnd` find a linked image. */
  lemma LinkedImageEnd(s: string, p: nat, b: nat, j: nat)
    requires StartsAt(s, p, "[![")
    requires b > p + 3 && FindChar(s, p + 3, ']') == Some(b) && b + 1 < |s| && s[b + 1] == '('
    requires j > b + 2 && FindChar(s, b + 2, ')') == Some(j)
    requires j + 2 < |s| && s[j + 1] == ']' && s[j + 2] == '('
    ensures ImageEnd(s, p) == Some(LineEnd(s, j + 2))
  {
  }

  /** The index facts that make `ImageEnd` find a plain image. */
  lemma PlainImageEnd(s: string, p: nat, b: nat, j: nat)
    requires !StartsAt(s, p, "[![") && StartsAt(s, p, "![")
    requires b > p + 2 && FindChar(s, p + 2, ']') == Some(b) && b + 1 < |s| && s[b + 1] == '('
    requires j > b + 2 && FindChar(s, b + 2, ')') == Some(j)
    requires AtLineEnd(s, j + 1)
    ensures ImageEnd(s, p) == Some(j + 1)
  {
    assert !(j + 2 < |s| && s[j + 1] == ']');
  }

  /** Where the parts of `[![alt](image)](link)` sit when it starts at `i`. */
  lemma BadgeParts(s: string, i: nat, b: nat, j: nat, e: nat, alt: string, image: string, link: string)
    requires b == i + 3 + |alt| && j == b + 2 + |image| && e == j + 4 + |link|
    requires StartsAt(s, i, "[![" + alt + "](" + image + ")](" + link + ")")
    ensures StartsAt(s, i, "[![") && i + 3 <= b && b + 2 <= j && j + 4 <= e <= |s|
    ensures s[i + 3..b] == alt && s[b..b + 2] == "](" && s[b + 2..j] == image
    ensures s[j..j + 3] == ")](" && s[j + 3..e - 1] == link && s[e - 1] == ')'
  {
    StartsAtConcat(s, i, "[![" + alt + "](" + image + ")](" + link, ")");
    StartsAtConcat(s, i, "[![" + alt + "](" + image + ")](", link);
    StartsAtConcat(s, i, "[![" + alt + "](" + image, ")](");
    StartsAtConcat(s, i, "[![" + alt + "](", image);
    StartsAtConcat(s, i, "[![" + alt, "](");
    StartsAtConcat(s, i, "[![", alt);
  }

  /**
   * A linked image (a badge) `[![alt](image)](link)` that fills a line is
   * deleted; the line break after it stays.
   */
  lemma BadgeLineDeleted(s: string, i: nat, alt: string, image: string, link: string)
    requires |alt| >= 1 && ']' !in alt
    requires |image| >= 1 && ')' !in image
    requires '\n' !in link
    requires AtLineStart(s, i) && StartsAt(s, i, "[![" + alt + "](" + image + ")](" + link + ")")
    requires AtLineEnd(s, i + |alt| + |image| + |link| + 9)
    ensures StripFrom(s, i) == StripFrom(s, i + |alt| + |image| + |link| + 9)
  {
    BadgeEndIs(s, i, alt, image, link);
    StripSkips(s, i, i + |alt| + |image| + |link| + 9);
  }

  /** The decoration matcher finds a badge that fills a line. */
  lemma BadgeEndIs(s: string, i: nat, alt: string, image: string, link: string)
    requires |alt| >= 1 && ']' !in alt
    requires |image| >= 1 && ')' !in image
    requires '\n' !in link
    requires StartsAt(s, i, "[![" + alt + "](" + image + ")](" + link + ")")
    requires AtLineEnd(s, i + |alt| + |image| + |link| + 9)
    ensures DecorationEnd(s, i) == Some(i + |alt| + |image| + |link| + 9)
  {
    var b := i + 3 + |alt|;
    var j := b + 2 + |image|;
    var e := j + 4 + |link|;
    BadgeFacts(s, i, b, j, e, alt, image, link);
    LinkedImageEnd(s, i, b, j);
    ImageDecoration(s, i);
  }

  /** The searches `ImageEnd` makes over a badge, and where they stop. */
  lemma BadgeFacts(s: string, i: nat, b: nat, j: nat, e: nat, alt: string, image: string, link: string)
    requires b == i + 3 + |alt| && j == b + 2 + |image| && e == j + 4 + |link|
    requires |alt| >= 1 && ']' !in alt
    requires |image| >= 1 && ')' !in image
    requires '\n' !in link
    requires StartsAt(s, i, "[![" + alt + "](" + image + ")](" + link + ")")
    requires AtLineEnd(s, e)
    ensures StartsAt(s, i, "[![") && FindChar(s, i + 3, ']') == Some(b) && b + 1 < |s| && s[b + 1] == '('
    ensures FindChar(s, b + 2, ')') == Some(j) && j + 2 < |s| && s[j + 1] == ']' && s[j + 2] == '('
    ensures LineEnd(s, j + 2) == e
  {
    BadgeParts(s, i, b, j, e, alt, image, link);
    BadgeIndices(s, i, b, j, e, alt, image, link);
  }

  /** The searches inside a badge stop where its parts end. */
  lemma BadgeIndices(s: string, i: nat, b: nat, j: nat, e: nat, alt: string, image: string, link: string)
    requires i + 3 <= b && b + 2 <= j && j + 4 <= e <= |s|
    requires s[i + 3..b] == alt && ']' !in alt
    requires s[b..b + 2] == "](" && s[b + 2..j] == image && ')' !in image
    requires s[j..j + 3] == ")](" && s[j + 3..e - 1] == link && '\n' !in link
    requires s[e - 1] == ')' && AtLineEnd(s, e)
    ensures FindChar(s, i + 3, ']') == Some(b) && b + 1 < |s| && s[b + 1] == '('
    ensures FindChar(s, b + 2, ')') == Some(j) && j + 2 < |s| && s[j + 1] == ']' && s[j + 2] == '('
    ensures LineEnd(s, j + 2) == e
  {
    AltAndImage(s, i + 3, b, j, alt, image);
    LinkLineEnd(s, j, e, link);
  }

  /** The searches for the ends of the alternative text and the image URL. */
  lemma AltAndImage(s: string, q: nat, b: nat, j: nat, alt: string, image: string)
    requires q <= b && b + 2 <= j < |s|
    requires s[q..b] == alt && ']' !in alt
    requires s[b..b + 2] == "](" && s[b + 2..j] == image && ')' !in image && s[j] == ')'
    ensures FindChar(s, q, ']') == Some(b) && s[b + 1] == '('
    ensures FindChar(s, b + 2, ')') == Some(j)
  {
    assert s[b] == ']' && s[b + 1] == '(' by {
      assert s[b..b + 2][0] == s[b];
      assert s[b..b + 2][1] == s[b + 1];
    }
    FindCharOver(s, q, alt, ']');
    FindCharOver(s, b + 2, image, ')');
  }

  lemma LinkLineEnd(s: string, j: nat, e: nat, link: string)
    requires j + 4 <= e <= |s|
    requires s[j..j + 3] == ")](" && s[j + 3..e - 1] == link && '\n' !in link
    requires s[e - 1] == ')' && AtLineEnd(s, e)
    ensures s[j] == ')' && s[j + 1] == ']' && s[j + 2] == '('
    ensures LineEnd(s, j + 2) == e
  {
    assert s[j] == ')' && s[j + 1] == ']' && s[j + 2] == '(' by {
      assert s[j..j + 3][0] == s[j];
      assert s[j..j + 3][1] == s[j + 1];
      assert s[j..j + 3][2] == s[j + 2];
    }
    assert s[j + 2..j + 3] == "(";
    LineEndOver(s, j + 2, "(");
    LineEndOver(s, j + 3, link);
    assert s[e - 1..e] == ")";
    LineEndOver(s, e - 1, ")");
  }

  /** Where the parts of `![alt](image)` sit when it starts at `i`. */
  lemma ImageParts(s: string, i: nat, alt: string, image: string)
    requires StartsAt(s, i, "![" + alt + "](" + image + ")")
    ensures StartsAt(s, i, "![") && s[i + 2..i + 2 + |alt|] == alt
    ensures s[i + 2 + |alt|..i + 4 + |alt|] == "]("
    ensures s[i + 4 + |alt|..i + 4 + |alt| + |image|] == image
    ensures s[i + 4 + |alt| + |image|] == ')'
  {
    StartsAtConcat(s, i, "![" + alt + "](" + image, ")");
    StartsAtConcat(s, i, "![" + alt + "](", image);
    StartsAtConcat(s, i, "![" + alt, "](");
    StartsAtConcat(s, i, "![", alt);
  }

  /** An image `![alt](image)` that fills a line is deleted; the line break after it stays. */
  lemma ImageLineDeleted(s: string, i: nat, alt: string, image: string)
    requires |alt| >= 1 && ']' !in alt
    requires |image| >= 1 && ')' !in image
    requires AtLineStart(s, i) && StartsAt(s, i, "![" + alt + "](" + image + ")")
    requires AtLineEnd(s, i + |alt| + |image| + 5)
    ensures StripFrom(s, i) == StripFrom(s, i + |alt| + |image| + 5)
  {
    ImageEndIs(s, i, alt, image);
    StripSkips(s, i, i + |alt| + |image| + 5);
  }

  /** The decoration matcher finds an image that fills a line. */
  lemma ImageEndIs(s: string, i: nat, alt: string, image: string)
    requires |alt| >= 1 && ']' !in alt
    requires |image| >= 1 && ')' !in image
    requires StartsAt(s, i, "![" + alt + "](" + image + ")")
    requires AtLineEnd(s, i + |alt| + |image| + 5)
    ensures DecorationEnd(s, i) == Some(i + |alt| + |image| + 5)
  {
    ImageFacts(s, i, alt, image);
    PlainImageEnd(s, i, i + 2 + |alt|, i + 4 + |alt| + |image|);
    ImageDecoration(s, i);
  }

  /** The searches `ImageEnd` makes over an image, and where they stop. */
  lemma ImageFacts(s: string, i: nat, alt: string, image: string)
    requires |alt| >= 1 && ']' !in alt
    requires |image| >= 1 && ')' !in image
    requires StartsAt(s, i, "![" + alt + "](" + image + ")")
    ensures var b := i + 2 + |alt|;
      var j := b + 2 + |image|;
      && !StartsAt(s, i, "[![") && StartsAt(s, i, "![")
      && FindChar(s, i + 2, ']') == Some(b) && b + 1 < |s| && s[b + 1] == '('
      && FindChar(s, b + 2, ')') == Some(j)
  {
    var b := i + 2 + |alt|;
    var j := b + 2 + |image|;
    ImageParts(s, i, alt, image);
    assert s[i] == s[i..i + 2][0] == '!';
    AltAndImage(s, i + 2, b, j, alt, image);
  }

  /** The comment matcher, given where the comment's line ends. */
  lemma CommentAt(s: string, i: nat, e: nat)
    requires i + 8 <= e <= |s| && StartsAt(s, i, "<!--") && s[e - 3..e] == "-->"
    requires forall k :: i <= k < e ==> s[k] != '\n'
    requires AtLineEnd(s, e)
    ensures DecorationEnd(s, i) == Some(e)
  {
    LineEndIs(s, i, e);
    assert s[i] == s[i..i + 4][0] && s[i + 1] == s[i..i + 4][1];
    CommentDecoration(s, i);
  }

  /** The decoration matcher finds an HTML comment `<!--text-->` that fills a line. */
  lemma CommentEndIs(s: string, i: nat, text: string)
    requires |text| >= 1 && '\n' !in text
    requires StartsAt(s, i, "<!--" + text + "-->")
    requires AtLineEnd(s, i + |text| + 7)
    ensures DecorationEnd(s, i) == Some(i + |text| + 7)
  {
    var e := i + |text| + 7;
    var c := "<!--" + text + "-->";
    assert s[i..e] == c;
    assert c[..4] == "<!--" && c[|c| - 3..] == "-->";
    assert s[i..i + 4] == "<!--" && s[e - 3..e] == "-->";
    forall k | i <= k < e
      ensures s[k] != '\n'
    {
      assert s[k] == c[k - i];
      if 4 <= k - i < 4 + |text| {
        assert c[k - i] == text[k - i - 4];
      }
    }
    CommentAt(s, i, e);
  }

  /** An HTML comment `<!--text-->` that fills a line is deleted; the line break after it stays. */
  lemma CommentLineDeleted(s: string, i: nat, text: string)
    requires |text| >= 1 && '\n' !in text
    requires AtLineStart(s, i) && StartsAt(s, i, "<!--" + text + "-->")
    requires AtLineEnd(s, i + |text| + 7)
    ensures StripFrom(s, i) == StripFrom(s, i + |text| + 7)
  {
    CommentEndIs(s, i, text);
    StripSkips(s, i, i + |text| + 7);
  }

  /** The decoration matcher finds an `<img ...>` tag that fills a line. */
  lemma ImgTagEndIs(s: string, i: nat, attributes: string)
    requires |attributes| >= 1 && '>' !in attributes
    requires StartsAt(s, i, "<img" + attributes + ">")
    requires AtLineEnd(s, i + |attributes| + 5)
    ensures DecorationEnd(s, i) == Some(i + |attributes| + 5)
  {
    ImgTagFacts(s, i, attributes);
    ImgTagDecoration(s, i);
  }

  /** The search `ImgTagEnd` makes over an `<img ...>` tag, and where it stops. */
  lemma ImgTagFacts(s: string, i: nat, attributes: string)
    requires |attributes| >= 1 && '>' !in attributes
    requires StartsAt(s, i, "<img" + attributes + ">")
    ensures StartsAt(s, i, "<img") && FindChar(s, i + 4, '>') == Some(i + 4 + |attributes|)
  {
    var g := i + 4 + |attributes|;
    StartsAtConcat(s, i, "<img" + attributes, ">");
    StartsAtConcat(s, i, "<img", attributes);
    assert s[g] == s[g..g + 1][0] == '>';
    FindCharOver(s, i + 4, attributes, '>');
  }

  /** After "<i" only the `<img` alternative can match. */
  lemma ImgTagDecoration(s: string, i: nat)
    requires StartsAt(s, i, "<img")
    ensures DecorationEnd(s, i) == ImgTagEnd(s, i)
  {
    assert s[i] == s[i..i + 4][0] == '<';
    assert !StartsAt(s, i, "[![") && !StartsAt(s, i, "![");
  }

  /** An `<img ...>` tag that fills a line is deleted; the line break after it stays. */
  lemma ImgTagLineDeleted(s: string, i: nat, attributes: string)
    requires |attributes| >= 1 && '>' !in attributes
    requires AtLineStart(s, i) && StartsAt(s, i, "<img" + attributes + ">")
    requires AtLineEnd(s, i + |attributes| + 5)
    ensures StripFrom(s, i) == StripFrom(s, i + |attributes| + 5)
  {
    ImgTagEndIs(s, i, attributes);
    StripSkips(s, i, i + |attributes| + 5);
  }

  /** No "\n\n" occurs in `p`. */
  predicate NoBlankLine(p: string) {
    forall j :: 0 <= j <= |p| ==> !StartsAt(p, j, "\n\n")
  }

  /** preg_split( '/\n\n+/', s ): the parts between runs of two or more line breaks. */
  function SplitParagraphs(s: string): (parts: seq<string>)
    ensures |parts| >= 1
    ensures forall k :: 0 <= k < |parts| ==> NoBlankLine(parts[k])
    decreases |s|
  {
    match FindFrom(s, 0, "\n\n")
    case None => [s]
    case Some(i) =>
      var e := RunEnd(s, i, '\n');
      assert NoBlankLine(s[..i]) by {
        forall j | 0 <= j <= i
          ensures !StartsAt(s[..i], j, "\n\n")
        {
          if j + 2 <= i {
            assert s[..i][j..j + 2] == s[j..j + 2];
            assert !StartsAt(s, j, "\n\n");
          }
        }
      }
      [s[..i]] + SplitParagraphs(s[e..])
  }

  /** The parts glued back with a blank line between each two. */
  function JoinParagraphs(parts: seq<string>): string {
    if parts == [] then []
    else if |parts| == 1 then parts[0]
    else parts[0] + "\n\n" + JoinParagraphs(parts[1..])
  }

  /** A paragraph as SplitParagraphs produces it from trimmed text. */
  predicate IsParagraph(p: string) {
    p != [] && p[0] != '\n' && p[|p| - 1] != '\n' && NoBlankLine(p)
  }

  lemma JoinParagraphsHead(parts: seq<string>)
    requires |parts| >= 1 && parts[0] != []
    ensures JoinParagraphs(parts) != [] && JoinParagraphs(parts)[0] == parts[0][0]
  {
  }

  /** The first blank line of `p + "\n\n" + rest` is the one after `p`. */
  lemma FirstBlankLine(p: string, rest: string)
    requires IsParagraph(p)
    ensures FindFrom(p + "\n\n" + rest, 0, "\n\n") == Some(|p|)
  {
    var s := p + "\n\n" + rest;
    var n := |p|;
    forall k | 0 <= k < n
      ensures !StartsAt(s, k, "\n\n")
    {
      if k == n - 1 {
        assert s[k] == p[n - 1];
      } else {
        assert !StartsAt(p, k, "\n\n");
        assert s[k..k + 2] == p[k..k + 2];
      }
    }
    assert s[n..n + 2] == "\n\n";
    FindFromIs(s, 0, "\n\n", n);
  }

  /** Splitting undoes joining: parts separated by exactly one blank line come back. */
  lemma {:induction false} SplitJoinParagraphs(parts: seq<string>)
    requires |parts| >= 1
    requires forall k :: 0 <= k < |parts| ==> IsParagraph(parts[k])
    ensures SplitParagraphs(JoinParagraphs(parts)) == parts
  {
    var p := parts[0];
    if |parts| == 1 {
      assert FindFrom(p, 0, "\n\n").None?;
    } else {
      var rest := JoinParagraphs(parts[1..]);
      var s := p + "\n\n" + rest;
      var n := |p|;
      FirstBlankLine(p, rest);
      JoinParagraphsHead(parts[1..]);
      assert s[n + 2] == rest[0] != '\n';
      RunEndIs(s, n, n + 2, '\n');
      assert s[..n] == p && s[n + 2..] == rest;
      SplitJoinParagraphs(parts[1..]);
      assert [p] + parts[1..] == parts;
    }
  }
}
