/**
 * The last pass of the readme transformer: Markdown headings
 * `^(#+)\s(.+?)(\s\1)?$` (under /m) become readme.txt headings, level L
 * wrapped in 4 - L equals signs on each side. A level of four or more is an
 * error, and so is a document without any heading.
 */
module Headings {
  import opened Wrappers
  import opened Text
  import opened Diagnostics

  /** A heading match s[start..end]: its level (number of '#'), and its text. */
  datatype Heading = Heading(level: nat, text: string, end: nat)

  /** `L` heading marks start at index `j`. */
  predicate MarksAt(s: string, j: nat, level: nat) {
    j + level <= |s| && forall k :: j <= k < j + level ==> s[k] == '#'
  }

  /** The group `(\s\1)` matches at index `e` and the line ends right after it. */
  predicate ClosingAt(s: string, e: nat, level: nat) {
    e < |s| && IsSpace(s[e]) && MarksAt(s, e + 1, level) && AtLineEnd(s, e + 1 + level)
  }

  /**
   * The lazy `(.+?)` step with the optional closing group: the text ends at
   * the first index `e` or later (without crossing a line break) where the
   * closing marks and then the line end follow, or, failing that, where the
   * line itself ends. The result is the text end and the match end.
   */
  function TextEnd(s: string, e: nat, level: nat): (r: Option<(nat, nat)>)
    requires 1 <= e <= |s|
    ensures r.Some? ==> e <= r.value.0 <= r.value.1 <= |s| && AtLineEnd(s, r.value.1)
    decreases |s| - e
  {
    if s[e - 1] == '\n' then None
    else if ClosingAt(s, e, level) then Some((e, e + 1 + level))
    else if AtLineEnd(s, e) then Some((e, e))
    else TextEnd(s, e + 1, level)
  }

  /**
   * What the lazy step finds: a text that stays on its line, followed either
   * by the closing group and the line end, or by the line end alone.
   */
  lemma {:induction false} TextEndShape(s: string, e: nat, level: nat)
    requires 1 <= e <= |s| && TextEnd(s, e, level).Some?
    ensures var (t, m) := TextEnd(s, e, level).value;
      && (forall k :: e - 1 <= k < t ==> s[k] != '\n')
      && ((ClosingAt(s, t, level) && m == t + 1 + level) || (AtLineEnd(s, t) && m == t))
    decreases |s| - e
  {
    if !ClosingAt(s, e, level) && !AtLineEnd(s, e) {
      TextEndShape(s, e + 1, level);
    }
  }

  /**
   * The heading the pattern matches at index `i`: the maximal run of '#'
   * (a shorter one would leave a '#' where `\s` is needed), one whitespace
   * character, which may be a line break, and the text.
   */
  function HeadingAt(s: string, i: nat): (r: Option<Heading>)
    requires i <= |s|
    ensures r.Some? ==> AtLineStart(s, i) && r.value.level >= 1 && MarksAt(s, i, r.value.level)
    ensures r.Some? ==> i + r.value.level + 2 <= r.value.end <= |s| && AtLineEnd(s, r.value.end)
    ensures r.Some? ==> |r.value.text| >= 1 && '\n' !in r.value.text
    ensures !AtLineStart(s, i) || i == |s| || s[i] != '#' ==> r.None?
  {
    if !AtLineStart(s, i) || i == |s| || s[i] != '#' then None
    else HeadingAfter(s, i, RunEnd(s, i, '#'))
  }

  /** The rest of a heading after its run of '#' from `i` to `h`: whitespace, then the text. */
  function HeadingAfter(s: string, i: nat, h: nat): (r: Option<Heading>)
    requires i < h <= |s| && forall k :: i <= k < h ==> s[k] == '#'
    ensures r.Some? ==> r.value.level == h - i
    ensures r.Some? ==> h + 2 <= r.value.end <= |s| && AtLineEnd(s, r.value.end)
    ensures r.Some? ==> |r.value.text| >= 1 && '\n' !in r.value.text
  {
    if h == |s| || !IsSpace(s[h]) || h + 1 == |s| then None
    else match TextEnd(s, h + 2, h - i)
      case None => None
      case Some((e, end)) =>
        TextEndShape(s, h + 2, h - i);
        Some(Heading(h - i, s[h + 1..e], end))
  }

  /** The readme.txt form of a heading of level 1 to 3. */
  function Banner(level: nat, text: string): (r: string)
    requires 1 <= level <= 3
    ensures |r| == 2 * (4 - level) + |text| + 2
  {
    Repeat('=', 4 - level) + " " + text + " " + Repeat('=', 4 - level)
  }

  /** The buffer after the pass, and the number of headings it converted. */
  datatype Converted = Converted(text: string, count: nat)

  /**
   * preg_replace_callback() from index `i` on: headings are converted in
   * order, every other character is copied, and the first heading of level
   * four or more stops the pass with an error.
   */
  function ConvertFrom(s: string, i: nat): (r: Result<Converted, Diagnostic>)
    requires i <= |s|
    ensures r.Failure? ==> r.error.line == 193
    ensures r.Success? ==> r.value.count <= |s| - i
    decreases |s| - i
  {
    if i == |s| then Success(Converted([], 0))
    else
      var found := HeadingAt(s, i);
      if found.None? then
        var rest :- ConvertFrom(s, i + 1);
        Success(Converted([s[i]] + rest.text, rest.count))
      else if found.value.level >= 4 then
        Failure(Diagnostic("Heading too small to transform: " + s[i..found.value.end] + ".", 193))
      else
        var rest :- ConvertFrom(s, found.value.end);
        Success(Converted(Banner(found.value.level, found.value.text) + rest.text, rest.count + 1))
  }

  /** The heading pass: the converted buffer, or an error when no heading was converted. */
  function ConvertHeadings(s: string): (r: Result<string, Diagnostic>)
    ensures r.Failure? ==> r.error.line == 193 || r.error == Diagnostic("Unable to transform headings.", 207)
  {
    var converted :- ConvertFrom(s, 0);
    if converted.count == 0 then Failure(Diagnostic("Unable to transform headings.", 207))
    else Success(converted.text)
  }

  /** `r` with `p` put in front of its text and `n` more headings counted; a failure passes through. */
  function Prefixed(p: string, n: nat, r: Result<Converted, Diagnostic>): Result<Converted, Diagnostic> {
    match r
    case Failure(d) => Failure(d)
    case Success(c) => Success(Converted(p + c.text, c.count + n))
  }

  /** Where no heading starts from index `i` to `j`, the pass copies that stretch and goes on at `j`. */
  lemma {:induction false} CopiedThrough(s: string, i: nat, j: nat)
    requires i <= j <= |s|
    requires forall k :: i <= k < j ==> HeadingAt(s, k).None?
    ensures ConvertFrom(s, i) == Prefixed(s[i..j], 0, ConvertFrom(s, j))
    decreases j - i
  {
    if i < j {
      CopiedThrough(s, i + 1, j);
      CopiedOne(s, i);
      PrefixedTwice([s[i]], s[i + 1..j], 0, ConvertFrom(s, j));
      assert [s[i]] + s[i + 1..j] == s[i..j];
    } else {
      assert s[i..j] == [];
      PrefixedNothing(ConvertFrom(s, j));
    }
  }

  lemma CopiedOne(s: string, i: nat)
    requires i < |s| && HeadingAt(s, i).None?
    ensures ConvertFrom(s, i) == Prefixed([s[i]], 0, ConvertFrom(s, i + 1))
  {
  }

  lemma PrefixedNothing(r: Result<Converted, Diagnostic>)
    ensures Prefixed([], 0, r) == r
  {
    match r
    case Failure(_) =>
    case Success(c) => assert [] + c.text == c.text;
  }

  /** A successful pass from `i` that converted nothing met no heading from `i` on. */
  lemma {:induction false} NothingConverted(s: string, i: nat)
    requires i <= |s| && ConvertFrom(s, i).Success? && ConvertFrom(s, i).value.count == 0
    ensures forall k :: i <= k <= |s| ==> HeadingAt(s, k).None?
    decreases |s| - i
  {
    if i < |s| {
      assert HeadingAt(s, i).None?;
      NothingConverted(s, i + 1);
    }
  }

  /**
   * The pass fails with "Unable to transform headings." (line 207) exactly
   * when the pattern matches nowhere in the document.
   */
  lemma NoHeadingFails(s: string)
    ensures ConvertHeadings(s) == Failure(Diagnostic("Unable to transform headings.", 207))
        <==> forall k :: 0 <= k <= |s| ==> HeadingAt(s, k).None?
  {
    if forall k :: 0 <= k <= |s| ==> HeadingAt(s, k).None? {
      CopiedThrough(s, 0, |s|);
      assert s[0..|s|] + [] == s;
    }
    if ConvertHeadings(s) == Failure(Diagnostic("Unable to transform headings.", 207)) {
      NothingConverted(s, 0);
    }
  }

  /** `text` ends with a whitespace character and `level` marks, which would close the heading early. */
  predicate EndsWithClosing(text: string, level: nat) {
    |text| >= level + 2 && IsSpace(text[|text| - level - 1]) && MarksAt(text, |text| - level, level)
  }

  lemma TextEndIs(s: string, e: nat, level: nat, t: nat, m: nat)
    requires 1 <= e <= t <= |s|
    requires forall k :: e - 1 <= k < t ==> s[k] != '\n'
    requires forall k :: e <= k < t ==> !ClosingAt(s, k, level)
    requires (ClosingAt(s, t, level) && m == t + 1 + level) || (!ClosingAt(s, t, level) && AtLineEnd(s, t) && m == t)
    ensures TextEnd(s, e, level) == Some((t, m))
    decreases t - e
  {
    if e < t {
      assert s[e] != '\n';
      TextEndIs(s, e + 1, level, t, m);
    }
  }

  /** Inside the text of a heading line, the closing group can only match at the end of the text. */
  lemma NoEarlyClosing(s: string, h: nat, text: string, level: nat, k: nat)
    requires h + 1 + |text| <= |s| && h + 2 <= k < h + 1 + |text|
    requires forall j :: h + 1 <= j < h + 1 + |text| ==> s[j] == text[j - h - 1]
    requires forall j :: h + 1 <= j < h + 1 + |text| ==> s[j] != '\n'
    requires AtLineEnd(s, h + 1 + |text|) && !EndsWithClosing(text, level)
    ensures !ClosingAt(s, k, level)
  {
    var t := h + 1 + |text|;
    if ClosingAt(s, k, level) {
      assert k + 1 + level == t;
      assert text[|text| - level - 1] == s[k];
      forall j | |text| - level <= j < |text|
        ensures text[j] == '#'
      {
        assert text[j] == s[h + 1 + j];
      }
      assert EndsWithClosing(text, level);
    }
  }

  /** A heading line: `level` marks, a space and the text. */
  function HeadingLine(level: nat, text: string): string {
    Repeat('#', level) + " " + text
  }

  /** The same heading line closed by a space and the same marks again. */
  function ClosedHeadingLine(level: nat, text: string): string {
    HeadingLine(level, text) + " " + Repeat('#', level)
  }

  /**
   * `s` holds, from the start of a line at index `i`, `level` marks, a space
   * and `text`, and the text runs to index `t`, where either the line ends or
   * (when `closed`) the closing marks follow and then the line ends.
   */
  predicate LineAt(s: string, i: nat, level: nat, text: string, closed: bool) {
    var h := i + level;
    var t := h + 1 + |text|;
    var end := if closed then t + 1 + level else t;
    && AtLineStart(s, i) && level >= 1 && |text| >= 1 && end <= |s|
    && (forall k :: i <= k < h ==> s[k] == '#')
    && s[h] == ' ' && s[h + 1..t] == text
    && (forall j :: h + 1 <= j < t ==> s[j] == text[j - h - 1])
    && (forall j :: h + 1 <= j < end ==> s[j] != '\n')
    && AtLineEnd(s, end)
    && (closed ==> s[t] == ' ' && forall k :: t + 1 <= k < end ==> s[k] == '#')
  }

  lemma OpenTextEnd(s: string, h: nat, text: string, level: nat)
    requires h + 1 + |text| <= |s| && |text| >= 1
    requires forall j :: h + 1 <= j < h + 1 + |text| ==> s[j] == text[j - h - 1]
    requires forall j :: h + 1 <= j < h + 1 + |text| ==> s[j] != '\n'
    requires AtLineEnd(s, h + 1 + |text|) && !EndsWithClosing(text, level)
    ensures var t := h + 1 + |text|;
      TextEnd(s, h + 2, level) == Some((t, if ClosingAt(s, t, level) then t + 1 + level else t))
  {
    var t := h + 1 + |text|;
    forall k | h + 2 <= k < t
      ensures !ClosingAt(s, k, level)
    {
      NoEarlyClosing(s, h, text, level, k);
    }
    TextEndIs(s, h + 2, level, t, if ClosingAt(s, t, level) then t + 1 + level else t);
  }

  lemma ClosedTextEnd(s: string, h: nat, text: string, level: nat)
    requires h + 2 + |text| + level <= |s| && |text| >= 1 && level >= 1
    requires forall j :: h + 1 <= j < h + 2 + |text| + level ==> s[j] != '\n'
    requires ClosingAt(s, h + 1 + |text|, level)
    ensures TextEnd(s, h + 2, level) == Some((h + 1 + |text|, h + 2 + |text| + level))
  {
    var t := h + 1 + |text|;
    assert forall k :: h + 2 <= k < t ==> !ClosingAt(s, k, level);
    TextEndIs(s, h + 2, level, t, t + 1 + level);
  }

  lemma HeadingAtIs(s: string, i: nat, h: nat, t: nat, m: nat)
    requires AtLineStart(s, i) && i < h && h + 1 < |s| && IsSpace(s[h]) && s[h] != '#'
    requires forall k :: i <= k < h ==> s[k] == '#'
    requires TextEnd(s, h + 2, h - i) == Some((t, m))
    ensures HeadingAt(s, i) == Some(Heading(h - i, s[h + 1..t], m))
  {
    RunEndIs(s, i, h, '#');
    assert HeadingAt(s, i) == HeadingAfter(s, i, h);
  }

  /**
   * Where the match of a heading line at `i` ends: after its closing marks
   * when it is closed, and also when it is open and the next line holds just
   * `level` marks, since the optional closing group may take the line break
   * as its whitespace.
   */
  function MatchEnd(s: string, i: nat, level: nat, text: string, closed: bool): nat {
    var t := i + level + 1 + |text|;
    if closed || ClosingAt(s, t, level) then t + 1 + level else t
  }

  /**
   * A heading line is matched with its level and its whole text (an open one
   * unless its text itself ends as a closing group would), up to MatchEnd.
   */
  lemma HeadingLineMatched(s: string, i: nat, level: nat, text: string, closed: bool)
    requires LineAt(s, i, level, text, closed)
    requires !closed ==> !EndsWithClosing(text, level)
    ensures HeadingAt(s, i) == Some(Heading(level, text, MatchEnd(s, i, level, text, closed)))
  {
    if closed {
      ClosedLineMatched(s, i, level, text);
    } else {
      OpenLineMatched(s, i, level, text);
    }
  }

  lemma OpenLineMatched(s: string, i: nat, level: nat, text: string)
    requires LineAt(s, i, level, text, false)
    requires !EndsWithClosing(text, level)
    ensures HeadingAt(s, i) == Some(Heading(level, text, MatchEnd(s, i, level, text, false)))
  {
    var h := i + level;
    var t := h + 1 + |text|;
    OpenTextEnd(s, h, text, level);
    HeadingAtIs(s, i, h, t, MatchEnd(s, i, level, text, false));
  }

  lemma ClosedLineMatched(s: string, i: nat, level: nat, text: string)
    requires LineAt(s, i, level, text, true)
    ensures HeadingAt(s, i) == Some(Heading(level, text, i + 2 * level + 2 + |text|))
  {
    var h := i + level;
    var t := h + 1 + |text|;
    assert MarksAt(s, t + 1, level);
    ClosedTextEnd(s, h, text, level);
    HeadingAtIs(s, i, h, t, t + 1 + level);
  }

  lemma HeadingLineShape(level: nat, text: string, closed: bool)
    requires level >= 1 && |text| >= 1 && '\n' !in text
    ensures LineAt(if closed then ClosedHeadingLine(level, text) else HeadingLine(level, text), 0, level, text, closed)
  {
    var open := HeadingLine(level, text);
    var s := if closed then ClosedHeadingLine(level, text) else open;
    assert s[..|open|] == open;
    var t := level + 1 + |text|;
    forall k | 0 <= k < level
      ensures s[k] == '#'
    {
      assert s[k] == open[k] == Repeat('#', level)[k];
    }
    forall j | level + 1 <= j < t
      ensures s[j] == text[j - level - 1]
    {
      assert s[j] == open[j];
    }
    assert s[level + 1..t] == text;
    if closed {
      forall k | t + 1 <= k < |s|
        ensures s[k] == '#'
      {
        assert s[k] == Repeat('#', level)[k - t - 1];
      }
    }
  }

  /** A heading line, open or closed. */
  function LineOf(level: nat, text: string, closed: bool): (r: string)
    ensures |r| == level + 1 + |text| + if closed then 1 + level else 0
  {
    if closed then ClosedHeadingLine(level, text) else HeadingLine(level, text)
  }

  /** A heading line placed as a whole line of a document: after a line break or at the start, before one or at the end. */
  lemma LineInDocument(a: string, level: nat, text: string, closed: bool, b: string)
    requires level >= 1 && |text| >= 1 && '\n' !in text
    requires a == [] || a[|a| - 1] == '\n'
    requires b == [] || b[0] == '\n'
    ensures LineAt(a + LineOf(level, text, closed) + b, |a|, level, text, closed)
  {
    var line := LineOf(level, text, closed);
    var s := a + line + b;
    HeadingLineShape(level, text, closed);
    assert line[level + 1..level + 1 + |text|] == text;
    assert s[|a|..|a| + |line|] == line;
    assert AtLineStart(s, |a|) by {
      if a != [] {
        assert s[|a| - 1] == a[|a| - 1];
      }
    }
    assert AtLineEnd(s, |a| + |line|) by {
      if b != [] {
        assert s[|a| + |line|] == b[0];
      }
    }
    LineShifted(s, |a|, line, level, text, closed);
  }

  /** The facts of a heading line carry over to a copy of it inside `s` at index `i`. */
  lemma LineShifted(s: string, i: nat, line: string, level: nat, text: string, closed: bool)
    requires level >= 1 && |text| >= 1
    requires |line| == level + 1 + |text| + if closed then 1 + level else 0
    requires forall k :: 0 <= k < level ==> line[k] == '#'
    requires line[level] == ' ' && line[level + 1..level + 1 + |text|] == text
    requires forall k :: 0 <= k < |line| ==> line[k] != '\n'
    requires closed ==> line[level + 1 + |text|] == ' '
    requires closed ==> forall k :: level + 2 + |text| <= k < |line| ==> line[k] == '#'
    requires i + |line| <= |s| && s[i..i + |line|] == line
    requires AtLineStart(s, i) && AtLineEnd(s, i + |line|)
    ensures LineAt(s, i, level, text, closed)
  {
    var t := i + level + 1 + |text|;
    ShiftedRun(s, i, line, 0, level, '#');
    assert s[i + level] == line[level];
    ShiftedText(s, i, line, level + 1, text);
    ShiftedNoBreak(s, i, line);
    if closed {
      assert s[t] == line[t - i];
      ShiftedRun(s, i, line, level + 2 + |text|, |line|, '#');
    }
  }

  lemma ShiftedRun(s: string, i: nat, line: string, lo: nat, hi: nat, c: char)
    requires i + |line| <= |s| && s[i..i + |line|] == line
    requires lo <= hi <= |line|
    requires forall k :: lo <= k < hi ==> line[k] == c
    ensures forall k :: i + lo <= k < i + hi ==> s[k] == c
  {
    forall k | i + lo <= k < i + hi
      ensures s[k] == c
    {
      assert s[k] == line[k - i];
    }
  }

  lemma ShiftedNoBreak(s: string, i: nat, line: string)
    requires i + |line| <= |s| && s[i..i + |line|] == line
    requires forall k :: 0 <= k < |line| ==> line[k] != '\n'
    ensures forall k :: i <= k < i + |line| ==> s[k] != '\n'
  {
    forall k | i <= k < i + |line|
      ensures s[k] != '\n'
    {
      assert s[k] == line[k - i];
    }
  }

  lemma ShiftedText(s: string, i: nat, line: string, off: nat, text: string)
    requires i + |line| <= |s| && s[i..i + |line|] == line
    requires off + |text| <= |line| && line[off..off + |text|] == text
    ensures s[i + off..i + off + |text|] == text
    ensures forall j :: i + off <= j < i + off + |text| ==> s[j] == text[j - i - off]
  {
    forall j | i + off <= j < i + off + |text|
      ensures s[j] == text[j - i - off]
    {
      assert s[j] == line[j - i];
    }
    assert s[i + off..i + off + |text|] == text;
  }

  /** A heading line placed as a whole line of a document is matched there, up to MatchEnd. */
  lemma HeadingInDocument(a: string, level: nat, text: string, closed: bool, b: string)
    requires level >= 1 && |text| >= 1 && '\n' !in text
    requires !closed ==> !EndsWithClosing(text, level)
    requires a == [] || a[|a| - 1] == '\n'
    requires b == [] || b[0] == '\n'
    ensures var s := a + LineOf(level, text, closed) + b;
      HeadingAt(s, |a|) == Some(Heading(level, text, MatchEnd(s, |a|, level, text, closed)))
  {
    LineInDocument(a, level, text, closed, b);
    HeadingLineMatched(a + LineOf(level, text, closed) + b, |a|, level, text, closed);
  }

  /** At a match of level 1 to 3 the pass puts out its banner; at a smaller heading it stops. */
  lemma ConvertedAt(s: string, i: nat, m: Heading)
    requires i <= |s| && HeadingAt(s, i) == Some(m)
    ensures i < m.end <= |s|
    ensures m.level <= 3 ==> ConvertFrom(s, i) == Prefixed(Banner(m.level, m.text), 1, ConvertFrom(s, m.end))
    ensures m.level >= 4 ==> ConvertFrom(s, i)
                             == Failure(Diagnostic("Heading too small to transform: " + s[i..m.end] + ".", 193))
  {
  }

  lemma PrefixedTwice(p: string, q: string, n: nat, r: Result<Converted, Diagnostic>)
    ensures Prefixed(p, 0, Prefixed(q, n, r)) == Prefixed(p + q, n, r)
  {
    match r
    case Failure(_) =>
    case Success(c) => assert p + (q + c.text) == p + q + c.text;
  }

  /** With no heading before the match `m` at `i`, the pass copies what precedes it, then converts it or stops. */
  lemma ConvertedAfterPlain(s: string, i: nat, m: Heading)
    requires i <= |s| && HeadingAt(s, i) == Some(m)
    requires forall k :: 0 <= k < i ==> HeadingAt(s, k).None?
    ensures i < m.end <= |s|
    ensures m.level <= 3 ==> ConvertFrom(s, 0) == Prefixed(s[..i] + Banner(m.level, m.text), 1, ConvertFrom(s, m.end))
    ensures m.level >= 4 ==> ConvertFrom(s, 0)
                             == Failure(Diagnostic("Heading too small to transform: " + s[i..m.end] + ".", 193))
  {
    CopiedThrough(s, 0, i);
    ConvertedAt(s, i, m);
    assert s[0..i] == s[..i];
    if m.level <= 3 {
      PrefixedTwice(s[..i], Banner(m.level, m.text), 1, ConvertFrom(s, m.end));
    }
  }

  /**
   * A heading line of level 1 to 3 anywhere in a document, with no heading
   * before it, becomes the readme.txt heading: everything before it is
   * copied, and the pass goes on after the match.
   */
  lemma OneHeadingConverted(a: string, level: nat, text: string, closed: bool, b: string)
    requires 1 <= level <= 3 && |text| >= 1 && '\n' !in text
    requires !closed ==> !EndsWithClosing(text, level)
    requires a == [] || a[|a| - 1] == '\n'
    requires b == [] || b[0] == '\n'
    requires forall k :: 0 <= k < |a| ==> HeadingAt(a + LineOf(level, text, closed) + b, k).None?
    ensures var s := a + LineOf(level, text, closed) + b;
      var e := MatchEnd(s, |a|, level, text, closed);
      && e <= |s|
      && (ConvertFrom(s, e).Failure? ==> ConvertHeadings(s) == Failure(ConvertFrom(s, e).error))
      && (ConvertFrom(s, e).Success? ==>
            ConvertHeadings(s) == Success(a + Banner(level, text) + ConvertFrom(s, e).value.text))
  {
    var s := a + LineOf(level, text, closed) + b;
    HeadingInDocument(a, level, text, closed, b);
    ConvertedAfterPlain(s, |a|, Heading(level, text, MatchEnd(s, |a|, level, text, closed)));
    assert s[..|a|] == a;
  }

  /**
   * When nothing after that heading line is a heading, the rest of the
   * document is copied as it is.
   */
  lemma OnlyHeadingConverted(a: string, level: nat, text: string, closed: bool, b: string)
    requires 1 <= level <= 3 && |text| >= 1 && '\n' !in text
    requires !closed ==> !EndsWithClosing(text, level)
    requires a == [] || a[|a| - 1] == '\n'
    requires b == [] || b[0] == '\n'
    requires forall k :: 0 <= k < |a| ==> HeadingAt(a + LineOf(level, text, closed) + b, k).None?
    requires forall k :: |a| < k <= |a + LineOf(level, text, closed) + b| ==>
               HeadingAt(a + LineOf(level, text, closed) + b, k).None?
    ensures var s := a + LineOf(level, text, closed) + b;
      var e := MatchEnd(s, |a|, level, text, closed);
      e <= |s| && ConvertHeadings(s) == Success(a + Banner(level, text) + s[e..])
  {
    var s := a + LineOf(level, text, closed) + b;
    OneHeadingConverted(a, level, text, closed, b);
    var e := MatchEnd(s, |a|, level, text, closed);
    CopiedThrough(s, e, |s|);
    assert s[e..|s|] + [] == s[e..];
  }

  /**
   * A heading line of level four or more anywhere in a document, with no
   * heading before it, stops the pass, quoting the whole match: the line,
   * and the next line too when the closing group took it.
   */
  lemma SmallHeadingFails(a: string, level: nat, text: string, closed: bool, b: string)
    requires level >= 4 && |text| >= 1 && '\n' !in text
    requires !closed ==> !EndsWithClosing(text, level)
    requires a == [] || a[|a| - 1] == '\n'
    requires b == [] || b[0] == '\n'
    requires forall k :: 0 <= k < |a| ==> HeadingAt(a + LineOf(level, text, closed) + b, k).None?
    ensures var s := a + LineOf(level, text, closed) + b;
      var e := MatchEnd(s, |a|, level, text, closed);
      && |a| + |LineOf(level, text, closed)| <= e <= |s|
      && ConvertHeadings(s) == Failure(Diagnostic("Heading too small to transform: " + s[|a|..e] + ".", 193))
  {
    var s := a + LineOf(level, text, closed) + b;
    var e := MatchEnd(s, |a|, level, text, closed);
    HeadingInDocument(a, level, text, closed, b);
    assert ConvertFrom(s, 0) == Failure(Diagnostic("Heading too small to transform: " + s[|a|..e] + ".", 193)) by {
      ConvertedAfterPlain(s, |a|, Heading(level, text, e));
    }
  }

  /**
   * The stretch a heading line's match covers: the line itself, unless the
   * line is open and the next line holds just its marks, which the match
   * then takes as well.
   */
  lemma MatchedText(a: string, level: nat, text: string, closed: bool, b: string)
    ensures var line := LineOf(level, text, closed);
      var s := a + line + b;
      var e := MatchEnd(s, |a|, level, text, closed);
      && |a| + |line| <= e <= |s|
      && s[|a|..e] == line + b[..e - |a| - |line|]
      && (e == |a| + |line| <==> closed || !ClosingAt(s, |a| + |line|, level))
  {
    var line := LineOf(level, text, closed);
    var s := a + line + b;
    var e := MatchEnd(s, |a|, level, text, closed);
    SliceAcross(a, line, b, e - |a| - |line|);
  }

  lemma SliceAcross(a: string, line: string, b: string, n: nat)
    requires n <= |b|
    ensures (a + line + b)[|a|..|a| + |line| + n] == line + b[..n]
  {
    var s := a + line + b;
    forall k | 0 <= k < |line| + n
      ensures s[|a| + k] == (line + b[..n])[k]
    {
      if k >= |line| {
        assert s[|a| + k] == b[k - |line|];
      }
    }
  }
}
