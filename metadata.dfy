/**
 * The metadata part of the readme header (tools/transform-readme.php, lines
 * 90-133): `**Key:** value` lines are parsed into an ordered dictionary,
 * the six required keys are checked, and the dictionary is written out as
 * `Key: value` lines.
 */
module Metadata {
  import opened Wrappers
  import opened Text
  import opened MarkdownLinks
  import opened Diagnostics

  /** A PHP array with string keys: entries in insertion order. */
  type Entries = seq<(string, string)>

  function Keys(md: Entries): (ks: seq<string>)
    ensures |ks| == |md| && forall i :: 0 <= i < |md| ==> ks[i] == md[i].0
  {
    if md == [] then [] else [md[0].0] + Keys(md[1..])
  }

  /** No key occurs twice, as in any PHP array. */
  predicate UniqueKeys(md: Entries) {
    forall i, j :: 0 <= i < j < |md| ==> md[i].0 != md[j].0
  }

  /** `$metadata[ $key ]`, or None when the key is not set. */
  function Lookup(md: Entries, key: string): (r: Option<string>)
    ensures r.Some? <==> key in Keys(md)
    ensures r.Some? ==> exists i :: 0 <= i < |md| && md[i] == (key, r.value)
  {
    if md == [] then None
    else if md[0].0 == key then Some(md[0].1)
    else Lookup(md[1..], key)
  }

  /**
   * `$metadata[ $key ] = $value`: an existing key keeps its place and takes
   * the new value; a new key goes at the end.
   */
  function Put(md: Entries, key: string, value: string): (r: Entries)
    requires UniqueKeys(md)
    ensures UniqueKeys(r)
    ensures Keys(r) == if key in Keys(md) then Keys(md) else Keys(md) + [key]
  {
    if md == [] then [(key, value)]
    else if md[0].0 == key then [(key, value)] + md[1..]
    else
      var tail := Put(md[1..], key, value);
      assert Keys(md) == [md[0].0] + Keys(md[1..]);
      assert md[0].0 !in Keys(md[1..]);
      [md[0]] + tail
  }

  /** After the assignment the key reads back the new value and every other key its old one. */
  lemma {:induction false} PutLookup(md: Entries, key: string, value: string)
    requires UniqueKeys(md)
    ensures Lookup(Put(md, key, value), key) == Some(value)
    ensures forall k :: k != key ==> Lookup(Put(md, key, value), k) == Lookup(md, k)
  {
    if md != [] && md[0].0 != key {
      PutLookup(md[1..], key, value);
    }
  }

  /** A line `**key:** value` split into its two named groups. */
  datatype MetaLine = MetaLine(key: string, value: string)

  /**
   * The `\s+(?P<value>.+)` tail matched from index `v`: the greedy space run
   * and then the rest of the line. When the run reaches the end of the line,
   * `\s+` gives back its last character so that `.+` can match it.
   */
  function ValueAt(line: string, v: nat): Option<string>
    requires v <= |line|
  {
    var w := SpaceRunEnd(line, v);
    if w == v then None
    else if w < |line| then Some(line[w..])
    else if w - 1 > v then Some([line[w - 1]])
    else None
  }

  /**
   * The value is a non-empty tail of the line after at least one whitespace
   * character; there is one whenever whitespace follows and the line does not
   * end in whitespace.
   */
  lemma ValueAtShape(line: string, v: nat)
    requires v <= |line|
    ensures var r := ValueAt(line, v);
      && (r.Some? ==> |r.value| >= 1 && v < |line| - |r.value| && line[|line| - |r.value|..] == r.value)
      && (r.Some? ==> forall k :: v <= k < |line| - |r.value| ==> IsSpace(line[k]))
      && (v < |line| && IsSpace(line[v]) && !IsSpace(line[|line| - 1]) ==> r.Some?)
  {
  }

  /** The key group may end at index `c`: ":**" follows and the value part matches. */
  predicate KeyEndsAt(line: string, c: nat) {
    3 <= c && StartsAt(line, c, ":**") && ValueAt(line, c + 3).Some?
  }

  /** The lazy `(?P<key>.+?)`: the first index from `c` on where the key may end. */
  function KeyEnd(line: string, c: nat): (r: Option<nat>)
    requires 3 <= c
    ensures r.Some? ==> c <= r.value && KeyEndsAt(line, r.value)
    ensures r.Some? ==> forall k :: c <= k < r.value ==> !KeyEndsAt(line, k)
    ensures r.None? ==> forall k :: c <= k ==> !KeyEndsAt(line, k)
    decreases |line| - c
  {
    if c + 3 > |line| then None
    else if KeyEndsAt(line, c) then Some(c)
    else KeyEnd(line, c + 1)
  }

  /**
   * preg_match( '/^\*\*(?P<key>.+?):\*\*\s+(?P<value>.+)/', line ) on a line
   * without line breaks: the shortest key for which the rest matches.
   */
  function ParseMetaLine(line: string): (r: Option<MetaLine>)
    requires '\n' !in line
    ensures r.Some? ==> |r.value.key| >= 1 && StartsWith(line, "**" + r.value.key + ":**")
    ensures r.Some? ==> KeyEndsAt(line, 2 + |r.value.key|)
    ensures r.Some? ==> forall c: nat :: c < 2 + |r.value.key| ==> !KeyEndsAt(line, c)
    ensures r.Some? ==> ValueAt(line, 5 + |r.value.key|) == Some(r.value.value)
    ensures r.None? ==> !StartsWith(line, "**") || forall c: nat :: !KeyEndsAt(line, c)
  {
    if !StartsWith(line, "**") then None
    else match KeyEnd(line, 3)
      case None => None
      case Some(c) =>
        var key := line[2..c];
        assert line[..c + 3] == line[..2] + key + line[c..c + 3];
        Some(MetaLine(key, ValueAt(line, c + 3).value))
  }

  lemma KeyEndIs(line: string, c: nat, e: nat)
    requires 3 <= c <= e && KeyEndsAt(line, e)
    requires forall k :: c <= k < e ==> !KeyEndsAt(line, k)
    ensures KeyEnd(line, c) == Some(e)
    decreases e - c
  {
    if c < e {
      KeyEndIs(line, c + 1, e);
    }
  }

  /** Where the parts of `**key:** value` sit. */
  lemma MetaLineParts(key: string, value: string, line: string)
    requires '\n' !in key && '\n' !in value
    requires line == "**" + key + ":** " + value
    ensures '\n' !in line && StartsWith(line, "**") && line[2..2 + |key|] == key
    ensures forall k :: 2 <= k < 2 + |key| ==> line[k] == key[k - 2]
    ensures StartsAt(line, 2 + |key|, ":**") && line[5 + |key|] == ' ' && line[6 + |key|..] == value
  {
    var c := 2 + |key|;
    assert line[..2] == "**" && line[2..c] == key;
    assert line[c..c + 3] == ":**" && line[c + 3] == ' ' && line[c + 4..] == value;
    forall k | 0 <= k < |line|
      ensures line[k] != '\n'
    {
      if 2 <= k < c {
        assert line[k] == key[k - 2];
      } else if c + 4 <= k {
        assert line[k] == value[k - c - 4];
      }
    }
  }

  /** The lazy key ends at the first ":**" when the value after it starts with one space. */
  lemma MetaKeyEnd(line: string, c: nat)
    requires 3 <= c && StartsAt(line, c, ":**") && c + 4 < |line|
    requires forall k :: 2 <= k < c ==> line[k] != ':'
    requires line[c + 3] == ' ' && !IsSpace(line[c + 4])
    ensures KeyEnd(line, 3) == Some(c) && ValueAt(line, c + 3) == Some(line[c + 4..])
  {
    SpaceRunEndIs(line, c + 3, c + 4);
    forall k | 3 <= k < c
      ensures !KeyEndsAt(line, k)
    {
      assert line[k..k + 3][0] == line[k];
    }
    KeyEndIs(line, 3, c);
  }

  /** A well-formed line `**key:** value` with a key free of ':' parses back to its parts. */
  lemma MetaLineParsed(key: string, value: string)
    requires |key| >= 1 && ':' !in key && '\n' !in key
    requires |value| >= 1 && !IsSpace(value[0]) && '\n' !in value
    ensures '\n' !in "**" + key + ":** " + value
    ensures ParseMetaLine("**" + key + ":** " + value) == Some(MetaLine(key, value))
  {
    var line := "**" + key + ":** " + value;
    MetaLineParts(key, value, line);
    MetaKeyEnd(line, 2 + |key|);
    ParseMetaLineIs(line, 2 + |key|);
  }

  lemma ParseMetaLineIs(line: string, c: nat)
    requires '\n' !in line && StartsWith(line, "**") && KeyEnd(line, 3) == Some(c)
    ensures ParseMetaLine(line) == Some(MetaLine(line[2..c], ValueAt(line, c + 3).value))
  {
  }

  /** Values that PHP's empty() treats as missing: "" and "0". */
  predicate IsEmptyValue(v: string) {
    v == "" || v == "0"
  }

  const RequiredKeys: seq<string> := ["Contributors", "Tags", "Tested up to", "Stable tag", "License", "License URI"]

  /** One pass of the foreach over the meta lines (lines 91-111). */
  function AddMetaLine(md: Entries, raw: string): (r: Result<Entries, Diagnostic>)
    requires UniqueKeys(md) && '\n' !in raw
    ensures r.Success? ==> UniqueKeys(r.value)
  {
    var meta := Trim(raw);
    TrimWithout(raw, '\n');
    match ParseMetaLine(meta)
    case None => Failure(Diagnostic("Parse error for meta line: " + meta + ".", 94))
    case Some(m) =>
      var md1 := Put(md, m.key, ReplaceLinks(m.value, false));
      if m.key != "License" then Success(md1)
      else
        var uri := ReplaceLinks(m.value, true);
        if !StartsWith(uri, "http") then Failure(Diagnostic("Unable to extract License URI from: " + meta + ".", 106))
        else Success(Put(md1, "License URI", uri))
  }

  predicate NoLineBreaks(lines: seq<string>) {
    forall i :: 0 <= i < |lines| ==> '\n' !in lines[i]
  }

  /** The metadata after the meta lines, in order, are added to `md`; the first bad line stops it. */
  function AddMetaLines(md: Entries, lines: seq<string>): (r: Result<Entries, Diagnostic>)
    requires UniqueKeys(md) && NoLineBreaks(lines)
    ensures r.Success? ==> UniqueKeys(r.value)
    decreases |lines|
  {
    if lines == [] then Success(md)
    else match AddMetaLine(md, lines[0])
      case Failure(d) => Failure(d)
      case Success(md1) => AddMetaLines(md1, lines[1..])
  }

  /** `$metadata` built from the metadata part of the header, one line at a time. */
  function MetadataOf(part: string): (r: Result<Entries, Diagnostic>)
    ensures r.Success? ==> UniqueKeys(r.value)
  {
    AddMetaLines([], Split(part, '\n'))
  }

  /** Builds `$metadata` from the lines of the metadata part, stopping at the first bad line. */
  method ParseMetadata(lines: seq<string>) returns (r: Result<Entries, Diagnostic>)
    requires NoLineBreaks(lines)
    ensures r == AddMetaLines([], lines)
  {
    var md: Entries := [];
    for i := 0 to |lines|
      invariant UniqueKeys(md)
      invariant AddMetaLines([], lines) == AddMetaLines(md, lines[i..])
    {
      assert lines[i..][0] == lines[i] && lines[i..][1..] == lines[i + 1..];
      var step := AddMetaLine(md, lines[i]);
      if step.Failure? {
        return step;
      }
      md := step.value;
    }
    assert lines[|lines|..] == [];
    return Success(md);
  }

  lemma NoLineBreaksSnoc(lines: seq<string>, last: string)
    requires NoLineBreaks(lines) && '\n' !in last
    ensures NoLineBreaks(lines + [last])
  {
    assert forall i :: 0 <= i < |lines| ==> (lines + [last])[i] == lines[i];
  }

  /** Adding lines one after another is adding the first ones and then the last. */
  lemma {:induction false} AddMetaLinesSnoc(md: Entries, lines: seq<string>, last: string)
    requires UniqueKeys(md) && NoLineBreaks(lines) && '\n' !in last
    ensures NoLineBreaks(lines + [last])
    ensures AddMetaLines(md, lines + [last])
         == match AddMetaLines(md, lines)
            case Failure(d) => Failure(d)
            case Success(md1) => AddMetaLine(md1, last)
    decreases |lines|
  {
    NoLineBreaksSnoc(lines, last);
    var all := lines + [last];
    if lines == [] {
      assert all[0] == last && all[1..] == [];
    } else {
      assert all[0] == lines[0] && all[1..] == lines[1..] + [last];
      var step := AddMetaLine(md, lines[0]);
      if step.Success? {
        AddMetaLinesSnoc(step.value, lines[1..], last);
      }
    }
  }

  /**
   * The last meta line sets its key to its value with every link replaced by
   * its text; when that key is "License", "License URI" is set to the value
   * with every link replaced by its URL, which starts with "http".
   */
  lemma LastLineWins(md: Entries, lines: seq<string>, last: string, m: MetaLine, out: Entries)
    requires UniqueKeys(md) && NoLineBreaks(lines) && '\n' !in last
    requires NoLineBreaks(lines + [last]) && AddMetaLines(md, lines + [last]) == Success(out)
    requires '\n' !in Trim(last) && ParseMetaLine(Trim(last)) == Some(m)
    ensures m.key != "License URI" ==> Lookup(out, m.key) == Some(ReplaceLinks(m.value, false))
    ensures m.key == "License" ==> Lookup(out, "License URI") == Some(ReplaceLinks(m.value, true))
    ensures m.key == "License" ==> StartsWith(ReplaceLinks(m.value, true), "http")
  {
    AddMetaLinesSnoc(md, lines, last);
    var md1 := AddMetaLines(md, lines).value;
    LineAdded(md1, last, m, out);
  }

  /** What one successful meta line leaves in the dictionary. */
  lemma LineAdded(md: Entries, raw: string, m: MetaLine, out: Entries)
    requires UniqueKeys(md) && '\n' !in raw && AddMetaLine(md, raw) == Success(out)
    requires '\n' !in Trim(raw) && ParseMetaLine(Trim(raw)) == Some(m)
    ensures m.key != "License URI" ==> Lookup(out, m.key) == Some(ReplaceLinks(m.value, false))
    ensures m.key == "License" ==> Lookup(out, "License URI") == Some(ReplaceLinks(m.value, true))
    ensures m.key == "License" ==> StartsWith(ReplaceLinks(m.value, true), "http")
  {
    var md1 := Put(md, m.key, ReplaceLinks(m.value, false));
    PutLookup(md, m.key, ReplaceLinks(m.value, false));
    if m.key == "License" {
      PutLookup(md1, "License URI", ReplaceLinks(m.value, true));
    }
  }

  /*
   * A reference description of the final dictionary. Each meta line makes one
   * or two assignments; the keys end up in the order of their first
   * assignment, each holding the value of its last one.
   */

  /**
   * The assignments one meta line makes: its key to its value with links
   * replaced by their text, and for "License" also "License URI" to the value
   * with links replaced by their URL. A line that does not parse makes none.
   */
  function LineAssignments(raw: string): Entries {
    var meta := Trim(raw);
    if '\n' in meta then []
    else match ParseMetaLine(meta)
      case None => []
      case Some(m) =>
        [(m.key, ReplaceLinks(m.value, false))]
        + if m.key == "License" then [("License URI", ReplaceLinks(m.value, true))] else []
  }

  /** The assignments of all the lines, in order. */
  function Assignments(lines: seq<string>): Entries {
    if lines == [] then []
    else Assignments(lines[..|lines| - 1]) + LineAssignments(lines[|lines| - 1])
  }

  /** The keys of `ks` in the order of their first occurrence, each once. */
  function FirstOccurrences(ks: seq<string>): (r: seq<string>)
    ensures forall k :: k in r <==> k in ks
    ensures forall i, j :: 0 <= i < j < |r| ==> r[i] != r[j]
  {
    if ks == [] then []
    else
      var init := FirstOccurrences(ks[..|ks| - 1]);
      assert forall k :: k in ks <==> k in ks[..|ks| - 1] || k == ks[|ks| - 1];
      if ks[|ks| - 1] in init then init else init + [ks[|ks| - 1]]
  }

  /** The value of the last assignment to `key`, or None when there is none. */
  function LastValue(history: Entries, key: string): (r: Option<string>)
    ensures r.None? <==> key !in Keys(history)
  {
    if history == [] then None
    else if history[|history| - 1].0 == key then Some(history[|history| - 1].1)
    else
      var init := history[..|history| - 1];
      assert Keys(history) == Keys(init) + [history[|history| - 1].0];
      LastValue(init, key)
  }

  /** The dictionary `md` is what the assignments `history` describe. */
  ghost predicate Describes(md: Entries, history: Entries) {
    && Keys(md) == FirstOccurrences(Keys(history))
    && forall k :: Lookup(md, k) == LastValue(history, k)
  }

  /** One more assignment keeps the dictionary described by the assignments. */
  lemma PutFollows(md: Entries, history: Entries, key: string, value: string)
    requires UniqueKeys(md) && Describes(md, history)
    ensures Describes(Put(md, key, value), history + [(key, value)])
  {
    var more := history + [(key, value)];
    assert Keys(Put(md, key, value)) == FirstOccurrences(Keys(more)) by {
      KeysSnoc(history, key, value);
      FirstOccurrencesSnoc(Keys(history), key);
    }
    forall k
      ensures Lookup(Put(md, key, value), k) == LastValue(more, k)
    {
      PutLookup(md, key, value);
      LastValueSnoc(history, key, value, k);
    }
  }

  lemma KeysSnoc(history: Entries, key: string, value: string)
    ensures Keys(history + [(key, value)]) == Keys(history) + [key]
  {
  }

  lemma FirstOccurrencesSnoc(ks: seq<string>, k: string)
    ensures FirstOccurrences(ks + [k]) == if k in FirstOccurrences(ks) then FirstOccurrences(ks) else FirstOccurrences(ks) + [k]
  {
    assert (ks + [k])[..|ks|] == ks;
  }

  lemma LastValueSnoc(history: Entries, key: string, value: string, k: string)
    ensures LastValue(history + [(key, value)], k) == if k == key then Some(value) else LastValue(history, k)
  {
    assert (history + [(key, value)])[..|history|] == history;
  }

  /** The assignments carried out one after another on `md`. */
  function PutAll(md: Entries, history: Entries): (r: Entries)
    requires UniqueKeys(md)
    ensures UniqueKeys(r)
    decreases |history|
  {
    if history == [] then md
    else PutAll(Put(md, history[0].0, history[0].1), history[1..])
  }

  /** Carrying out two runs of assignments is carrying out the first, then the second. */
  lemma {:induction false} PutAllAppend(md: Entries, first: Entries, second: Entries)
    requires UniqueKeys(md)
    ensures PutAll(md, first + second) == PutAll(PutAll(md, first), second)
    decreases |first|
  {
    if first == [] {
      assert first + second == second;
    } else {
      var both := first + second;
      assert both[0] == first[0] && both[1..] == first[1..] + second;
      PutAllAppend(Put(md, first[0].0, first[0].1), first[1..], second);
    }
  }

  /** Carrying out one more assignment is one more `Put`. */
  lemma PutAllSnoc(md: Entries, history: Entries, key: string, value: string)
    requires UniqueKeys(md)
    ensures PutAll(md, history + [(key, value)]) == Put(PutAll(md, history), key, value)
  {
    PutAllAppend(md, history, [(key, value)]);
    var last: Entries := [(key, value)];
    assert last[1..] == [];
  }

  /** Carrying out assignments from an empty dictionary yields what they describe. */
  lemma {:induction false} PutAllDescribes(history: Entries)
    ensures Describes(PutAll([], history), history)
    decreases |history|
  {
    if history == [] {
      assert Keys([]) == [];
    } else {
      var init := history[..|history| - 1];
      var last := history[|history| - 1];
      assert init + [(last.0, last.1)] == history;
      var md := PutAll([], init);
      assert PutAll([], history) == Put(md, last.0, last.1) by {
        PutAllSnoc([], init, last.0, last.1);
      }
      PutAllDescribes(init);
      PutFollows(md, init, last.0, last.1);
    }
  }

  /** The meta line a successful step parsed. */
  lemma LineParsed(md: Entries, raw: string, out: Entries) returns (m: MetaLine)
    requires UniqueKeys(md) && '\n' !in raw && AddMetaLine(md, raw) == Success(out)
    ensures '\n' !in Trim(raw) && ParseMetaLine(Trim(raw)) == Some(m)
    ensures m.key != "License" ==> out == Put(md, m.key, ReplaceLinks(m.value, false))
    ensures m.key == "License" ==>
      out == Put(Put(md, m.key, ReplaceLinks(m.value, false)), "License URI", ReplaceLinks(m.value, true))
  {
    TrimWithout(raw, '\n');
    m := ParseMetaLine(Trim(raw)).value;
  }

  /** A line other than "License" makes one assignment. */
  lemma SingleCarriedOut(md: Entries, key: string, v: string)
    requires UniqueKeys(md)
    ensures PutAll(md, [(key, v)]) == Put(md, key, v)
  {
    var h: Entries := [(key, v)];
    assert h[1..] == [];
  }

  /** A "License" line makes two assignments. */
  lemma LicenseCarriedOut(md: Entries, v: string, uri: string)
    requires UniqueKeys(md)
    ensures PutAll(md, [("License", v), ("License URI", uri)])
         == Put(Put(md, "License", v), "License URI", uri)
  {
    var h: Entries := [("License", v), ("License URI", uri)];
    assert h[1..] == [("License URI", uri)];
    SingleCarriedOut(Put(md, "License", v), "License URI", uri);
  }

  /** The assignments of a line that parses. */
  lemma AssignmentsOfLine(raw: string, m: MetaLine)
    requires '\n' !in Trim(raw) && ParseMetaLine(Trim(raw)) == Some(m)
    ensures m.key != "License" ==> LineAssignments(raw) == [(m.key, ReplaceLinks(m.value, false))]
    ensures m.key == "License" ==>
      LineAssignments(raw) == [("License", ReplaceLinks(m.value, false)), ("License URI", ReplaceLinks(m.value, true))]
  {
  }

  /** A successful meta line carries out its assignments. */
  lemma LineCarriedOut(md: Entries, raw: string, out: Entries)
    requires UniqueKeys(md) && '\n' !in raw && AddMetaLine(md, raw) == Success(out)
    ensures out == PutAll(md, LineAssignments(raw))
  {
    var m := LineParsed(md, raw, out);
    AssignmentsOfLine(raw, m);
    var v := ReplaceLinks(m.value, false);
    if m.key == "License" {
      LicenseCarriedOut(md, v, ReplaceLinks(m.value, true));
    } else {
      SingleCarriedOut(md, m.key, v);
    }
  }

  /** A successful run is a successful run over all but the last line, then a step. */
  lemma RunSplit(init: seq<string>, last: string, out: Entries) returns (md: Entries)
    requires NoLineBreaks(init) && '\n' !in last
    requires NoLineBreaks(init + [last]) && AddMetaLines([], init + [last]) == Success(out)
    ensures AddMetaLines([], init) == Success(md) && UniqueKeys(md)
    ensures AddMetaLine(md, last) == Success(out)
  {
    AddMetaLinesSnoc([], init, last);
    md := AddMetaLines([], init).value;
  }

  /** The lines before the last and the last line, each without a line break. */
  lemma NoLineBreaksSplit(lines: seq<string>)
    requires NoLineBreaks(lines) && lines != []
    ensures NoLineBreaks(lines[..|lines| - 1]) && '\n' !in lines[|lines| - 1]
    ensures lines[..|lines| - 1] + [lines[|lines| - 1]] == lines
  {
    var init := lines[..|lines| - 1];
    forall i | 0 <= i < |init|
      ensures '\n' !in init[i]
    {
      assert init[i] == lines[i];
    }
  }

  /** The last line's assignments come after those of the lines before it. */
  lemma AssignmentsSnoc(init: seq<string>, last: string)
    ensures Assignments(init + [last]) == Assignments(init) + LineAssignments(last)
  {
    var lines := init + [last];
    assert lines[..|lines| - 1] == init;
  }

  /** A successful run carries out the assignments of all its lines, in order. */
  lemma {:induction false} LinesCarriedOut(lines: seq<string>, out: Entries)
    requires NoLineBreaks(lines) && AddMetaLines([], lines) == Success(out)
    ensures out == PutAll([], Assignments(lines))
    decreases |lines|
  {
    if lines != [] {
      NoLineBreaksSplit(lines);
      var init := lines[..|lines| - 1];
      var last := lines[|lines| - 1];
      var md := RunSplit(init, last, out);
      LinesCarriedOut(init, md);
      LineCarriedOut(md, last, out);
      AssignmentsSnoc(init, last);
      PutAllAppend([], Assignments(init), LineAssignments(last));
    }
  }

  /**
   * The final dictionary of a successful run: its keys in the order of their
   * first assignment (so "License URI", when no line set it before, right
   * after "License"), each holding the value of its last assignment.
   */
  lemma MetadataContents(lines: seq<string>, out: Entries)
    requires NoLineBreaks(lines) && AddMetaLines([], lines) == Success(out)
    ensures Keys(out) == FirstOccurrences(Keys(Assignments(lines)))
    ensures forall k :: Lookup(out, k) == LastValue(Assignments(lines), k)
  {
    LinesCarriedOut(lines, out);
    PutAllDescribes(Assignments(lines));
  }

  /** The same for `$metadata` as built from the metadata part of the header. */
  lemma MetadataOfContents(part: string)
    requires MetadataOf(part).Success?
    ensures Keys(MetadataOf(part).value) == FirstOccurrences(Keys(Assignments(Split(part, '\n'))))
    ensures forall k :: Lookup(MetadataOf(part).value, k) == LastValue(Assignments(Split(part, '\n')), k)
  {
    MetadataContents(Split(part, '\n'), MetadataOf(part).value);
  }

  /** The trimmed line matches the `**key:** value` pattern. */
  predicate IsMetaLine(raw: string) {
    '\n' !in Trim(raw) && ParseMetaLine(Trim(raw)).Some?
  }

  lemma AddedLineParses(md: Entries, raw: string)
    requires UniqueKeys(md) && '\n' !in raw && AddMetaLine(md, raw).Success?
    ensures IsMetaLine(raw)
  {
    TrimWithout(raw, '\n');
  }

  /** Every meta line of a successful run matches the `**key:** value` pattern. */
  lemma {:induction false} SuccessMeansEveryLineParses(md: Entries, lines: seq<string>)
    requires UniqueKeys(md) && NoLineBreaks(lines)
    requires AddMetaLines(md, lines).Success?
    ensures forall i :: 0 <= i < |lines| ==> IsMetaLine(lines[i])
    decreases |lines|
  {
    if lines != [] {
      AddedLineParses(md, lines[0]);
      var md1 := AddMetaLine(md, lines[0]).value;
      SuccessMeansEveryLineParses(md1, lines[1..]);
      forall i | 1 <= i < |lines|
        ensures IsMetaLine(lines[i])
      {
        assert lines[i] == lines[1..][i - 1];
      }
    }
  }

  /** `$metadata[ $key ]` is set and not empty() (line 122). */
  predicate HasValue(md: Entries, key: string) {
    Lookup(md, key).Some? && !IsEmptyValue(Lookup(md, key).value)
  }

  /** The index of the first key in `keys` from `i` on without a value. */
  function MissingFrom(md: Entries, keys: seq<string>, i: nat): (r: Option<nat>)
    requires i <= |keys|
    ensures r.None? <==> forall j :: i <= j < |keys| ==> HasValue(md, keys[j])
    ensures r.Some? ==> i <= r.value < |keys| && !HasValue(md, keys[r.value])
    ensures r.Some? ==> forall j :: i <= j < r.value ==> HasValue(md, keys[j])
    decreases |keys| - i
  {
    if i == |keys| then None
    else if !HasValue(md, keys[i]) then Some(i)
    else MissingFrom(md, keys, i + 1)
  }

  /**
   * The foreach of lines 121-125: every required key must hold a non-empty
   * value; the first one in the list that does not is reported.
   */
  function CheckRequired(md: Entries): (r: Outcome<Diagnostic>)
    ensures r.Pass? <==> forall k :: k in RequiredKeys ==> HasValue(md, k)
    ensures r.Fail? ==> exists i :: (0 <= i < |RequiredKeys| && !HasValue(md, RequiredKeys[i])
      && (forall j :: 0 <= j < i ==> HasValue(md, RequiredKeys[j]))
      && r.error == Diagnostic("Failed to parse metadata. Missing: " + RequiredKeys[i], 123))
  {
    match MissingFrom(md, RequiredKeys, 0)
    case None => Pass
    case Some(i) => Fail(Diagnostic("Failed to parse metadata. Missing: " + RequiredKeys[i], 123))
  }

  /** One entry as the header shows it: `Key: value`. */
  function EntryText(entry: (string, string)): string {
    entry.0 + ": " + entry.1
  }

  lemma EntryTextOneLine(entry: (string, string))
    requires '\n' !in entry.0 && '\n' !in entry.1
    ensures '\n' !in EntryText(entry)
  {
  }

  function EntryTexts(md: Entries): (ts: seq<string>)
    ensures |ts| == |md| && forall i :: 0 <= i < |md| ==> ts[i] == EntryText(md[i])
  {
    if md == [] then [] else EntryTexts(md[..|md| - 1]) + [EntryText(md[|md| - 1])]
  }

  /** All entries, one `Key: value` line each, in insertion order. */
  function RenderEntries(md: Entries): string {
    Unlines(EntryTexts(md))
  }

  /** The emitted metadata, cut at its line breaks, is one `Key: value` line per entry in order. */
  lemma RenderedLines(md: Entries)
    requires forall i :: 0 <= i < |md| ==> '\n' !in md[i].0 && '\n' !in md[i].1
    ensures Split(RenderEntries(md), '\n') == EntryTexts(md) + [""]
  {
    var ts := EntryTexts(md);
    forall i | 0 <= i < |ts|
      ensures '\n' !in ts[i]
    {
      EntryTextOneLine(md[i]);
    }
    SplitUnlines(ts);
  }
}
