/**
 * The scanners of the version-consistency checker
 * (tools/verify-version-consistency.php, lines 40-86): each regular
 * expression the script applies to README.md or to the plugin's bootstrap
 * file, as the leftmost match PCRE finds.
 */
module VersionScan {
  import opened Wrappers
  import opened Text
  import opened MarkdownLinks

  /** The leftmost index at or after `p` where `at` finds a match. */
  function Leftmost(s: string, p: nat, at: nat -> Option<string>): (r: Option<nat>)
    ensures r.Some? ==> p <= r.value < |s| && at(r.value).Some?
    ensures r.Some? ==> forall k :: p <= k < r.value ==> at(k).None?
    ensures r.None? ==> forall k :: p <= k < |s| ==> at(k).None?
    decreases |s| - p
  {
    if p >= |s| then None
    else if at(p).Some? then Some(p)
    else Leftmost(s, p + 1, at)
  }

  /** What `at` captures at its leftmost match in `s`, if there is one. */
  function FirstCapture(s: string, at: nat -> Option<string>): (r: Option<string>)
    ensures r.Some? <==> exists k :: 0 <= k < |s| && at(k).Some?
    ensures r.Some? ==> exists k :: 0 <= k < |s| && at(k) == r && forall j :: 0 <= j < k ==> at(j).None?
  {
    match Leftmost(s, 0, at)
    case None => None
    case Some(k) => at(k)
  }

  /**
   * `\*\*Stable tag:\*\*\s+(\S+)` under /i at index `p`: the whitespace run
   * is greedy and the token after it must not be empty, so the tag is the
   * first run of non-whitespace after the label.
   */
  function StableTagAt(s: string, p: nat): (r: Option<string>)
    ensures r.Some? ==> StartsAtIgnoreCase(s, p, "**Stable tag:**") && p + 15 < |s| && IsSpace(s[p + 15])
    ensures r.Some? ==> |r.value| >= 1 && forall k :: 0 <= k < |r.value| ==> !IsSpace(r.value[k])
  {
    if !StartsAtIgnoreCase(s, p, "**Stable tag:**") || p + 15 >= |s| || !IsSpace(s[p + 15]) then None
    else
      var w := SpaceRunEnd(s, p + 15);
      if w == |s| then None
      else
        var e := TokenEnd(s, w);
        assert forall k :: 0 <= k < e - w ==> s[w..e][k] == s[w + k];
        Some(s[w..e])
  }

  /** preg_match of the stable-tag pattern: the tag at the leftmost label that reads one. */
  function StableTag(readme: string): (r: Option<string>)
    ensures r.Some? <==> exists k :: 0 <= k < |readme| && StableTagAt(readme, k).Some?
    ensures r.Some? ==>
      exists k :: 0 <= k < |readme| && StableTagAt(readme, k) == r &&
        forall j :: 0 <= j < k ==> StableTagAt(readme, j).None?
  {
    var at := (k: nat) => StableTagAt(readme, k);
    assert forall k: nat :: at(k) == StableTagAt(readme, k);
    FirstCapture(readme, at)
  }

  /** A label followed by whitespace and a token is read as that token. */
  lemma StableTagAtIs(s: string, p: nat, w: nat, e: nat)
    requires StartsAtIgnoreCase(s, p, "**Stable tag:**") && p + 15 < w < e <= |s|
    requires forall k :: p + 15 <= k < w ==> IsSpace(s[k])
    requires forall k :: w <= k < e ==> !IsSpace(s[k])
    requires e == |s| || IsSpace(s[e])
    ensures StableTagAt(s, p) == Some(s[w..e])
  {
    SpaceRunEndIs(s, p + 15, w);
    TokenEndIs(s, w, e);
  }

  /** The largest index in [lo, j) that does not hold a line break. */
  function LastNonBreak(s: string, lo: nat, j: nat): (r: Option<nat>)
    requires j <= |s|
    ensures r.Some? ==> lo <= r.value < j && s[r.value] != '\n'
    ensures r.Some? ==> forall k :: r.value < k < j ==> s[k] == '\n'
    ensures r.None? ==> forall k :: lo <= k < j ==> s[k] == '\n'
    decreases j
  {
    if j <= lo then None
    else if s[j - 1] != '\n' then Some(j - 1)
    else LastNonBreak(s, lo, j - 1)
  }

  /**
   * `^## Changelog\s+(.+)$` under /m at index `p`: the whitespace run, which
   * may span lines, is greedy, so the captured line is the first line with
   * content after the heading. Only when whitespace runs to the end of the
   * text does the run give back characters, down to the last one that is
   * not a line break.
   */
  function ChangelogLineAt(s: string, p: nat): (r: Option<string>)
    ensures r.Some? ==> AtLineStart(s, p) && StartsAt(s, p, "## Changelog")
    ensures r.Some? ==> |r.value| >= 1 && '\n' !in r.value
  {
    if !AtLineStart(s, p) || !StartsAt(s, p, "## Changelog") || p + 12 >= |s| || !IsSpace(s[p + 12]) then None
    else
      var w := SpaceRunEnd(s, p + 12);
      var j := if w < |s| then Some(w) else LastNonBreak(s, p + 13, w);
      match j
      case None => None
      case Some(j) =>
        var e := LineEnd(s, j);
        assert forall k :: 0 <= k < e - j ==> s[j..e][k] == s[j + k];
        Some(s[j..e])
  }

  /** preg_match of the changelog pattern: the line read at the leftmost heading that gives one. */
  function ChangelogLine(readme: string): (r: Option<string>)
    ensures r.Some? <==> exists k :: 0 <= k < |readme| && ChangelogLineAt(readme, k).Some?
    ensures r.Some? ==>
      exists k :: 0 <= k < |readme| && ChangelogLineAt(readme, k) == r &&
        forall j :: 0 <= j < k ==> ChangelogLineAt(readme, j).None?
  {
    var at := (k: nat) => ChangelogLineAt(readme, k);
    assert forall k: nat :: at(k) == ChangelogLineAt(readme, k);
    FirstCapture(readme, at)
  }

  /** After the heading and whitespace, the first line with content is the one read. */
  lemma ChangelogLineAtIs(s: string, p: nat, w: nat)
    requires AtLineStart(s, p) && StartsAt(s, p, "## Changelog") && p + 12 < w < |s| && !IsSpace(s[w])
    requires forall k :: p + 12 <= k < w ==> IsSpace(s[k])
    ensures ChangelogLineAt(s, p) == Some(s[w..LineEnd(s, w)])
  {
    SpaceRunEndIs(s, p + 12, w);
  }

  /** The first changelog item: a release heading, a link to an external changelog, or neither. */
  datatype ChangelogEntry = Latest(version: string) | External | Unidentified

  /** `^### (\d.+)` on the first changelog line, then `\[.+?]\(.+?\)`. */
  function ClassifyEntry(line: string): (r: ChangelogEntry)
    ensures r.Latest? <==> |line| >= 6 && StartsWith(line, "### ") && IsDigit(line[4])
    ensures r.Latest? ==> line == "### " + r.version
    ensures r.External? <==> !(|line| >= 6 && StartsWith(line, "### ") && IsDigit(line[4])) && HasLink(line)
  {
    if |line| >= 6 && StartsWith(line, "### ") && IsDigit(line[4]) then
      assert line == line[..4] + line[4..];
      Latest(line[4..])
    else if HasLink(line) then External
    else Unidentified
  }

  /** `^ \* Plugin Name\s*:` under /i and /m at index `p`. */
  predicate PluginNameAt(s: string, p: nat) {
    && AtLineStart(s, p)
    && StartsAtIgnoreCase(s, p, " * Plugin Name")
    && var w := SpaceRunEnd(s, p + 14);
       w < |s| && s[w] == ':'
  }

  /** The file declares a plugin header. */
  predicate DeclaresPlugin(contents: string) {
    exists p :: 0 <= p < |contents| && PluginNameAt(contents, p)
  }

  /** The first file at index `i` or later whose contents declare a plugin header. */
  function BootstrapFrom(files: seq<(string, string)>, i: nat): (r: Option<nat>)
    ensures r.Some? ==> i <= r.value < |files| && DeclaresPlugin(files[r.value].1)
    ensures r.Some? ==> forall k :: i <= k < r.value ==> !DeclaresPlugin(files[k].1)
    ensures r.None? ==> forall k :: i <= k < |files| ==> !DeclaresPlugin(files[k].1)
    decreases |files| - i
  {
    if i >= |files| then None
    else if DeclaresPlugin(files[i].1) then Some(i)
    else BootstrapFrom(files, i + 1)
  }

  /** The loop over the listing that stops at the first bootstrap file. */
  method FindBootstrap(files: seq<(string, string)>) returns (r: Option<nat>)
    ensures r == BootstrapFrom(files, 0)
  {
    r := None;
    var i := 0;
    while i < |files|
      invariant 0 <= i <= |files|
      invariant BootstrapFrom(files, 0) == BootstrapFrom(files, i)
    {
      if DeclaresPlugin(files[i].1) {
        r := Some(i);
        break;
      }
      i := i + 1;
    }
  }

  /** The optional `(?:.\d+)` group at index `d`: any character but a line break, then digits. */
  function PatchEnd(s: string, d: nat): (e: nat)
    requires d <= |s|
    ensures d <= e <= |s| && forall k :: d <= k < e ==> s[k] != '\n'
  {
    if d + 1 < |s| && s[d] != '\n' && IsDigit(s[d + 1]) then DigitRunEnd(s, d + 1) else d
  }

  /** The optional `(-\w+)` group at index `d`. */
  function PrereleaseEnd(s: string, d: nat): (e: nat)
    requires d <= |s|
    ensures d <= e <= |s| && forall k :: d <= k < e ==> s[k] != '\n'
  {
    if d + 1 < |s| && s[d] == '-' && IsWordChar(s[d + 1]) then WordRunEnd(s, d + 1) else d
  }

  /**
   * Where `\d+\.\d+(?:.\d+)?(-\w+)?` starting at index `v` ends. Every
   * quantifier is greedy and nothing follows the optional groups, so each
   * part takes as much as it can: major and minor digits, then any one
   * character and more digits, then '-' and word characters.
   */
  function VersionEnd(s: string, v: nat): (r: Option<nat>)
    requires v <= |s|
    ensures r.Some? ==> v + 3 <= r.value <= |s| && IsDigit(s[v])
    ensures r.Some? ==> forall k :: v <= k < r.value ==> s[k] != '\n'
  {
    var d1 := DigitRunEnd(s, v);
    if d1 == v || d1 == |s| || s[d1] != '.' then None
    else
      var d2 := DigitRunEnd(s, d1 + 1);
      if d2 == d1 + 1 then None
      else Some(PrereleaseEnd(s, PatchEnd(s, d2)))
  }

  /** `\*\s*Version:\s*` followed by a version at index `p`; the version is captured. */
  function PluginVersionAt(s: string, p: nat): (r: Option<string>)
    ensures r.Some? ==> p < |s| && s[p] == '*'
    ensures r.Some? ==> |r.value| >= 3 && IsDigit(r.value[0]) && '\n' !in r.value
  {
    if p >= |s| || s[p] != '*' then None
    else
      var a := SpaceRunEnd(s, p + 1);
      if !StartsAt(s, a, "Version:") then None
      else
        var v := SpaceRunEnd(s, a + 8);
        match VersionEnd(s, v)
        case None => None
        case Some(e) =>
          assert forall k :: 0 <= k < e - v ==> s[v..e][k] == s[v + k];
          Some(s[v..e])
  }

  /** Digits, '.', digits, '.', digits, not followed by a digit or '-', form a whole version. */
  lemma ReleaseVersionEnd(s: string, v: nat, d1: nat, d2: nat, e: nat)
    requires v < d1 && d1 + 1 < d2 && d2 + 1 < e <= |s| && s[d1] == '.' && s[d2] == '.'
    requires forall k :: v <= k < d1 ==> IsDigit(s[k])
    requires forall k :: d1 + 1 <= k < d2 ==> IsDigit(s[k])
    requires forall k :: d2 + 1 <= k < e ==> IsDigit(s[k])
    requires e == |s| || (!IsDigit(s[e]) && s[e] != '-')
    ensures VersionEnd(s, v) == Some(e)
  {
    DigitRunEndIs(s, v, d1);
    DigitRunEndIs(s, d1 + 1, d2);
    DigitRunEndIs(s, d2 + 1, e);
    assert PatchEnd(s, d2) == e;
  }

  /**
   * Digits, '.', digits, any one character but a line break or a digit, digits, then
   * '-' and a run of word characters, form a whole version: a prerelease
   * such as 1.2.0-beta1 is read with its tag.
   */
  lemma PrereleaseVersionEnd(s: string, v: nat, d1: nat, d2: nat, d3: nat, e: nat)
    requires v < d1 && d1 + 1 < d2 && d2 + 1 < d3 && d3 + 1 < e <= |s|
    requires s[d1] == '.' && s[d2] != '\n' && !IsDigit(s[d2]) && s[d3] == '-'
    requires forall k :: v <= k < d1 ==> IsDigit(s[k])
    requires forall k :: d1 + 1 <= k < d2 ==> IsDigit(s[k])
    requires forall k :: d2 + 1 <= k < d3 ==> IsDigit(s[k])
    requires forall k :: d3 + 1 <= k < e ==> IsWordChar(s[k])
    requires e == |s| || !IsWordChar(s[e])
    ensures VersionEnd(s, v) == Some(e)
  {
    NumberRunsEnd(s, v, d1, d2, d3);
    WordRunEndIs(s, d3 + 1, e);
  }

  /** The three digit runs of a version end where their separators are. */
  lemma NumberRunsEnd(s: string, v: nat, d1: nat, d2: nat, d3: nat)
    requires v < d1 < d2 < d3 < |s| && !IsDigit(s[d1]) && !IsDigit(s[d2]) && !IsDigit(s[d3])
    requires forall k :: v <= k < d1 ==> IsDigit(s[k])
    requires forall k :: d1 + 1 <= k < d2 ==> IsDigit(s[k])
    requires forall k :: d2 + 1 <= k < d3 ==> IsDigit(s[k])
    ensures DigitRunEnd(s, v) == d1 && DigitRunEnd(s, d1 + 1) == d2 && DigitRunEnd(s, d2 + 1) == d3
  {
    DigitRunEndIs(s, v, d1);
    DigitRunEndIs(s, d1 + 1, d2);
    DigitRunEndIs(s, d2 + 1, d3);
  }

  /** A header line `* Version: X.Y.Z` is read as the release version X.Y.Z. */
  lemma ReleaseVersionAt(s: string, p: nat, a: nat, v: nat, e: nat)
    requires p < a && a + 8 <= v < |s| && s[p] == '*'
    requires forall k :: p + 1 <= k < a ==> IsSpace(s[k])
    requires StartsAt(s, a, "Version:")
    requires forall k :: a + 8 <= k < v ==> IsSpace(s[k])
    requires IsDigit(s[v]) && VersionEnd(s, v) == Some(e)
    ensures PluginVersionAt(s, p) == Some(s[v..e])
  {
    LabelSpacing(s, p, a, v);
  }

  /** The two whitespace runs around "Version:" end where the label and the version start. */
  lemma LabelSpacing(s: string, p: nat, a: nat, v: nat)
    requires p < a && a + 8 <= v <= |s|
    requires forall k :: p + 1 <= k < a ==> IsSpace(s[k])
    requires StartsAt(s, a, "Version:")
    requires forall k :: a + 8 <= k < v ==> IsSpace(s[k])
    requires v < |s| ==> !IsSpace(s[v])
    ensures SpaceRunEnd(s, p + 1) == a && SpaceRunEnd(s, a + 8) == v
  {
    assert s[a] == s[a..a + 8][0];
    SpaceRunEndIs(s, p + 1, a);
    SpaceRunEndIs(s, a + 8, v);
  }

  /** preg_match of the header version pattern: the version at the leftmost line that reads one. */
  function PluginVersion(contents: string): (r: Option<string>)
    ensures r.Some? <==> exists k :: 0 <= k < |contents| && PluginVersionAt(contents, k).Some?
    ensures r.Some? ==>
      exists k :: 0 <= k < |contents| && PluginVersionAt(contents, k) == r &&
        forall j :: 0 <= j < k ==> PluginVersionAt(contents, j).None?
  {
    var at := (k: nat) => PluginVersionAt(contents, k);
    assert forall k: nat :: at(k) == PluginVersionAt(contents, k);
    FirstCapture(contents, at)
  }

  /**
   * `const (?:PLUGIN_)?VERSION = '([^']+)'` at index `p`: the value is
   * everything up to the next quote, and must not be empty.
   */
  function ConstantAt(s: string, p: nat): (r: Option<string>)
    ensures r.Some? ==> StartsAt(s, p, "const ")
    ensures r.Some? ==> |r.value| >= 1 && '\'' !in r.value
  {
    if !StartsAt(s, p, "const ") then None
    else
      var q := if StartsAt(s, p + 6, "PLUGIN_") then p + 13 else p + 6;
      if !StartsAt(s, q, "VERSION = '") then None
      else
        var v := q + 11;
        match FindChar(s, v, '\'')
        case None => None
        case Some(e) =>
          if e == v then None
          else
            assert forall k :: 0 <= k < e - v ==> s[v..e][k] == s[v + k];
            Some(s[v..e])
  }

  /** preg_match of the constant pattern: the value at the leftmost declaration that reads one. */
  function VersionConstant(contents: string): (r: Option<string>)
    ensures r.Some? <==> exists k :: 0 <= k < |contents| && ConstantAt(contents, k).Some?
    ensures r.Some? ==>
      exists k :: 0 <= k < |contents| && ConstantAt(contents, k) == r &&
        forall j :: 0 <= j < k ==> ConstantAt(contents, j).None?
  {
    var at := (k: nat) => ConstantAt(contents, k);
    assert forall k: nat :: at(k) == ConstantAt(contents, k);
    FirstCapture(contents, at)
  }

  /** A declaration with a quoted value is read as that value, with or without the `PLUGIN_` prefix. */
  lemma ConstantAtIs(s: string, p: nat, prefixed: bool, e: nat)
    requires var q := if prefixed then p + 13 else p + 6;
      && StartsAt(s, p, "const ")
      && (prefixed ==> StartsAt(s, p + 6, "PLUGIN_"))
      && StartsAt(s, q, "VERSION = '")
      && q + 11 < e < |s| && s[e] == '\''
      && forall k :: q + 11 <= k < e ==> s[k] != '\''
    ensures ConstantAt(s, p) == Some(s[(if prefixed then p + 24 else p + 17)..e])
  {
    var q := if prefixed then p + 13 else p + 6;
    if !prefixed {
      assert s[p + 6..p + 13] != "PLUGIN_" by {
        assert s[p + 6] == "VERSION = '"[0];
      }
    }
    FindCharIs(s, q + 11, '\'', e);
  }
}
