/**
 * Character classes and string helpers with the meaning PHP and PCRE give them
 * (byte-oriented PCRE without the UTF flag, PHP's default trim() set).
 */
module Text {
  import opened Wrappers

  predicate IsDigit(c: char) {
    '0' <= c <= '9'
  }

  /** PCRE `\w`: ASCII letters, digits and the underscore. */
  predicate IsWordChar(c: char) {
    'a' <= c <= 'z' || 'A' <= c <= 'Z' || IsDigit(c) || c == '_'
  }

  /** PCRE `\s`: space, tab, line feed, vertical tab, form feed, carriage return. */
  predicate IsSpace(c: char) {
    c == ' ' || c == '\t' || c == '\n' || c == '\U{B}' || c == '\U{C}' || c == '\r'
  }

  /** The characters PHP's trim() removes by default: " \t\n\r\0\x0B". */
  predicate IsTrimChar(c: char) {
    c == ' ' || c == '\t' || c == '\n' || c == '\r' || c == '\0' || c == '\U{B}'
  }

  /** ASCII case folding, as PCRE's `/i` does without the UTF flag. */
  function Lower(c: char): char {
    if 'A' <= c <= 'Z' then (c as int + 32) as char else c
  }

  predicate StartsWith(s: string, prefix: string) {
    |prefix| <= |s| && s[..|prefix|] == prefix
  }

  /** `p` occurs in `s` at index `i`. */
  predicate StartsAt(s: string, i: nat, p: string) {
    i + |p| <= |s| && s[i..i + |p|] == p
  }

  /** `p` occurs in `s` at index `i`, ignoring ASCII case. */
  predicate StartsAtIgnoreCase(s: string, i: nat, p: string) {
    i + |p| <= |s| && forall k :: 0 <= k < |p| ==> Lower(s[i + k]) == Lower(p[k])
  }

  /** `s` starts or continues a line at index `i` (PCRE `^` under `/m`). */
  predicate AtLineStart(s: string, i: nat) {
    i == 0 || (i <= |s| && s[i - 1] == '\n')
  }

  /** `s` ends a line at index `i` (PCRE `$` under `/m`). */
  predicate AtLineEnd(s: string, i: nat) {
    i == |s| || (i < |s| && s[i] == '\n')
  }

  /** Index of the end of the line that contains index `i`. */
  function LineEnd(s: string, i: nat): (e: nat)
    requires i <= |s|
    ensures i <= e <= |s| && AtLineEnd(s, e)
    ensures forall k :: i <= k < e ==> s[k] != '\n'
    decreases |s| - i
  {
    if i == |s| || s[i] == '\n' then i else LineEnd(s, i + 1)
  }

  /** End of the maximal run of `c` starting at index `i`. */
  function RunEnd(s: string, i: nat, c: char): (e: nat)
    requires i <= |s|
    ensures i <= e <= |s| && (e == |s| || s[e] != c)
    ensures forall k :: i <= k < e ==> s[k] == c
    decreases |s| - i
  {
    if i == |s| || s[i] != c then i else RunEnd(s, i + 1, c)
  }

  /** End of the maximal run of PCRE whitespace starting at index `i`. */
  function SpaceRunEnd(s: string, i: nat): (e: nat)
    requires i <= |s|
    ensures i <= e <= |s| && (e == |s| || !IsSpace(s[e]))
    ensures forall k :: i <= k < e ==> IsSpace(s[k])
    decreases |s| - i
  {
    if i == |s| || !IsSpace(s[i]) then i else SpaceRunEnd(s, i + 1)
  }

  /** End of the maximal run of digits starting at index `i`. */
  function DigitRunEnd(s: string, i: nat): (e: nat)
    requires i <= |s|
    ensures i <= e <= |s| && (e == |s| || !IsDigit(s[e]))
    ensures forall k :: i <= k < e ==> IsDigit(s[k])
    decreases |s| - i
  {
    if i == |s| || !IsDigit(s[i]) then i else DigitRunEnd(s, i + 1)
  }

  /** End of the maximal run of non-whitespace characters (PCRE `\S+`) starting at index `i`. */
  function TokenEnd(s: string, i: nat): (e: nat)
    requires i <= |s|
    ensures i <= e <= |s| && (e == |s| || IsSpace(s[e]))
    ensures forall k :: i <= k < e ==> !IsSpace(s[k])
    decreases |s| - i
  {
    if i == |s| || IsSpace(s[i]) then i else TokenEnd(s, i + 1)
  }

  lemma TokenEndIs(s: string, i: nat, e: nat)
    requires i <= e <= |s| && (e == |s| || IsSpace(s[e]))
    requires forall k :: i <= k < e ==> !IsSpace(s[k])
    ensures TokenEnd(s, i) == e
    decreases e - i
  {
    if i < e {
      TokenEndIs(s, i + 1, e);
    }
  }

  lemma DigitRunEndIs(s: string, i: nat, e: nat)
    requires i <= e <= |s| && (e == |s| || !IsDigit(s[e]))
    requires forall k :: i <= k < e ==> IsDigit(s[k])
    ensures DigitRunEnd(s, i) == e
    decreases e - i
  {
    if i < e {
      DigitRunEndIs(s, i + 1, e);
    }
  }

  /** End of the maximal run of word characters starting at index `i`. */
  function WordRunEnd(s: string, i: nat): (e: nat)
    requires i <= |s|
    ensures i <= e <= |s| && (e == |s| || !IsWordChar(s[e]))
    ensures forall k :: i <= k < e ==> IsWordChar(s[k])
    decreases |s| - i
  {
    if i == |s| || !IsWordChar(s[i]) then i else WordRunEnd(s, i + 1)
  }

  lemma WordRunEndIs(s: string, i: nat, e: nat)
    requires i <= e <= |s| && (e == |s| || !IsWordChar(s[e]))
    requires forall k :: i <= k < e ==> IsWordChar(s[k])
    ensures WordRunEnd(s, i) == e
    decreases e - i
  {
    if i < e {
      WordRunEndIs(s, i + 1, e);
    }
  }

  lemma SpaceRunEndIs(s: string, i: nat, e: nat)
    requires i <= e <= |s| && (e == |s| || !IsSpace(s[e]))
    requires forall k :: i <= k < e ==> IsSpace(s[k])
    ensures SpaceRunEnd(s, i) == e
    decreases e - i
  {
    if i < e {
      SpaceRunEndIs(s, i + 1, e);
    }
  }

  lemma RunEndIs(s: string, i: nat, e: nat, c: char)
    requires i <= e <= |s| && (e == |s| || s[e] != c)
    requires forall k :: i <= k < e ==> s[k] == c
    ensures RunEnd(s, i, c) == e
    decreases e - i
  {
    if i < e {
      RunEndIs(s, i + 1, e, c);
    }
  }

  lemma LineEndIs(s: string, i: nat, e: nat)
    requires i <= e <= |s| && AtLineEnd(s, e)
    requires forall k :: i <= k < e ==> s[k] != '\n'
    ensures LineEnd(s, i) == e
    decreases e - i
  {
    if i < e {
      LineEndIs(s, i + 1, e);
    }
  }

  /** A line end is not found inside a stretch of text without line breaks. */
  lemma LineEndOver(s: string, i: nat, part: string)
    requires i + |part| <= |s| && s[i..i + |part|] == part && '\n' !in part
    ensures LineEnd(s, i) == LineEnd(s, i + |part|)
    decreases |part|
  {
    if part != [] {
      assert s[i] == part[0];
      assert s[i + 1..i + |part|] == part[1..];
      LineEndOver(s, i + 1, part[1..]);
    }
  }

  /** An occurrence of `a + b` is an occurrence of `a` followed by one of `b`. */
  lemma StartsAtConcat(s: string, i: nat, a: string, b: string)
    requires StartsAt(s, i, a + b)
    ensures StartsAt(s, i, a) && StartsAt(s, i + |a|, b)
  {
    assert s[i..i + |a|] == s[i..i + |a| + |b|][..|a|] == (a + b)[..|a|] == a;
    assert s[i + |a|..i + |a| + |b|] == s[i..i + |a| + |b|][|a|..] == (a + b)[|a|..] == b;
  }

  /** The same, keeping the last two parts together. */
  lemma StartsAtConcatTail(s: string, i: nat, a: string, b: string, c: string)
    requires StartsAt(s, i, a + b + c)
    ensures StartsAt(s, i, a) && StartsAt(s, i + |a|, b + c)
  {
    assert a + b + c == a + (b + c);
    StartsAtConcat(s, i, a, b + c);
  }

  /** The tail of a concatenation is found at its end. */
  lemma SuffixOf(out: string, a: string, b: string)
    requires out == a + b
    ensures |b| <= |out| && out[|out| - |b|..] == b
  {
  }

  /** One character copied before a stretch copied from the next index on is the whole stretch copied. */
  lemma SliceStep(s: string, i: nat, j: nat, u: string, v: string, w: string)
    requires i < j <= |s|
    requires u == [s[i]] + v && v == s[i + 1..j] + w
    ensures u == s[i..j] + w
  {
    assert s[i..j] == [s[i]] + s[i + 1..j];
  }

  /** The first character of `a` copied before the rest of `a` copied is all of `a` copied. */
  lemma ConsStep(a: string, u: string, v: string, w: string)
    requires a != [] && u == [a[0]] + v && v == a[1..] + w
    ensures u == a + w
  {
    assert a == [a[0]] + a[1..];
  }

  /** A character missing from a text is missing from its tail too. */
  lemma TailAvoids(a: string, c: char)
    requires a != [] && c !in a
    ensures c !in a[1..]
  {
    assert forall k :: 0 <= k < |a[1..]| ==> a[1..][k] == a[k + 1];
  }

  /** The first index at or after `i` where `p` occurs in `s`. */
  function FindFrom(s: string, i: nat, p: string): (r: Option<nat>)
    ensures r.Some? ==> i <= r.value && StartsAt(s, r.value, p)
    ensures r.Some? ==> forall k :: i <= k < r.value ==> !StartsAt(s, k, p)
    ensures r.None? ==> forall k :: i <= k <= |s| ==> !StartsAt(s, k, p)
    decreases |s| - i
  {
    if i + |p| > |s| then None
    else if StartsAt(s, i, p) then Some(i)
    else FindFrom(s, i + 1, p)
  }

  lemma FindFromIs(s: string, i: nat, p: string, e: nat)
    requires i <= e && StartsAt(s, e, p)
    requires forall k :: i <= k < e ==> !StartsAt(s, k, p)
    ensures FindFrom(s, i, p) == Some(e)
    decreases e - i
  {
    if i < e {
      FindFromIs(s, i + 1, p, e);
    }
  }

  /** The first index at or after `i` holding `c`. */
  function FindChar(s: string, i: nat, c: char): (r: Option<nat>)
    ensures r.Some? ==> i <= r.value < |s| && s[r.value] == c
    ensures r.Some? ==> forall k :: i <= k < r.value ==> s[k] != c
    ensures r.None? ==> forall k :: i <= k < |s| ==> s[k] != c
    decreases |s| - i
  {
    if i >= |s| then None
    else if s[i] == c then Some(i)
    else FindChar(s, i + 1, c)
  }

  lemma FindCharIs(s: string, i: nat, c: char, e: nat)
    requires i <= e < |s| && s[e] == c
    requires forall k :: i <= k < e ==> s[k] != c
    ensures FindChar(s, i, c) == Some(e)
    decreases e - i
  {
    if i < e {
      FindCharIs(s, i + 1, c, e);
    }
  }

  /** The search for `c` passes over a stretch of text without it. */
  lemma FindCharOver(s: string, i: nat, part: string, c: char)
    requires i + |part| < |s| && s[i..i + |part|] == part && c !in part && s[i + |part|] == c
    ensures FindChar(s, i, c) == Some(i + |part|)
  {
    forall k | i <= k < i + |part|
      ensures s[k] != c
    {
      assert s[k] == part[k - i];
    }
    FindCharIs(s, i, c, i + |part|);
  }

  /** PHP ltrim() with the default character set. */
  function TrimStart(s: string): (r: string)
    ensures |r| <= |s| && r == s[|s| - |r|..]
    ensures r == [] || !IsTrimChar(r[0])
    ensures forall i :: 0 <= i < |s| - |r| ==> IsTrimChar(s[i])
  {
    if s != [] && IsTrimChar(s[0]) then TrimStart(s[1..]) else s
  }

  /** PHP rtrim() with the default character set. */
  function TrimEnd(s: string): (r: string)
    ensures |r| <= |s| && r == s[..|r|]
    ensures r == [] || !IsTrimChar(r[|r| - 1])
    ensures forall i :: |r| <= i < |s| ==> IsTrimChar(s[i])
  {
    if s != [] && IsTrimChar(s[|s| - 1]) then TrimEnd(s[..|s| - 1]) else s
  }

  /**
   * PHP trim(): the infix of `s` left after removing trim characters from
   * both ends; what is removed is trim characters, and neither end of the
   * result is one.
   */
  function Trim(s: string): (r: string)
    ensures var k := |s| - |TrimStart(s)|; k + |r| <= |s| && r == s[k..k + |r|]
    ensures r == [] || (!IsTrimChar(r[0]) && !IsTrimChar(r[|r| - 1]))
    ensures var k := |s| - |TrimStart(s)|;
      && (forall i :: 0 <= i < k ==> IsTrimChar(s[i]))
      && (forall i :: k + |r| <= i < |s| ==> IsTrimChar(s[i]))
  {
    var t := TrimStart(s);
    var r := TrimEnd(t);
    InfixOf(s, t, r);
    TailOf(s, t, r);
    r
  }

  /** What follows a prefix `r` of a suffix `t` of `s` is the tail of `t`. */
  lemma TailOf(s: string, t: string, r: string)
    requires |t| <= |s| && t == s[|s| - |t|..] && |r| <= |t|
    requires forall i :: |r| <= i < |t| ==> IsTrimChar(t[i])
    ensures forall i :: |s| - |t| + |r| <= i < |s| ==> IsTrimChar(s[i])
  {
    forall i | |s| - |t| + |r| <= i < |s|
      ensures IsTrimChar(s[i])
    {
      assert s[i] == t[i - (|s| - |t|)];
    }
  }

  /** A prefix of a suffix is an infix. */
  lemma InfixOf(s: string, t: string, r: string)
    requires |t| <= |s| && t == s[|s| - |t|..] && |r| <= |t| && r == t[..|r|]
    ensures var k := |s| - |t|; k + |r| <= |s| && r == s[k..k + |r|] && (r != [] ==> r[0] == t[0])
  {
  }

  /** Trimming adds no character: a line without `c` stays without it. */
  lemma TrimWithout(s: string, c: char)
    requires c !in s
    ensures c !in Trim(s)
  {
    var r := Trim(s);
    var k := |s| - |TrimStart(s)|;
    assert r == s[k..k + |r|];
    forall j | 0 <= j < |r|
      ensures r[j] != c
    {
      assert r[j] == s[k + j];
    }
  }

  /** Trimming leaves a string alone exactly when its ends are not trim characters. */
  lemma TrimKeeps(s: string)
    ensures Trim(s) == s <==> s == [] || (!IsTrimChar(s[0]) && !IsTrimChar(s[|s| - 1]))
  {
  }

  /** PHP explode() on a one-character delimiter. */
  function Split(s: string, d: char): (parts: seq<string>)
    ensures |parts| >= 1
    ensures forall i :: 0 <= i < |parts| ==> d !in parts[i]
  {
    if s == [] then [[]]
    else
      var rest := Split(s[1..], d);
      if s[0] == d then [[]] + rest else [[s[0]] + rest[0]] + rest[1..]
  }

  /** PHP implode() with a one-character glue. */
  function Join(parts: seq<string>, d: char): string {
    if parts == [] then []
    else if |parts| == 1 then parts[0]
    else parts[0] + [d] + Join(parts[1..], d)
  }

  /** Gluing one more part on at the end. */
  lemma {:induction false} JoinSnoc(parts: seq<string>, last: string, d: char)
    ensures Join(parts + [last], d) == if parts == [] then last else Join(parts, d) + [d] + last
  {
    if |parts| == 1 {
      assert (parts + [last])[1..] == [last];
    } else if |parts| > 1 {
      assert (parts + [last])[1..] == parts[1..] + [last];
      JoinSnoc(parts[1..], last, d);
    } else {
      assert parts + [last] == [last];
    }
  }

  lemma {:induction false} JoinSplit(s: string, d: char)
    ensures Join(Split(s, d), d) == s
  {
    if s != [] {
      JoinSplit(s[1..], d);
      var rest := Split(s[1..], d);
      if s[0] != d && |rest| > 1 {
        assert Join(rest, d) == rest[0] + [d] + Join(rest[1..], d);
      }
    }
  }

  lemma {:induction false} SplitWithoutDelimiter(a: string, d: char)
    requires d !in a
    ensures Split(a, d) == [a]
  {
    if a != [] {
      SplitWithoutDelimiter(a[1..], d);
      assert a[0] != d && [a[0]] + a[1..] == a;
    }
  }

  lemma {:induction false} SplitAtDelimiter(a: string, b: string, d: char)
    requires d !in a
    ensures Split(a + [d] + b, d) == [a] + Split(b, d)
  {
    if a == [] {
      assert (a + [d] + b)[1..] == b;
    } else {
      assert (a + [d] + b)[1..] == a[1..] + [d] + b;
      SplitAtDelimiter(a[1..], b, d);
      assert [a[0]] + a[1..] == a;
    }
  }

  lemma {:induction false} SplitJoin(parts: seq<string>, d: char)
    requires |parts| >= 1
    requires forall i :: 0 <= i < |parts| ==> d !in parts[i]
    ensures Split(Join(parts, d), d) == parts
  {
    if |parts| == 1 {
      SplitWithoutDelimiter(parts[0], d);
    } else {
      SplitJoin(parts[1..], d);
      SplitAtDelimiter(parts[0], Join(parts[1..], d), d);
    }
  }

  /** The lines, each followed by a line break. */
  function Unlines(lines: seq<string>): string {
    if lines == [] then [] else Unlines(lines[..|lines| - 1]) + lines[|lines| - 1] + "\n"
  }

  lemma UnlinesSnoc(lines: seq<string>, line: string)
    ensures Unlines(lines + [line]) == Unlines(lines) + line + "\n"
  {
    assert (lines + [line])[..|lines|] == lines;
  }

  lemma {:induction false} UnlinesJoin(lines: seq<string>)
    ensures Unlines(lines) == Join(lines + [""], '\n')
    decreases |lines|
  {
    if lines == [] {
      assert lines + [""] == [""];
    } else {
      var init := lines[..|lines| - 1];
      var last := lines[|lines| - 1];
      assert Unlines(lines) == Unlines(init) + last + "\n";
      UnlinesJoin(init);
      var rest := Join(lines, '\n');
      assert Join(lines + [""], '\n') == rest + "\n" by {
        JoinSnoc(lines, "", '\n');
      }
      if init == [] {
        assert rest == last by {
          JoinSnoc(init, last, '\n');
          assert init + [last] == lines;
        }
      } else {
        var j := Join(init, '\n');
        assert rest == j + "\n" + last by {
          JoinSnoc(init, last, '\n');
          assert init + [last] == lines;
        }
        assert Join(init + [""], '\n') == j + "\n" by {
          JoinSnoc(init, "", '\n');
        }
      }
    }
  }

  /** Cutting text made of lines at its line breaks gives the lines back, and an empty tail. */
  lemma SplitUnlines(lines: seq<string>)
    requires forall i :: 0 <= i < |lines| ==> '\n' !in lines[i]
    ensures Split(Unlines(lines), '\n') == lines + [""]
  {
    UnlinesJoin(lines);
    var parts := lines + [""];
    assert forall i :: 0 <= i < |parts| ==> '\n' !in parts[i] by {
      forall i | 0 <= i < |parts| ensures '\n' !in parts[i] {
        if i < |lines| {
          assert parts[i] == lines[i];
        }
      }
    }
    SplitJoin(parts, '\n');
  }

  /** `n` copies of `c`. */
  function Repeat(c: char, n: nat): (r: string)
    ensures |r| == n && forall i :: 0 <= i < n ==> r[i] == c
  {
    if n == 0 then [] else Repeat(c, n - 1) + [c]
  }

  function DigitChar(d: nat): (c: char)
    requires d < 10
    ensures IsDigit(c) && c as int - '0' as int == d
  {
    ('0' as int + d) as char
  }

  /** The number a string of decimal digits denotes. */
  function DecimalValue(s: string): nat
    requires forall i :: 0 <= i < |s| ==> IsDigit(s[i])
  {
    if s == [] then 0
    else
      var last := s[|s| - 1];
      assert IsDigit(last);
      DecimalValue(s[..|s| - 1]) * 10 + (last as int - '0' as int)
  }

  /** sprintf( '%d', n ) for a natural number: the digits of `n`, without leading zeros. */
  function NatToString(n: nat): (s: string)
    ensures |s| >= 1 && forall i :: 0 <= i < |s| ==> IsDigit(s[i])
    ensures DecimalValue(s) == n
    ensures s[0] == '0' ==> n == 0
  {
    if n < 10 then [DigitChar(n)]
    else
      var prefix := NatToString(n / 10);
      var s := prefix + [DigitChar(n % 10)];
      assert s[..|s| - 1] == prefix;
      s
  }

  /** Where the last path component of `path[..i]` starts: just after its last '/'. */
  function BaseStart(path: string, i: nat): (r: nat)
    requires i <= |path|
    ensures r <= i && (r == 0 || path[r - 1] == '/')
    ensures forall k :: r <= k < i ==> path[k] != '/'
  {
    if i == 0 || path[i - 1] == '/' then i else BaseStart(path, i - 1)
  }

  /** PHP basename() for a path without a trailing slash: the text after the last '/'. */
  function Basename(path: string): (b: string)
    ensures '/' !in b
    ensures |b| <= |path| && path[|path| - |b|..] == b
    ensures |b| < |path| ==> path[|path| - |b| - 1] == '/'
  {
    path[BaseStart(path, |path|)..]
  }

  /** The basename of a path that ends in `dir/name` is `name`. */
  lemma BasenameOf(dir: string, name: string)
    requires '/' !in name
    ensures Basename(dir + "/" + name) == name
  {
    var path := dir + "/" + name;
    assert path[|dir|] == '/';
    assert forall k :: |dir| + 1 <= k < |path| ==> path[k] == name[k - |dir| - 1];
    BaseStartIs(path, |path|, |dir| + 1);
    assert path[|dir| + 1..] == name;
  }

  lemma BaseStartIs(path: string, i: nat, r: nat)
    requires 0 < r <= i <= |path| && path[r - 1] == '/'
    requires forall k :: r <= k < i ==> path[k] != '/'
    ensures BaseStart(path, i) == r
    decreases i
  {
    if i > r {
      BaseStartIs(path, i - 1, r);
    }
  }
}
