/**
 * The first pass of the readme transformer (tools/transform-readme.php,
 * lines 60-68): every fenced code block becomes a `<pre>` block whose
 * trimmed contents are HTML-escaped; the language tag is dropped.
 */
module CodeBlocks {
  import opened Wrappers
  import opened Text
  import opened HtmlEscape

  /**
   * A match of `(^|\n)```(\w+)?\n(.+?\n)```` (dot matching newlines) at the
   * start of a string: the line break before it (or nothing at the very
   * start of the document), the language tag and the body.
   */
  datatype Fence = Fence(prefix: string, lang: string, body: string) {
    function Length(): nat {
      |prefix| + 3 + |lang| + 1 + |body| + 3
    }
  }

  /** A closing fence starts at index `b`: a line break, then "```". */
  predicate ClosesAt(s: string, b: nat) {
    1 <= b && StartsAt(s, b, "```") && s[b - 1] == '\n'
  }

  /** The lazy `.+?\n```` step: the first closing fence at index `b` or later. */
  function CloseFrom(s: string, b: nat): (r: Option<nat>)
    requires 1 <= b
    ensures r.Some? ==> b <= r.value && ClosesAt(s, r.value)
    ensures r.Some? ==> forall k :: b <= k < r.value ==> !ClosesAt(s, k)
    ensures r.None? ==> forall k :: b <= k <= |s| ==> !ClosesAt(s, k)
    decreases |s| - b
  {
    if b + 3 > |s| then None
    else if ClosesAt(s, b) then Some(b)
    else CloseFrom(s, b + 1)
  }

  /**
   * The fenced block that the pattern matches at the start of `s`; `atStart`
   * tells whether this is the start of the whole document, where `^` matches.
   * The body is at least two characters long, ends with a line break and is
   * followed by the first closing fence after it.
   */
  function FenceAt(s: string, atStart: bool): (r: Option<Fence>)
    ensures r.Some? ==> r.value.Length() <= |s| && s[|r.value.prefix|] == '`'
  {
    var k := if s != [] && s[0] == '\n' then 1 else 0;
    if k == 0 && !atStart then None else FenceFrom(s, k)
  }

  /** The block whose opening "```" is at index `k`, after a prefix `s[..k]`. */
  function FenceFrom(s: string, k: nat): (r: Option<Fence>)
    requires k <= |s|
    ensures r.Some? ==> r.value.Length() <= |s| && r.value.prefix == s[..k] && s[k] == '`'
  {
    if !StartsAt(s, k, "```") then None
    else
      assert s[k] == s[k..k + 3][0] == '`';
      var e := WordRunEnd(s, k + 3);
      if e == |s| || s[e] != '\n' then None
      else match CloseFrom(s, e + 3)
        case None => None
        case Some(b) => Some(Fence(s[..k], s[k + 3..e], s[e + 1..b]))
  }

  /**
   * A match spells out its parts: the prefix, "```", a language tag of word
   * characters, a line break, a body of at least two characters ending with a
   * line break, and "```".
   */
  lemma FenceAtShape(s: string, atStart: bool)
    requires FenceAt(s, atStart).Some?
    ensures var f := FenceAt(s, atStart).value;
      && s[..f.Length()] == f.prefix + "```" + f.lang + "\n" + f.body + "```"
      && (f.prefix == "\n" || (f.prefix == [] && atStart))
      && (forall k :: 0 <= k < |f.lang| ==> IsWordChar(f.lang[k]))
      && |f.body| >= 2 && f.body[|f.body| - 1] == '\n'
  {
    var k := if s != [] && s[0] == '\n' then 1 else 0;
    assert FenceAt(s, atStart) == FenceFrom(s, k);
    FenceFromShape(s, k);
  }

  lemma FenceFromShape(s: string, k: nat)
    requires k <= |s| && FenceFrom(s, k).Some?
    ensures var f := FenceFrom(s, k).value;
      && s[..f.Length()] == f.prefix + "```" + f.lang + "\n" + f.body + "```"
      && (forall j :: 0 <= j < |f.lang| ==> IsWordChar(f.lang[j]))
      && |f.body| >= 2 && f.body[|f.body| - 1] == '\n'
  {
    var e := WordRunEnd(s, k + 3);
    var b := CloseFrom(s, e + 3).value;
    assert FenceFrom(s, k) == Some(Fence(s[..k], s[k + 3..e], s[e + 1..b]));
    FenceSpelled(s, k, e, b);
  }

  lemma FenceSpelled(s: string, k: nat, e: nat, b: nat)
    requires k + 3 <= e < b && b + 3 <= |s| && s[k..k + 3] == "```" && s[e] == '\n' && s[b..b + 3] == "```"
    ensures var f := Fence(s[..k], s[k + 3..e], s[e + 1..b]);
      f.Length() == b + 3 && s[..f.Length()] == f.prefix + "```" + f.lang + "\n" + f.body + "```"
  {
    SliceParts(s, k, e, b);
  }

  lemma SliceParts(s: string, k: nat, e: nat, b: nat)
    requires k + 3 <= e < b && b + 3 <= |s| && s[k..k + 3] == "```" && s[e] == '\n' && s[b..b + 3] == "```"
    ensures s[..b + 3] == s[..k] + "```" + s[k + 3..e] + "\n" + s[e + 1..b] + "```"
  {
    assert s[..b + 3] == s[..k] + s[k..k + 3] + s[k + 3..e] + s[e..e + 1] + s[e + 1..b] + s[b..b + 3];
  }

  /** The replacement text of one fenced block. */
  function PreBlock(f: Fence): string {
    f.prefix + "<pre>" + Escape(Trim(f.body)) + "</pre>"
  }

  /** Rewrites the blocks from the start of `s` on, as preg_replace_callback does. */
  function RewriteFrom(s: string, atStart: bool): string
    decreases |s|
  {
    if s == [] then []
    else match FenceAt(s, atStart)
      case Some(f) => PreBlock(f) + RewriteFrom(s[f.Length()..], false)
      case None => [s[0]] + RewriteFrom(s[1..], false)
  }

  /** The code-block pass over the whole document. */
  function RewriteCodeBlocks(readme: string): (r: string)
    ensures '`' !in readme ==> r == readme
  {
    if '`' !in readme then WithoutFenceUnchanged(readme, true); RewriteFrom(readme, true)
    else RewriteFrom(readme, true)
  }

  /** The body holds no earlier closing fence, so the lazy match ends right after it. */
  predicate EndsAtFirstClose(body: string) {
    forall k :: 2 <= k < |body| ==> !ClosesAt(body + "```", k)
  }

  lemma CloseFromFinds(s: string, b: nat, c: nat)
    requires 1 <= b <= c && ClosesAt(s, c)
    requires forall k :: b <= k < c ==> !ClosesAt(s, k)
    ensures CloseFrom(s, b) == Some(c)
    decreases c - b
  {
    if b < c {
      CloseFromFinds(s, b + 1, c);
    }
  }

  /** Whether a closing fence starts at an index depends only on the four characters there. */
  lemma ClosesAtShift(s: string, a: nat, t: string, i: nat)
    requires a + |t| <= |s| && s[a..a + |t|] == t
    requires a + 1 <= i && i + 3 <= a + |t|
    ensures ClosesAt(s, i) == ClosesAt(t, i - a)
  {
    assert s[i - 1] == t[i - a - 1];
    assert s[i] == t[i - a] && s[i + 1] == t[i - a + 1] && s[i + 2] == t[i - a + 2];
    assert s[i..i + 3] == [s[i], s[i + 1], s[i + 2]];
    assert t[i - a..i - a + 3] == [t[i - a], t[i - a + 1], t[i - a + 2]];
  }

  /** A closing fence inside a body placed at index `a` of `s` would be one inside the body. */
  lemma NoCloseInside(s: string, a: nat, body: string)
    requires a + |body| + 3 <= |s| && s[a..a + |body| + 3] == body + "```"
    requires EndsAtFirstClose(body)
    ensures forall i :: a + 2 <= i < a + |body| ==> !ClosesAt(s, i)
  {
    forall i | a + 2 <= i < a + |body|
      ensures !ClosesAt(s, i)
    {
      ClosesAtShift(s, a, body + "```", i);
    }
  }

  /** The lazy search from a body placed at index `a` stops at the fence right after it. */
  lemma BodyClosed(s: string, a: nat, body: string)
    requires 1 <= a && a + |body| + 3 <= |s| && s[a..a + |body| + 3] == body + "```"
    requires |body| >= 2 && body[|body| - 1] == '\n' && EndsAtFirstClose(body)
    ensures CloseFrom(s, a + 2) == Some(a + |body|)
  {
    var b := a + |body|;
    NoCloseInside(s, a, body);
    assert s[b - 1] == s[a..a + |body| + 3][|body| - 1] == body[|body| - 1];
    assert s[b..b + 3] == s[a..a + |body| + 3][|body|..] == (body + "```")[|body|..] == "```";
    assert ClosesAt(s, b);
    CloseFromFinds(s, a + 2, b);
  }

  /** The matcher at the start of `s`, given where the language tag and the body end. */
  lemma FenceAtIs(s: string, atStart: bool, k: nat, e: nat, b: nat)
    requires k == 1 || (k == 0 && atStart)
    requires k + 3 <= e < b && b + 3 <= |s|
    requires k == 1 ==> s[0] == '\n'
    requires s[k..k + 3] == "```" && s[e] == '\n'
    requires forall j :: k + 3 <= j < e ==> IsWordChar(s[j])
    requires b - e - 1 >= 2 && s[b - 1] == '\n' && s[e + 1..b + 3] == s[e + 1..b] + "```"
    requires EndsAtFirstClose(s[e + 1..b])
    ensures FenceAt(s, atStart) == Some(Fence(s[..k], s[k + 3..e], s[e + 1..b]))
  {
    assert s[k] == s[k..k + 3][0] == '`';
    WordRunEndIs(s, k + 3, e);
    assert CloseFrom(s, e + 3) == Some(b) by {
      var body := s[e + 1..b];
      assert body[|body| - 1] == s[b - 1];
      BodyClosed(s, e + 1, body);
    }
    FenceAtFrom(s, atStart, k, e, b);
  }

  lemma FenceAtFrom(s: string, atStart: bool, k: nat, e: nat, b: nat)
    requires k == 1 || (k == 0 && atStart)
    requires k + 3 <= e < b && b + 3 <= |s| && s[k] == '`'
    requires k == 1 ==> s[0] == '\n'
    requires StartsAt(s, k, "```") && WordRunEnd(s, k + 3) == e && s[e] == '\n'
    requires CloseFrom(s, e + 3) == Some(b)
    ensures FenceAt(s, atStart) == Some(Fence(s[..k], s[k + 3..e], s[e + 1..b]))
  {
    assert FenceAt(s, atStart) == FenceFrom(s, k);
    FenceFromIs(s, k, e, b);
  }

  lemma FenceFromIs(s: string, k: nat, e: nat, b: nat)
    requires k + 3 <= e < b && b + 3 <= |s|
    requires StartsAt(s, k, "```") && WordRunEnd(s, k + 3) == e && s[e] == '\n'
    requires CloseFrom(s, e + 3) == Some(b)
    ensures FenceFrom(s, k) == Some(Fence(s[..k], s[k + 3..e], s[e + 1..b]))
  {
  }

  /** The matcher finds exactly the block the document spells out. */
  lemma FenceFound(prefix: string, lang: string, body: string, rest: string, atStart: bool)
    requires prefix == "\n" || (prefix == [] && atStart)
    requires forall k :: 0 <= k < |lang| ==> IsWordChar(lang[k])
    requires |body| >= 2 && body[|body| - 1] == '\n' && EndsAtFirstClose(body)
    ensures FenceAt(prefix + "```" + lang + "\n" + body + "```" + rest, atStart) == Some(Fence(prefix, lang, body))
  {
    var s := prefix + "```" + lang + "\n" + body + "```" + rest;
    var k := |prefix|;
    var e := k + 3 + |lang|;
    var b := e + 1 + |body|;
    assert s[..k] == prefix;
    assert s[k..k + 3] == "```";
    assert s[k + 3..e] == lang;
    assert s[e + 1..b] == body;
    assert s[e + 1..b + 3] == body + "```";
    FenceAtIs(s, atStart, k, e, b);
  }

  /**
   * A fenced block at the start of the document or after a line break is
   * replaced by that same prefix, `<pre>`, the escaped trimmed body and
   * `</pre>`; scanning resumes right after the closing fence.
   */
  lemma FenceRewritten(prefix: string, lang: string, body: string, rest: string, atStart: bool)
    requires prefix == "\n" || (prefix == [] && atStart)
    requires forall k :: 0 <= k < |lang| ==> IsWordChar(lang[k])
    requires |body| >= 2 && body[|body| - 1] == '\n' && EndsAtFirstClose(body)
    ensures RewriteFrom(prefix + "```" + lang + "\n" + body + "```" + rest, atStart)
         == prefix + "<pre>" + Escape(Trim(body)) + "</pre>" + RewriteFrom(rest, false)
  {
    var s := prefix + "```" + lang + "\n" + body + "```" + rest;
    FenceFound(prefix, lang, body, rest, atStart);
    var f := Fence(prefix, lang, body);
    assert s[f.Length()..] == rest;
  }

  /** The language tag does not reach the output: any two tags give the same text. */
  lemma LanguageTagDropped(prefix: string, lang1: string, lang2: string, body: string, rest: string, atStart: bool)
    requires prefix == "\n" || (prefix == [] && atStart)
    requires forall k :: 0 <= k < |lang1| ==> IsWordChar(lang1[k])
    requires forall k :: 0 <= k < |lang2| ==> IsWordChar(lang2[k])
    requires |body| >= 2 && body[|body| - 1] == '\n' && EndsAtFirstClose(body)
    ensures RewriteFrom(prefix + "```" + lang1 + "\n" + body + "```" + rest, atStart)
         == RewriteFrom(prefix + "```" + lang2 + "\n" + body + "```" + rest, atStart)
  {
    FenceRewritten(prefix, lang1, body, rest, atStart);
    FenceRewritten(prefix, lang2, body, rest, atStart);
  }

  /** A document without a backquote has no fenced block and passes through unchanged. */
  lemma {:induction false} WithoutFenceUnchanged(s: string, atStart: bool)
    requires '`' !in s
    ensures RewriteFrom(s, atStart) == s
  {
    if s != [] {
      assert FenceAt(s, atStart).None?;
      WithoutFenceUnchanged(s[1..], false);
      assert [s[0]] + s[1..] == s;
    }
  }

  /**
   * Text without a backquote before the rest is copied as it is, when the
   * rest does not start with a backquote; the rest is then scanned as if
   * the document started there only when nothing came before it.
   */
  lemma {:induction false} CodeCopied(a: string, t: string, atStart: bool)
    requires '`' !in a && (t == [] || t[0] != '`')
    ensures RewriteFrom(a + t, atStart) == a + RewriteFrom(t, atStart && a == [])
    decreases |a|
  {
    if a != [] {
      FirstCopied(a, t, atStart);
      TailAvoids(a, '`');
      CodeCopied(a[1..], t, false);
      ConsStep(a, RewriteFrom(a + t, atStart), RewriteFrom(a[1..] + t, false), RewriteFrom(t, false));
    } else {
      assert a + t == t;
    }
  }

  /** The first character of text without a backquote, before a rest not starting with one, is copied. */
  lemma FirstCopied(a: string, t: string, atStart: bool)
    requires a != [] && '`' !in a && (t == [] || t[0] != '`')
    ensures RewriteFrom(a + t, atStart) == [a[0]] + RewriteFrom(a[1..] + t, false)
  {
    var s := a + t;
    assert s[0] == a[0] && s[1..] == a[1..] + t;
    if |s| > 1 {
      if |a| > 1 { assert s[1] == a[1]; } else { assert s[1] == t[0]; }
    }
    NoFenceAtStart(s, atStart);
  }

  /** Where neither of the first two characters is a backquote, the first character is copied. */
  lemma NoFenceAtStart(s: string, atStart: bool)
    requires s != [] && s[0] != '`' && (|s| > 1 ==> s[1] != '`')
    ensures RewriteFrom(s, atStart) == [s[0]] + RewriteFrom(s[1..], false)
  {
    assert FenceAt(s, atStart).None? by {
      assert !StartsAt(s, 0, "```");
      assert !StartsAt(s, 1, "```");
    }
  }

  /**
   * A fenced block anywhere in a document, after text without a backquote:
   * the text before it is copied and the block becomes its `<pre>` block.
   */
  lemma BlockInDocument(pre: string, lang: string, body: string, rest: string)
    requires '`' !in pre
    requires forall k :: 0 <= k < |lang| ==> IsWordChar(lang[k])
    requires |body| >= 2 && body[|body| - 1] == '\n' && EndsAtFirstClose(body)
    ensures RewriteCodeBlocks(pre + ("\n" + "```" + lang + "\n" + body + "```" + rest))
         == pre + ("\n" + "<pre>" + Escape(Trim(body)) + "</pre>" + RewriteFrom(rest, false))
  {
    var t := "\n" + "```" + lang + "\n" + body + "```" + rest;
    assert t[0] == '\n';
    CodeCopied(pre, t, true);
    FenceRewritten("\n", lang, body, rest, pre == []);
  }
}
