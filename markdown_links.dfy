/**
 * The Markdown link pattern `\[(.+?)]\(.+?\)` that both tools use: a link
 * text and a URL, neither crossing a line break.
 */
module MarkdownLinks {
  import opened Wrappers
  import opened Text

  /** A link `[text](url)` found at the start of a string. */
  datatype Link = Link(text: string, url: string) {
    function Length(): nat {
      |text| + |url| + 4
    }
  }

  /** A line break lies in `s[lo..hi]`. */
  predicate BreakIn(s: string, lo: nat, hi: nat) {
    exists j :: lo <= j < hi && j < |s| && s[j] == '\n'
  }

  /**
   * The lazy `(.+?)]\(` step: the first "](" at index `i` or later, provided
   * the link text `s[1..]` up to it holds no line break; none when every
   * "](" from `i` on comes after a line break.
   */
  function TextEnd(s: string, i: nat): (r: Option<nat>)
    requires 2 <= i
    ensures r.Some? ==> i <= r.value && r.value + 2 <= |s| && s[r.value] == ']' && s[r.value + 1] == '('
    ensures r.Some? ==> forall k :: i - 1 <= k < r.value ==> s[k] != '\n'
    ensures r.Some? ==> forall k :: i <= k < r.value ==> !(s[k] == ']' && s[k + 1] == '(')
    ensures r.None? ==> forall k :: i <= k && k + 1 < |s| && s[k] == ']' && s[k + 1] == '(' ==>
              BreakIn(s, i - 1, k)
    decreases |s| - i
  {
    if i + 1 >= |s| || s[i - 1] == '\n' then None
    else if s[i] == ']' && s[i + 1] == '(' then Some(i)
    else TextEnd(s, i + 1)
  }

  /** The lazy `.+?\)` step: the first ')' at index `j` or later, with no line break before it. */
  function UrlEnd(s: string, j: nat): (r: Option<nat>)
    requires 1 <= j
    ensures r.Some? ==> j <= r.value < |s| && s[r.value] == ')'
    ensures r.Some? ==> forall k :: j - 1 <= k < r.value ==> s[k] != '\n'
    decreases |s| - j
  {
    if j >= |s| || s[j - 1] == '\n' then None
    else if s[j] == ')' then Some(j)
    else UrlEnd(s, j + 1)
  }

  /**
   * The link that `\[(.+?)]\(.+?\)` matches at the start of `s`, if any.
   * Once the first "](" is found, a later one on the same line cannot
   * succeed where it failed, so the lazy search need not go further.
   */
  function LinkAt(s: string): (r: Option<Link>)
    ensures r.Some? ==> r.value.Length() <= |s|
    ensures r.Some? ==> s[..r.value.Length()] == "[" + r.value.text + "](" + r.value.url + ")"
    ensures r.Some? ==> |r.value.text| >= 1 && |r.value.url| >= 1
    ensures r.Some? ==> '\n' !in r.value.text && '\n' !in r.value.url
    ensures s == [] || s[0] != '[' ==> r.None?
  {
    if s == [] || s[0] != '[' then None
    else match TextEnd(s, 2)
      case None => None
      case Some(i) =>
        match UrlEnd(s, i + 3)
        case None => None
        case Some(j) =>
          var link := Link(s[1..i], s[i + 2..j]);
          assert forall k :: 0 <= k < |link.url| ==> link.url[k] == s[i + 2 + k];
          assert s[..link.Length()] == "[" + link.text + "](" + link.url + ")";
          Some(link)
  }

  /**
   * preg_replace( '/\[(.+?)]\(.+?\)/', '$1', s ) when `toUrl` is false (each
   * link becomes its text) and the same pattern with the URL kept when
   * `toUrl` is true (each link becomes its URL).
   */
  function ReplaceLinks(s: string, toUrl: bool): string
    decreases |s|
  {
    if s == [] then []
    else match LinkAt(s)
      case Some(link) => (if toUrl then link.url else link.text) + ReplaceLinks(s[link.Length()..], toUrl)
      case None => [s[0]] + ReplaceLinks(s[1..], toUrl)
  }

  /** `\[.+?]\(.+?\)` matches somewhere in `s`. */
  predicate HasLink(s: string)
    decreases |s|
  {
    s != [] && (LinkAt(s).Some? || HasLink(s[1..]))
  }

  /** Text without '[' holds no link and is left as it is. */
  lemma {:induction false} ReplaceLinksWithoutBracket(s: string, toUrl: bool)
    requires '[' !in s
    ensures ReplaceLinks(s, toUrl) == s
    ensures !HasLink(s)
  {
    if s != [] {
      ReplaceLinksWithoutBracket(s[1..], toUrl);
      assert [s[0]] + s[1..] == s;
    }
  }

  /** Text before the first '[' is copied through unchanged. */
  lemma {:induction false} ReplaceLinksPrefix(a: string, b: string, toUrl: bool)
    requires '[' !in a
    ensures ReplaceLinks(a + b, toUrl) == a + ReplaceLinks(b, toUrl)
  {
    if a != [] {
      var s := a + b;
      assert s[0] == a[0] && s[1..] == a[1..] + b;
      ReplaceLinksPrefix(a[1..], b, toUrl);
      PlainCharCopied(s, toUrl);
      assert [a[0]] + a[1..] == a;
    } else {
      assert a + b == b;
    }
  }

  lemma PlainCharCopied(s: string, toUrl: bool)
    requires s != [] && s[0] != '['
    ensures ReplaceLinks(s, toUrl) == [s[0]] + ReplaceLinks(s[1..], toUrl)
  {
    assert LinkAt(s).None?;
  }

  lemma TextEndFinds(s: string, i: nat, e: nat)
    requires 2 <= i <= e && e + 2 <= |s| && s[e] == ']' && s[e + 1] == '('
    requires forall k :: i - 1 <= k < e ==> s[k] != '\n' && s[k] != ']'
    ensures TextEnd(s, i) == Some(e)
    decreases e - i
  {
    if i < e {
      TextEndFinds(s, i + 1, e);
    }
  }

  lemma UrlEndFinds(s: string, j: nat, e: nat)
    requires 1 <= j <= e < |s| && s[e] == ')'
    requires forall k :: j - 1 <= k < e ==> s[k] != '\n'
    requires forall k :: j <= k < e ==> s[k] != ')'
    ensures UrlEnd(s, j) == Some(e)
    decreases e - j
  {
    if j < e {
      UrlEndFinds(s, j + 1, e);
    }
  }

  /**
   * A plain link `[text](url)` (text without ']', URL without ')', neither
   * empty nor crossing a line) is replaced by its text, or by its URL.
   */
  lemma PlainLinkReplaced(text: string, url: string, rest: string, toUrl: bool)
    requires |text| >= 1 && ']' !in text && '\n' !in text
    requires |url| >= 1 && ')' !in url && '\n' !in url
    ensures ReplaceLinks("[" + text + "](" + url + ")" + rest, toUrl)
         == (if toUrl then url else text) + ReplaceLinks(rest, toUrl)
  {
    var s := "[" + text + "](" + url + ")" + rest;
    var i := |text| + 1;
    var j := i + 2 + |url|;
    assert s[i] == ']' && s[i + 1] == '(' && s[j] == ')';
    assert forall k :: 1 <= k < i ==> s[k] == text[k - 1];
    assert forall k :: i + 2 <= k < j ==> s[k] == url[k - i - 2];
    TextEndFinds(s, 2, i);
    UrlEndFinds(s, i + 3, j);
    assert s[1..i] == text;
    assert s[i + 2..j] == url;
    assert s[j + 1..] == rest;
  }
}
