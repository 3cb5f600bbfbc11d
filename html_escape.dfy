/**
 * PHP htmlspecialchars() with its default flags (ENT_QUOTES): the five
 * characters that are special in HTML become entities.
 */
module HtmlEscape {
  import opened Text

  /** True for the characters htmlspecialchars() replaces. */
  predicate IsSpecial(c: char) {
    c == '&' || c == '<' || c == '>' || c == '"' || c == '\''
  }

  function EscapeChar(c: char): (e: string)
    ensures |e| >= 1
    ensures IsSpecial(c) <==> e[0] == '&'
    ensures forall i :: 0 <= i < |e| ==> !(IsSpecial(e[i]) && e[i] != '&')
  {
    if c == '&' then "&amp;"
    else if c == '<' then "&lt;"
    else if c == '>' then "&gt;"
    else if c == '"' then "&quot;"
    else if c == '\'' then "&#039;"
    else [c]
  }

  /** htmlspecialchars( s ): no '<', '>', '"' or '\'' is left in the result. */
  function Escape(s: string): (r: string)
    ensures |r| >= |s|
    ensures forall i :: 0 <= i < |r| ==> r[i] != '<' && r[i] != '>' && r[i] != '"' && r[i] != '\''
  {
    if s == [] then []
    else
      var head := EscapeChar(s[0]);
      var tail := Escape(s[1..]);
      assert forall i :: 0 <= i < |head| + |tail| ==>
        (head + tail)[i] == if i < |head| then head[i] else tail[i - |head|];
      head + tail
  }

  /** The character an entity (or a plain character) at the start of `s` stands for, and its length. */
  function DecodeHead(s: string): (r: (char, nat))
    requires s != []
    ensures 1 <= r.1 <= |s|
  {
    if StartsWith(s, "&amp;") then ('&', 5)
    else if StartsWith(s, "&lt;") then ('<', 4)
    else if StartsWith(s, "&gt;") then ('>', 4)
    else if StartsWith(s, "&quot;") then ('"', 6)
    else if StartsWith(s, "&#039;") then ('\'', 6)
    else (s[0], 1)
  }

  /** htmlspecialchars_decode( s, ENT_QUOTES ): the reference inverse of Escape. */
  function Unescape(s: string): string
    decreases |s|
  {
    if s == [] then []
    else
      var (c, n) := DecodeHead(s);
      [c] + Unescape(s[n..])
  }

  /** The escaped form of a character decodes back to it. */
  lemma DecodeEscaped(c: char, t: string)
    ensures DecodeHead(EscapeChar(c) + t) == (c, |EscapeChar(c)|)
  {
    var e := EscapeChar(c) + t;
    if c == '&' {
      assert e[..5] == "&amp;";
    } else if c == '<' {
      assert e[1] == 'l' && e[..4] == "&lt;";
    } else if c == '>' {
      assert e[1] == 'g' && e[..4] == "&gt;";
    } else if c == '"' {
      assert e[1] == 'q' && e[..6] == "&quot;";
    } else if c == '\'' {
      assert e[1] == '#' && e[..6] == "&#039;";
    } else {
      assert e[0] == c;
    }
  }

  lemma UnescapeOne(c: char, t: string)
    ensures Unescape(EscapeChar(c) + t) == [c] + Unescape(t)
  {
    var e := EscapeChar(c) + t;
    DecodeEscaped(c, t);
    assert e[|EscapeChar(c)|..] == t;
  }

  /** Escaping loses nothing: decoding the entities gives the text back. */
  lemma {:induction false} UnescapeEscape(s: string)
    ensures Unescape(Escape(s)) == s
  {
    if s != [] {
      UnescapeEscape(s[1..]);
      UnescapeOne(s[0], Escape(s[1..]));
      assert [s[0]] + s[1..] == s;
    }
  }
}
