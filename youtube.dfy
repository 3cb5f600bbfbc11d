/**
 * The YouTube pass (tools/transform-readme.php, lines 139-143): an image
 * that links to a YouTube video, `[![alt](image)](https://youtu.be/…)`, is
 * replaced by the bare video URL.
 */
module YouTube {
  import opened Wrappers
  import opened Text
  import opened MarkdownLinks

  /** Index just past the host and its '/', for the three accepted hosts. */
  function HostEnd(s: string, h: nat): (r: Option<nat>)
    ensures r.Some? ==> h < r.value <= |s| && s[r.value - 1] == '/'
  {
    if StartsAt(s, h, "www.youtube.com/") then Some(h + 16)
    else if StartsAt(s, h, "youtube.com/") then Some(h + 12)
    else if StartsAt(s, h, "youtu.be/") then Some(h + 9)
    else None
  }

  /** What HostEnd steps over is an accepted host and its '/'. */
  lemma HostEndShape(s: string, h: nat)
    requires HostEnd(s, h).Some?
    ensures IsVideoHost(s[h..HostEnd(s, h).value - 1])
  {
    if StartsAt(s, h, "www.youtube.com/") {
      assert s[h..h + 15] == s[h..h + 16][..15];
    } else if StartsAt(s, h, "youtube.com/") {
      assert s[h..h + 11] == s[h..h + 12][..11];
    } else {
      assert s[h..h + 8] == s[h..h + 9][..8];
    }
  }

  /**
   * The `(https://(?:(?:www\.)?youtube\.com|youtu\.be)/.+?)\)` tail from
   * index `u`: the index of the ')' that closes the URL.
   */
  function UrlClose(s: string, u: nat): (r: Option<nat>)
    ensures r.Some? ==> u + 8 < r.value < |s| && s[r.value] == ')'
  {
    if !StartsAt(s, u, "https://") then None
    else match HostEnd(s, u + 8)
      case None => None
      case Some(h) => UrlEnd(s, h + 1)
  }

  /** ")](" at index `b`. */
  predicate ImageCloseAt(s: string, b: nat) {
    b + 3 <= |s| && s[b] == ')' && s[b + 1] == ']' && s[b + 2] == '('
  }

  /** "](" at index `a`. */
  predicate AltCloseAt(s: string, a: nat) {
    a + 2 <= |s| && s[a] == ']' && s[a + 1] == '('
  }

  /**
   * Where a match ends its parts: the "](" after the alternative text, the
   * ")](" after the image URL, and the ')' after the video URL.
   */
  datatype VideoMatch = VideoMatch(altEnd: nat, imageEnd: nat, close: nat)

  /** The parts of a match sit where a match needs them. */
  predicate Fits(s: string, m: VideoMatch) {
    AltCloseAt(s, m.altEnd) && m.altEnd + 3 <= m.imageEnd && ImageCloseAt(s, m.imageEnd)
    && UrlClose(s, m.imageEnd + 3) == Some(m.close)
  }

  /**
   * The lazy image URL `\(.+?\)]\(` of a match whose "](" after the
   * alternative text is at `a`: the first candidate end from index `b` on
   * where ")](" and a YouTube URL follow.
   */
  function ImageSearch(s: string, a: nat, b: nat): (r: Option<VideoMatch>)
    requires a + 3 <= b && AltCloseAt(s, a)
    ensures r.Some? ==> r.value.altEnd == a && b <= r.value.imageEnd && r.value.imageEnd + 3 < r.value.close < |s|
    decreases |s| - b
  {
    if b >= |s| || s[b - 1] == '\n' then None
    else if ImageCloseAt(s, b) && UrlClose(s, b + 3).Some? then Some(VideoMatch(a, b, UrlClose(s, b + 3).value))
    else ImageSearch(s, a, b + 1)
  }

  /**
   * The lazy alternative text `\[!\[.+?]\(` of a match at `p`, tried from
   * index `a` on; each candidate is tried with every image end before the
   * next one.
   */
  function AltSearch(s: string, p: nat, a: nat): (r: Option<VideoMatch>)
    requires p + 4 <= a
    ensures r.Some? ==> a <= r.value.altEnd && r.value.altEnd + 3 <= r.value.imageEnd && r.value.imageEnd + 3 < r.value.close < |s|
    decreases |s| - a
  {
    if a >= |s| || s[a - 1] == '\n' then None
    else
      var m := if AltCloseAt(s, a) then ImageSearch(s, a, a + 3) else None;
      if m.Some? then m else AltSearch(s, p, a + 1)
  }

  /** The match of the whole pattern at index `p`. */
  function VideoAt(s: string, p: nat): (r: Option<VideoMatch>)
    ensures r.Some? ==> p + 4 <= r.value.altEnd && r.value.altEnd + 3 <= r.value.imageEnd
    ensures r.Some? ==> r.value.imageEnd + 3 <= r.value.close < |s|
  {
    if !StartsAt(s, p, "[![") then None else AltSearch(s, p, p + 4)
  }

  /** A match found by the lazy image URL search has its parts where a match needs them. */
  lemma {:induction false} ImageSearchFits(s: string, a: nat, b: nat)
    requires a + 3 <= b && AltCloseAt(s, a) && ImageSearch(s, a, b).Some?
    ensures Fits(s, ImageSearch(s, a, b).value)
    decreases |s| - b
  {
    if !(ImageCloseAt(s, b) && UrlClose(s, b + 3).Some?) {
      ImageSearchFits(s, a, b + 1);
    }
  }

  /** So has a match found by the lazy alternative text search. */
  lemma {:induction false} AltSearchFits(s: string, p: nat, a: nat)
    requires p + 4 <= a && AltSearch(s, p, a).Some?
    ensures Fits(s, AltSearch(s, p, a).value)
    decreases |s| - a
  {
    if AltCloseAt(s, a) && ImageSearch(s, a, a + 3).Some? {
      ImageSearchFits(s, a, a + 3);
    } else {
      AltSearchFits(s, p, a + 1);
    }
  }

  /**
   * `s[u..c]` is a video URL as the pattern captures it: "https://", an
   * accepted host, '/', and a non-empty path, all on one line.
   */
  predicate VideoUrl(s: string, u: nat, c: nat) {
    && HostEnd(s, u + 8).Some?
    && var h := HostEnd(s, u + 8).value;
    && u + 8 < h < c <= |s|
    && s[u..c] == "https://" + s[u + 8..h - 1] + "/" + s[h..c]
    && IsVideoHost(s[u + 8..h - 1])
    && '\n' !in s[u..c]
  }

  /** The URL that a closing ')' found by UrlClose ends is a video URL. */
  lemma UrlCloseShape(s: string, u: nat)
    requires UrlClose(s, u).Some?
    ensures VideoUrl(s, u, UrlClose(s, u).value)
  {
    var c := UrlClose(s, u).value;
    var h := HostEnd(s, u + 8).value;
    assert UrlEnd(s, h + 1) == Some(c);
    HostEndShape(s, u + 8);
    assert s[u..u + 8] == "https://";
    assert s[u..c] == s[u..u + 8] + s[u + 8..h - 1] + [s[h - 1]] + s[h..c];
    assert '\n' !in s[u + 8..h - 1] by {
      var host := s[u + 8..h - 1];
      assert host == "www.youtube.com" || host == "youtube.com" || host == "youtu.be";
    }
    assert '\n' !in s[h..c] by {
      forall k | 0 <= k < c - h
        ensures s[h..c][k] != '\n'
      {
        assert s[h..c][k] == s[h + k];
      }
    }
  }

  /**
   * A match of the whole pattern at `p` starts with "[![", has its parts
   * where the pattern needs them, and the URL it captures is a video URL.
   */
  lemma VideoAtFits(s: string, p: nat)
    requires VideoAt(s, p).Some?
    ensures StartsAt(s, p, "[![") && Fits(s, VideoAt(s, p).value)
    ensures VideoUrl(s, VideoAt(s, p).value.imageEnd + 3, VideoAt(s, p).value.close)
  {
    AltSearchFits(s, p, p + 4);
    UrlCloseShape(s, VideoAt(s, p).value.imageEnd + 3);
  }

  /**
   * One step of preg_replace at index `i`: the text it emits and the index
   * it goes on from. A match emits its video URL (`$1`) and skips past its
   * closing ')'; otherwise one character is copied.
   */
  function ReplaceStep(s: string, i: nat): (r: (string, nat))
    requires i < |s|
    ensures i < r.1 <= |s|
  {
    var v := VideoAt(s, i);
    if v.Some? then (s[v.value.imageEnd + 3..v.value.close], v.value.close + 1)
    else ([s[i]], i + 1)
  }

  /** preg_replace from index `i` on: each video link becomes its URL. */
  function UnwrapFrom(s: string, i: nat): string
    decreases |s| - i
  {
    if i >= |s| then []
    else
      var (emitted, next) := ReplaceStep(s, i);
      emitted + UnwrapFrom(s, next)
  }

  function UnwrapVideos(s: string): (r: string)
    ensures '[' !in s ==> r == s
  {
    if '[' !in s then
      WithoutBracketUnchanged(s, 0);
      assert s[0..] == s;
      UnwrapFrom(s, 0)
    else UnwrapFrom(s, 0)
  }

  /** The three hosts the pattern accepts. */
  predicate IsVideoHost(host: string) {
    host == "www.youtube.com" || host == "youtube.com" || host == "youtu.be"
  }

  lemma HostEndIs(s: string, h: nat, host: string)
    requires IsVideoHost(host) && StartsAt(s, h, host + "/")
    ensures HostEnd(s, h) == Some(h + |host| + 1)
  {
    if host == "www.youtube.com" {
      assert host + "/" == "www.youtube.com/";
    } else if host == "youtube.com" {
      assert host + "/" == "youtube.com/";
      LongHostEnd(s, h);
    } else {
      assert host + "/" == "youtu.be/";
      ShortHostEnd(s, h);
    }
  }

  lemma LongHostEnd(s: string, h: nat)
    requires StartsAt(s, h, "youtube.com/")
    ensures HostEnd(s, h) == Some(h + 12)
  {
    assert s[h] == s[h..h + 12][0] == 'y';
    if h + 16 <= |s| {
      assert s[h..h + 16][0] == 'y';
    }
  }

  lemma ShortHostEnd(s: string, h: nat)
    requires StartsAt(s, h, "youtu.be/")
    ensures HostEnd(s, h) == Some(h + 9)
  {
    assert s[h] == s[h..h + 9][0] == 'y';
    assert s[h + 5] == s[h..h + 9][5] == '.';
    if h + 16 <= |s| {
      assert s[h..h + 16][0] == 'y';
    }
    if h + 12 <= |s| {
      assert s[h..h + 12][5] == '.';
    }
  }

  /** A video URL whose path holds no ')' closes at the first ')' after it. */
  lemma UrlCloseIs(s: string, u: nat, host: string, path: string)
    requires IsVideoHost(host) && |path| >= 1 && ')' !in path && '\n' !in path
    requires StartsAt(s, u, "https://") && StartsAt(s, u + 8, host + "/")
    requires StartsAt(s, u + 9 + |host|, path + ")")
    ensures UrlClose(s, u) == Some(u + 9 + |host| + |path|)
  {
    var h := u + 9 + |host|;
    var c := h + |path|;
    PathEnd(s, h, path);
    HostEndIs(s, u + 8, host);
  }

  /** The path after the host runs to its ')' without crossing a line. */
  lemma PathEnd(s: string, h: nat, path: string)
    requires |path| >= 1 && ')' !in path && '\n' !in path
    requires StartsAt(s, h, path + ")")
    ensures UrlEnd(s, h + 1) == Some(h + |path|)
  {
    var c := h + |path|;
    StartsAtConcat(s, h, path, ")");
    forall k | h <= k < c
      ensures s[k] != ')' && s[k] != '\n'
    {
      assert s[k] == s[h..c][k - h] == path[k - h];
    }
    UrlEndFinds(s, h + 1, c);
  }

  /** No `c` in `s[lo..hi]`. */
  predicate Avoids(s: string, lo: nat, hi: nat, c: char)
    requires lo <= hi <= |s|
  {
    forall k :: lo <= k < hi ==> s[k] != c
  }

  lemma ImageSearchSkip(s: string, a: nat, b: nat)
    requires a + 3 <= b < |s| && AltCloseAt(s, a) && s[b - 1] != '\n' && s[b] != ')'
    ensures ImageSearch(s, a, b) == ImageSearch(s, a, b + 1)
  {
  }

  lemma ImageSearchHit(s: string, a: nat, b: nat, c: nat)
    requires a + 3 <= b < |s| && AltCloseAt(s, a) && s[b - 1] != '\n'
    requires ImageCloseAt(s, b) && UrlClose(s, b + 3) == Some(c)
    ensures ImageSearch(s, a, b) == Some(VideoMatch(a, b, c))
  {
  }

  lemma ImageSearchIs(s: string, a: nat, b: nat, e: nat, c: nat)
    requires a + 3 <= b <= e && AltCloseAt(s, a)
    requires ImageCloseAt(s, e) && UrlClose(s, e + 3) == Some(c)
    requires Avoids(s, b - 1, e, '\n') && Avoids(s, b, e, ')')
    ensures ImageSearch(s, a, b) == Some(VideoMatch(a, e, c))
    decreases e - b
  {
    assert s[b - 1] != '\n';
    if b < e {
      assert s[b] != ')';
      ImageSearchSkip(s, a, b);
      ImageSearchIs(s, a, b + 1, e, c);
    } else {
      ImageSearchHit(s, a, b, c);
    }
  }

  lemma AltSearchSkip(s: string, p: nat, a: nat)
    requires p + 4 <= a < |s| && s[a - 1] != '\n' && s[a] != ']'
    ensures AltSearch(s, p, a) == AltSearch(s, p, a + 1)
  {
  }

  lemma AltSearchHit(s: string, p: nat, a: nat)
    requires p + 4 <= a < |s| && s[a - 1] != '\n' && AltCloseAt(s, a) && ImageSearch(s, a, a + 3).Some?
    ensures AltSearch(s, p, a) == ImageSearch(s, a, a + 3)
  {
  }

  lemma AltSearchIs(s: string, p: nat, a: nat, x: nat, m: VideoMatch)
    requires p + 4 <= a <= x
    requires AltCloseAt(s, x) && ImageSearch(s, x, x + 3) == Some(m)
    requires Avoids(s, a - 1, x, '\n') && Avoids(s, a, x, ']')
    ensures AltSearch(s, p, a) == Some(m)
    decreases x - a
  {
    assert s[a - 1] != '\n';
    if a < x {
      assert s[a] != ']';
      AltSearchSkip(s, p, a);
      AltSearchIs(s, p, a + 1, x, m);
    } else {
      AltSearchHit(s, p, a);
    }
  }

  lemma VideoAtUnfold(s: string, i: nat)
    requires StartsAt(s, i, "[![")
    ensures VideoAt(s, i) == AltSearch(s, i, i + 4)
  {
  }

  /** Where the parts of a linked video sit when it starts at `i`. */
  lemma VideoParts(s: string, i: nat, alt: string, image: string, url: string)
    requires StartsAt(s, i, "[![" + alt + "](" + image + ")](" + url + ")")
    ensures StartsAt(s, i, "[![") && s[i + 3..i + 3 + |alt|] == alt
    ensures AltCloseAt(s, i + 3 + |alt|) && s[i + 5 + |alt|..i + 5 + |alt| + |image|] == image
    ensures ImageCloseAt(s, i + 5 + |alt| + |image|)
    ensures StartsAt(s, i + 8 + |alt| + |image|, url + ")")
  {
    StartsAtConcatTail(s, i, "[![" + alt + "](" + image + ")](", url, ")");
    ImageLinkParts(s, i, alt, image);
  }

  /** Where the alternative text and the image URL sit in `[![alt](image)](` at `i`. */
  lemma ImageLinkParts(s: string, i: nat, alt: string, image: string)
    requires StartsAt(s, i, "[![" + alt + "](" + image + ")](")
    ensures StartsAt(s, i, "[![") && s[i + 3..i + 3 + |alt|] == alt
    ensures AltCloseAt(s, i + 3 + |alt|) && s[i + 5 + |alt|..i + 5 + |alt| + |image|] == image
    ensures ImageCloseAt(s, i + 5 + |alt| + |image|)
  {
    StartsAtConcat(s, i, "[![" + alt + "](" + image, ")](");
    StartsAtConcat(s, i, "[![" + alt + "](", image);
    StartsAtConcat(s, i, "[![" + alt, "](");
    StartsAtConcat(s, i, "[![", alt);
    assert s[i + 3 + |alt|..i + 5 + |alt|] == "](";
    assert s[i + 5 + |alt| + |image|..i + 8 + |alt| + |image|] == ")](";
  }

  lemma UnwrapStep(s: string, i: nat, m: VideoMatch)
    requires i < |s| && VideoAt(s, i) == Some(m)
    ensures UnwrapFrom(s, i) == s[m.imageEnd + 3..m.close] + UnwrapFrom(s, m.close + 1)
  {
    UnwrapUnfold(s, i);
    StepAtVideo(s, i, m);
  }

  lemma UnwrapUnfold(s: string, i: nat)
    requires i < |s|
    ensures UnwrapFrom(s, i) == ReplaceStep(s, i).0 + UnwrapFrom(s, ReplaceStep(s, i).1)
  {
  }

  lemma StepAtVideo(s: string, i: nat, m: VideoMatch)
    requires i < |s| && VideoAt(s, i) == Some(m)
    ensures ReplaceStep(s, i) == (s[m.imageEnd + 3..m.close], m.close + 1)
  {
  }

  /** Where the parts of a video URL `https://host/path` sit when it starts at `u`. */
  lemma UrlParts(s: string, u: nat, host: string, path: string)
    requires StartsAt(s, u, "https://" + host + "/" + path + ")")
    ensures StartsAt(s, u, "https://") && StartsAt(s, u + 8, host + "/")
    ensures StartsAt(s, u + 9 + |host|, path + ")")
    ensures s[u..u + 9 + |host| + |path|] == "https://" + host + "/" + path
  {
    assert "https://" + host + "/" + path + ")" == "https://" + (host + "/") + (path + ")");
    StartsAtConcat(s, u, "https://", (host + "/") + (path + ")"));
    StartsAtConcat(s, u + 8, host + "/", path + ")");
    StartsAtConcat(s, u, "https://" + host + "/" + path, ")");
  }

  /** A part of `s` equal to `part` avoids what `part` avoids. */
  lemma AvoidsPart(s: string, lo: nat, part: string, c: char)
    requires lo + |part| <= |s| && s[lo..lo + |part|] == part && c !in part
    ensures Avoids(s, lo, lo + |part|, c)
  {
    forall k | lo <= k < lo + |part|
      ensures s[k] != c
    {
      assert s[k] == part[k - lo];
    }
  }

  /** The match found at `i` from the places of its parts. */
  lemma VideoAtIs(s: string, i: nat, x: nat, y: nat, c: nat)
    requires i + 4 <= x && x + 3 <= y
    requires StartsAt(s, i, "[![") && AltCloseAt(s, x) && ImageCloseAt(s, y) && UrlClose(s, y + 3) == Some(c)
    requires Avoids(s, i + 3, x, ']') && Avoids(s, i + 3, x, '\n')
    requires Avoids(s, x + 2, y, ')') && Avoids(s, x + 2, y, '\n')
    ensures VideoAt(s, i) == Some(VideoMatch(x, y, c))
  {
    ImageSearchIs(s, x, x + 3, y, c);
    AltSearchIs(s, i, i + 4, x, VideoMatch(x, y, c));
    VideoAtUnfold(s, i);
  }

  /** The match a linked video makes, and the URL it captures. */
  lemma VideoFound(s: string, i: nat, alt: string, image: string, host: string, path: string)
    requires |alt| >= 1 && ']' !in alt && '\n' !in alt
    requires |image| >= 1 && ')' !in image && '\n' !in image
    requires IsVideoHost(host) && |path| >= 1 && ')' !in path && '\n' !in path
    requires StartsAt(s, i, "[![" + alt + "](" + image + ")](" + ("https://" + host + "/" + path) + ")")
    ensures var x := i + 3 + |alt|; var y := x + 2 + |image|; var c := y + 12 + |host| + |path|;
      c < |s| && VideoAt(s, i) == Some(VideoMatch(x, y, c)) && s[y + 3..c] == "https://" + host + "/" + path
  {
    VideoParts(s, i, alt, image, "https://" + host + "/" + path);
    VideoFoundAt(s, i, alt, image, host, path);
  }

  /** The same, from where the parts of the linked video sit. */
  lemma VideoFoundAt(s: string, i: nat, alt: string, image: string, host: string, path: string)
    requires |alt| >= 1 && ']' !in alt && '\n' !in alt
    requires |image| >= 1 && ')' !in image && '\n' !in image
    requires IsVideoHost(host) && |path| >= 1 && ')' !in path && '\n' !in path
    requires ImageCloseAt(s, i + 5 + |alt| + |image|)
    requires StartsAt(s, i, "[![") && s[i + 3..i + 3 + |alt|] == alt
    requires AltCloseAt(s, i + 3 + |alt|) && s[i + 5 + |alt|..i + 5 + |alt| + |image|] == image
    requires StartsAt(s, i + 8 + |alt| + |image|, "https://" + host + "/" + path + ")")
    ensures var x := i + 3 + |alt|; var y := x + 2 + |image|; var c := y + 12 + |host| + |path|;
      c < |s| && VideoAt(s, i) == Some(VideoMatch(x, y, c)) && s[y + 3..c] == "https://" + host + "/" + path
  {
    var x := i + 3 + |alt|;
    var y := x + 2 + |image|;
    var u := y + 3;
    var c := u + 9 + |host| + |path|;
    UrlParts(s, u, host, path);
    UrlCloseIs(s, u, host, path);
    VideoAtParts(s, i, alt, image, c);
  }

  /** The match found at `i` from the alternative text and the image URL it holds. */
  lemma VideoAtParts(s: string, i: nat, alt: string, image: string, c: nat)
    requires ']' !in alt && '\n' !in alt && ')' !in image && '\n' !in image && |alt| >= 1 && |image| >= 1
    requires ImageCloseAt(s, i + 5 + |alt| + |image|)
    requires StartsAt(s, i, "[![") && s[i + 3..i + 3 + |alt|] == alt
    requires AltCloseAt(s, i + 3 + |alt|) && s[i + 5 + |alt|..i + 5 + |alt| + |image|] == image
    requires UrlClose(s, i + 8 + |alt| + |image|) == Some(c)
    ensures VideoAt(s, i) == Some(VideoMatch(i + 3 + |alt|, i + 5 + |alt| + |image|, c))
  {
    AvoidsPart(s, i + 3, alt, ']');
    AvoidsPart(s, i + 3, alt, '\n');
    AvoidsPart(s, i + 5 + |alt|, image, ')');
    AvoidsPart(s, i + 5 + |alt|, image, '\n');
    VideoAtIs(s, i, i + 3 + |alt|, i + 5 + |alt| + |image|, c);
  }

  /**
   * An image `[![alt](image)]` linked to a YouTube video (alternative text
   * without ']', image URL without ')', video path without ')', none of
   * them crossing a line) is replaced by the video URL.
   */
  lemma VideoUnwrapped(s: string, i: nat, alt: string, image: string, host: string, path: string)
    requires |alt| >= 1 && ']' !in alt && '\n' !in alt
    requires |image| >= 1 && ')' !in image && '\n' !in image
    requires IsVideoHost(host) && |path| >= 1 && ')' !in path && '\n' !in path
    requires StartsAt(s, i, "[![" + alt + "](" + image + ")](" + ("https://" + host + "/" + path) + ")")
    ensures var n := |alt| + |image| + |host| + |path| + 18;
      i + n <= |s| && UnwrapFrom(s, i) == "https://" + host + "/" + path + UnwrapFrom(s, i + n)
  {
    VideoParts(s, i, alt, image, "https://" + host + "/" + path);
    VideoUnwrappedAt(s, i, alt, image, host, path);
  }

  lemma VideoUnwrappedAt(s: string, i: nat, alt: string, image: string, host: string, path: string)
    requires |alt| >= 1 && ']' !in alt && '\n' !in alt
    requires |image| >= 1 && ')' !in image && '\n' !in image
    requires IsVideoHost(host) && |path| >= 1 && ')' !in path && '\n' !in path
    requires ImageCloseAt(s, i + 5 + |alt| + |image|)
    requires StartsAt(s, i, "[![") && s[i + 3..i + 3 + |alt|] == alt
    requires AltCloseAt(s, i + 3 + |alt|) && s[i + 5 + |alt|..i + 5 + |alt| + |image|] == image
    requires StartsAt(s, i + 8 + |alt| + |image|, "https://" + host + "/" + path + ")")
    ensures var n := |alt| + |image| + |host| + |path| + 18;
      i + n <= |s| && UnwrapFrom(s, i) == "https://" + host + "/" + path + UnwrapFrom(s, i + n)
  {
    var u := i + 8 + |alt| + |image|;
    var c := u + 9 + |host| + |path|;
    UrlParts(s, u, host, path);
    UrlCloseIs(s, u, host, path);
    MatchUnwrapped(s, i, alt, image, c, "https://" + host + "/" + path);
  }

  lemma MatchUnwrapped(s: string, i: nat, alt: string, image: string, c: nat, url: string)
    requires ']' !in alt && '\n' !in alt && ')' !in image && '\n' !in image && |alt| >= 1 && |image| >= 1
    requires ImageCloseAt(s, i + 5 + |alt| + |image|)
    requires StartsAt(s, i, "[![") && s[i + 3..i + 3 + |alt|] == alt
    requires AltCloseAt(s, i + 3 + |alt|) && s[i + 5 + |alt|..i + 5 + |alt| + |image|] == image
    requires UrlClose(s, i + 8 + |alt| + |image|) == Some(c)
    requires s[i + 8 + |alt| + |image|..c] == url
    ensures c + 1 <= |s| && UnwrapFrom(s, i) == url + UnwrapFrom(s, c + 1)
  {
    var x := i + 3 + |alt|;
    var y := x + 2 + |image|;
    VideoAtParts(s, i, alt, image, c);
    UnwrapMatch(s, i, VideoMatch(x, y, c), url);
  }

  lemma UnwrapMatch(s: string, i: nat, m: VideoMatch, url: string)
    requires i < |s| && m.close < |s| && VideoAt(s, i) == Some(m) && s[m.imageEnd + 3..m.close] == url
    ensures UnwrapFrom(s, i) == url + UnwrapFrom(s, m.close + 1)
  {
    UnwrapStep(s, i, m);
  }

  lemma StepPlain(s: string, i: nat)
    requires i < |s| && s[i] != '['
    ensures ReplaceStep(s, i) == ([s[i]], i + 1)
  {
    assert !StartsAt(s, i, "[![");
  }

  /** Text from index `i` on without '[' holds no video link and is copied as it is. */
  lemma {:induction false} WithoutBracketUnchanged(s: string, i: nat)
    requires i <= |s| && Avoids(s, i, |s|, '[')
    ensures UnwrapFrom(s, i) == s[i..]
    decreases |s| - i
  {
    if i < |s| {
      StepPlain(s, i);
      UnwrapUnfold(s, i);
      WithoutBracketUnchanged(s, i + 1);
      assert s[i..] == [s[i]] + s[i + 1..];
    }
  }

  /** Text from index `i` up to `j` without '[' holds no video link and is copied as it is. */
  lemma {:induction false} VideoCopied(s: string, i: nat, j: nat)
    requires i <= j <= |s| && Avoids(s, i, j, '[')
    ensures UnwrapFrom(s, i) == s[i..j] + UnwrapFrom(s, j)
    decreases j - i
  {
    if i < j {
      PlainCopied(s, i);
      assert Avoids(s, i + 1, j, '[');
      VideoCopied(s, i + 1, j);
      SliceStep(s, i, j, UnwrapFrom(s, i), UnwrapFrom(s, i + 1), UnwrapFrom(s, j));
    } else {
      assert s[i..j] == [];
    }
  }

  /** A character other than '[' is copied and the scan moves on by one. */
  lemma PlainCopied(s: string, i: nat)
    requires i < |s| && s[i] != '['
    ensures UnwrapFrom(s, i) == [s[i]] + UnwrapFrom(s, i + 1)
  {
    StepPlain(s, i);
    UnwrapUnfold(s, i);
  }

  /**
   * A linked video at index `i` of a document with no '[' before it: the
   * text before it is copied and the link becomes its bare URL.
   */
  lemma VideoInDocument(s: string, i: nat, alt: string, image: string, host: string, path: string)
    requires i <= |s| && Avoids(s, 0, i, '[')
    requires |alt| >= 1 && ']' !in alt && '\n' !in alt
    requires |image| >= 1 && ')' !in image && '\n' !in image
    requires IsVideoHost(host) && |path| >= 1 && ')' !in path && '\n' !in path
    requires StartsAt(s, i, "[![" + alt + "](" + image + ")](" + ("https://" + host + "/" + path) + ")")
    ensures var n := |alt| + |image| + |host| + |path| + 18;
      i + n <= |s| && UnwrapVideos(s) == s[..i] + ("https://" + host + "/" + path + UnwrapFrom(s, i + n))
  {
    assert UnwrapVideos(s) == UnwrapFrom(s, 0);
    VideoCopied(s, 0, i);
    assert s[0..i] == s[..i];
    VideoUnwrapped(s, i, alt, image, host, path);
  }
}
