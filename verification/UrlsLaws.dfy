/** What wrapping bare URLs promises: nothing but the brackets is added, no bare URL is
    left, and a text without bare URLs is returned as it is. */
module UrlsLaws {
  import opened Text
  import opened Urls

  // ----- Conservation, for any matcher -----

  /** A text cut into what stays and the matches that get brackets. */
  datatype Piece = Stays(text: string) | Wrapped(text: string)

  /** How a match that follows the character `preceding` is cut out. */
  function Cut(preceding: char, url: string): Piece {
    if Shields(preceding) then Stays(url) else Wrapped(url)
  }

  function Pieces(m: Matcher, preceding: char, s: string): seq<Piece>
    decreases |s|
  {
    if s == [] then []
    else
      var n := m(s);
      if n == 0 then [Stays([s[0]])] + Pieces(m, s[0], s[1..])
      else [Cut(preceding, s[..n])] + Pieces(m, s[n - 1], s[n..])
  }

  function Source(pieces: seq<Piece>): string {
    if pieces == [] then [] else pieces[0].text + Source(pieces[1..])
  }

  function Render(pieces: seq<Piece>): string {
    if pieces == [] then []
    else (if pieces[0].Stays? then pieces[0].text else "<" + pieces[0].text + ">") + Render(pieces[1..])
  }

  lemma FirstStays(text: string, rest: seq<Piece>)
    ensures Source([Stays(text)] + rest) == text + Source(rest)
    ensures Render([Stays(text)] + rest) == text + Render(rest)
  {
  }

  lemma FirstCut(preceding: char, url: string, rest: seq<Piece>)
    ensures Source([Cut(preceding, url)] + rest) == url + Source(rest)
    ensures Render([Cut(preceding, url)] + rest) == Shown(preceding, url) + Render(rest)
  {
  }

  lemma PiecesPlain(m: Matcher, preceding: char, s: string)
    requires s != [] && m(s) == 0
    ensures Pieces(m, preceding, s) == [Stays([s[0]])] + Pieces(m, s[0], s[1..])
  {
  }

  lemma PiecesMatch(m: Matcher, preceding: char, s: string, n: nat)
    requires n == m(s) > 0
    ensures Pieces(m, preceding, s) == [Cut(preceding, s[..n])] + Pieces(m, s[n - 1], s[n..])
  {
  }

  lemma SourceFirst(pieces: seq<Piece>, first: Piece, rest: seq<Piece>, s: string)
    requires pieces == [first] + rest && s == first.text + Source(rest)
    ensures Source(pieces) == s
  {
  }

  lemma CutText(preceding: char, url: string)
    ensures Cut(preceding, url).text == url
  {
  }

  /** A text is what its pieces come from. */
  lemma {:induction false} SourceOfPieces(m: Matcher, preceding: char, s: string)
    ensures Source(Pieces(m, preceding, s)) == s
    decreases |s|
  {
    if s != [] {
      var n := m(s);
      if n == 0 {
        SourceOfPieces(m, s[0], s[1..]);
        PiecesPlain(m, preceding, s);
        SourceFirst(Pieces(m, preceding, s), Stays([s[0]]), Pieces(m, s[0], s[1..]), s);
      } else {
        SourceOfPieces(m, s[n - 1], s[n..]);
        PiecesMatch(m, preceding, s, n);
        CutText(preceding, s[..n]);
        SourceFirst(Pieces(m, preceding, s), Cut(preceding, s[..n]), Pieces(m, s[n - 1], s[n..]), s);
      }
    }
  }

  lemma {:induction false} RenderOfPieces(m: Matcher, preceding: char, s: string)
    ensures Render(Pieces(m, preceding, s)) == Wrap(m, preceding, s)
    decreases |s|
  {
    if s != [] {
      var n := m(s);
      if n == 0 {
        RenderOfPieces(m, s[0], s[1..]);
        PiecesPlain(m, preceding, s);
        FirstStays([s[0]], Pieces(m, s[0], s[1..]));
        WrapPlain(m, preceding, s);
      } else {
        RenderOfPieces(m, s[n - 1], s[n..]);
        PiecesMatch(m, preceding, s, n);
        FirstCut(preceding, s[..n], Pieces(m, s[n - 1], s[n..]));
        WrapMatch(m, preceding, s, n);
      }
    }
  }

  /** The result is the input with brackets put around some of its matches; without them it
      is the input again. */
  lemma WrapConserves(m: Matcher, preceding: char, s: string)
    ensures Render(Pieces(m, preceding, s)) == Wrap(m, preceding, s)
    ensures Source(Pieces(m, preceding, s)) == s
  {
    RenderOfPieces(m, preceding, s);
    SourceOfPieces(m, preceding, s);
  }

  // ----- Bare matches -----

  /** Every match the scan meets follows a `(` or `<`. */
  predicate NoBare(m: Matcher, preceding: char, s: string)
    decreases |s|
  {
    s == [] ||
      var n := m(s);
      if n == 0 then NoBare(m, s[0], s[1..]) else Shields(preceding) && NoBare(m, s[n - 1], s[n..])
  }

  lemma {:induction false} WrapGrows(m: Matcher, preceding: char, s: string)
    ensures |Wrap(m, preceding, s)| >= |s|
    decreases |s|
  {
    if s != [] {
      var n := m(s);
      if n == 0 { WrapGrows(m, s[0], s[1..]); } else { WrapGrows(m, s[n - 1], s[n..]); }
    }
  }

  lemma Unprefix(prefix: string, a: string, b: string)
    ensures prefix + a == prefix + b <==> a == b
  {
    assert (prefix + a)[|prefix|..] == a && (prefix + b)[|prefix|..] == b;
  }

  /** A text is returned unchanged exactly when it has no bare match. */
  lemma {:induction false} UnchangedIffNoBare(m: Matcher, preceding: char, s: string)
    ensures Wrap(m, preceding, s) == s <==> NoBare(m, preceding, s)
    decreases |s|
  {
    if s != [] {
      var n := m(s);
      if n == 0 {
        UnchangedIffNoBare(m, s[0], s[1..]);
        Unprefix([s[0]], Wrap(m, s[0], s[1..]), s[1..]);
        assert s == [s[0]] + s[1..];
      } else {
        assert s == s[..n] + s[n..];
        if Shields(preceding) {
          UnchangedIffNoBare(m, s[n - 1], s[n..]);
          Unprefix(s[..n], Wrap(m, s[n - 1], s[n..]), s[n..]);
        } else {
          WrapGrows(m, s[n - 1], s[n..]);
        }
      }
    }
  }

  // ----- Reading the result again -----

  lemma FirstReads(m: Matcher, preceding: char, s: string)
    requires Wrap(m, preceding, s) != []
    ensures s != []
    ensures var c := Wrap(m, preceding, s)[0]; c == s[0] || (c == '<' && m(s) > 0)
  {
  }

  lemma InsideReads(s: string, n: nat, tail: string, p: string)
    requires n <= |s| && |p| < n && p <= s[..n] + tail
    ensures p <= s && |p| < |s| && (s[..n] + tail)[|p|] == s[|p|]
  {
    var w := s[..n] + tail;
    assert s == s[..n] + s[n..];
    assert forall i | 0 <= i <= |p| :: w[i] == s[i];
  }

  /** Up to the first inserted bracket the result reads like the input, and there the bracket
      stands where a match began. */
  lemma {:induction false} ReadsAlike(m: Matcher, preceding: char, s: string, p: string)
    requires '<' !in p && p <= Wrap(m, preceding, s) && |p| < |Wrap(m, preceding, s)|
    ensures p <= s && |p| < |s|
    ensures var c := Wrap(m, preceding, s)[|p|]; c == s[|p|] || (c == '<' && m(s[|p|..]) > 0)
    decreases |s|
  {
    var n := m(s);
    if p == [] {
      FirstReads(m, preceding, s);
      assert s[0..] == s;
    } else if n == 0 {
      WrapPlain(m, preceding, s);
      ReadsOn(m, s[0], s, p, 1);
    } else if Shields(preceding) {
      WrapMatch(m, preceding, s, n);
      if |p| < n {
        InsideReads(s, n, Wrap(m, s[n - 1], s[n..]), p);
      } else {
        ReadsOn(m, s[n - 1], s, p, n);
      }
    } else {
      StartsWithBracket(m, preceding, s, p);
    }
  }

  lemma StartsWithBracket(m: Matcher, preceding: char, s: string, p: string)
    requires s != [] && m(s) > 0 && !Shields(preceding) && p <= Wrap(m, preceding, s)
    requires p != []
    ensures '<' in p
  {
    assert Wrap(m, preceding, s)[0] == '<';
    assert p[0] == '<';
  }

  /** The same after the first `n` characters, which stay as they are. */
  lemma {:induction false} ReadsOn(m: Matcher, preceding: char, s: string, p: string, n: nat)
    requires 1 <= n <= |s| && n <= |p| && '<' !in p
    requires var w := s[..n] + Wrap(m, preceding, s[n..]); p <= w && |p| < |w|
    ensures p <= s && |p| < |s|
    ensures var c := (s[..n] + Wrap(m, preceding, s[n..]))[|p|]; c == s[|p|] || (c == '<' && m(s[|p|..]) > 0)
    decreases |s|, 0
  {
    var tail := Wrap(m, preceding, s[n..]);
    var w := s[..n] + tail;
    assert w[n..] == tail && w[..n] == s[..n];
    assert p[n..] <= tail && p[..n] == s[..n] by { PrefixTail(p, w, n); }
    assert '<' !in p[n..];
    ReadsAlike(m, preceding, s[n..], p[n..]);
    assert p == p[..n] + p[n..] && s == s[..n] + s[n..];
    assert s[n..][|p| - n..] == s[|p|..];
  }

  lemma PrefixTail(p: string, w: string, n: nat)
    requires p <= w && n <= |p|
    ensures p[n..] <= w[n..] && p[..n] == w[..n]
  {
  }

  // ----- Matchers that behave like the regular expression -----

  /** Wrapping what follows makes no match out of a text that does not start with one. */
  predicate StaysPlain(m: Matcher, preceding: char, s: string) {
    m(s) == 0 ==> m(Wrap(m, preceding, s)) == 0
  }

  /** A match ends before a terminator. */
  predicate EndsBefore(m: Matcher, s: string) {
    0 < m(s) < |s| ==> !InUrl(s[m(s)])
  }

  /** A match ends there whatever terminator follows. */
  predicate EndsAnyway(m: Matcher, s: string, after: string) {
    m(s) > 0 && (after == [] || !InUrl(after[0])) ==> m(s[..m(s)] + after) == m(s)
  }

  /** Neither a bracket nor a terminator starts a match. */
  predicate StartsInside(m: Matcher, s: string) {
    s != [] && (s[0] == '<' || !InUrl(s[0])) ==> m(s) == 0
  }

  ghost predicate UrlLike(m: Matcher) {
    && (forall preceding: char, s: string :: StaysPlain(m, preceding, s))
    && (forall s: string :: EndsBefore(m, s))
    && (forall s: string, after: string :: EndsAnyway(m, s, after))
    && (forall s: string :: StartsInside(m, s))
  }

  lemma NoBarePlain(m: Matcher, preceding: char, s: string)
    requires s != [] && m(s) == 0
    ensures NoBare(m, preceding, s) <==> NoBare(m, s[0], s[1..])
  {
  }

  /** What precedes matters only to a text that starts with a match. */
  lemma NoBareAnyBefore(m: Matcher, a: char, b: char, s: string)
    requires s == [] || m(s) == 0
    ensures NoBare(m, a, s) <==> NoBare(m, b, s)
  {
  }

  lemma KeptMatch(m: Matcher, preceding: char, url: string, after: string)
    requires UrlLike(m) && m(url) == |url| > 0 && Shields(preceding)
    requires after == [] || !InUrl(after[0])
    requires NoBare(m, url[|url| - 1], after)
    ensures NoBare(m, preceding, url + after)
  {
    var n := |url|;
    assert EndsAnyway(m, url, after);
    assert url[..n] == url;
    assert (url + after)[n..] == after && (url + after)[n - 1] == url[n - 1];
  }

  lemma Bracketed(m: Matcher, preceding: char, url: string, after: string)
    requires UrlLike(m) && m(url) == |url| > 0
    requires after == [] || !InUrl(after[0])
    requires NoBare(m, url[|url| - 1], after)
    ensures NoBare(m, preceding, "<" + url + ">" + after)
  {
    var closed := ">" + after;
    assert closed[1..] == after && closed[0] == '>';
    assert StartsInside(m, closed);
    assert StartsInside(m, after);
    NoBareAnyBefore(m, url[|url| - 1], '>', after);
    NoBarePlain(m, url[|url| - 1], closed);
    KeptMatch(m, '<', url, closed);
    var whole := "<" + (url + closed);
    assert whole == "<" + url + ">" + after;
    assert whole[1..] == url + closed && whole[0] == '<';
    assert StartsInside(m, whole);
    NoBarePlain(m, preceding, whole);
  }

  lemma TerminatorStays(m: Matcher, preceding: char, s: string)
    requires UrlLike(m) && (s == [] || !InUrl(s[0]))
    ensures var w := Wrap(m, preceding, s); w == [] || !InUrl(w[0])
  {
    assert StartsInside(m, s);
    if s != [] { WrapPlain(m, preceding, s); }
  }

  lemma MatchStands(m: Matcher, s: string, n: nat)
    requires UrlLike(m) && n == m(s) > 0
    ensures m(s[..n]) == n
    ensures s[n..] == [] || !InUrl(s[n..][0])
  {
    assert EndsAnyway(m, s, []);
    assert s[..n] + [] == s[..n];
    assert EndsBefore(m, s);
  }

  lemma {:induction false} WrapLeavesNoBare(m: Matcher, preceding: char, s: string)
    requires UrlLike(m)
    ensures NoBare(m, preceding, Wrap(m, preceding, s))
    decreases |s|
  {
    if s != [] {
      var n, w := m(s), Wrap(m, preceding, s);
      if n == 0 {
        WrapLeavesNoBare(m, s[0], s[1..]);
        WrapPlain(m, preceding, s);
        assert StaysPlain(m, preceding, s);
        assert w[0] == s[0] && w[1..] == Wrap(m, s[0], s[1..]);
        NoBarePlain(m, preceding, w);
      } else {
        var url, last := s[..n], s[n - 1];
        WrapLeavesNoBare(m, last, s[n..]);
        WrapMatch(m, preceding, s, n);
        MatchStands(m, s, n);
        TerminatorStays(m, last, s[n..]);
        if Shields(preceding) {
          KeptMatch(m, preceding, url, Wrap(m, last, s[n..]));
        } else {
          Bracketed(m, preceding, url, Wrap(m, last, s[n..]));
        }
      }
    }
  }

  // ----- The regular expression is such a matcher -----

  lemma {:induction false} RunOf(s: string, n: nat)
    requires n <= |s| && forall i | 0 <= i < n :: InUrl(s[i])
    requires n < |s| ==> !InUrl(s[n])
    ensures Run(s) == n
  {
    if n > 0 { RunOf(s[1..], n - 1); }
  }

  predicate UrlAt(s: string, scheme: string) {
    scheme <= s && |s| > |scheme| && InUrl(s[|scheme|])
  }

  lemma UrlLenIs(s: string)
    ensures UrlLen(s) > 0 <==> UrlAt(s, "http://") || UrlAt(s, "https://")
  {
    var k := Scheme(s);
    if k > 0 && |s| > k { assert s[k..][0] == s[k]; }
    assert "https://" <= s ==> s[4] == 's';
    assert "http://" <= s ==> s[4] == ':';
  }

  lemma UrlStartsWithH(s: string)
    requires UrlLen(s) > 0
    ensures s[0] == 'h'
  {
    var k := Scheme(s);
    assert "http://"[0] == 'h' && "https://"[0] == 'h';
  }

  /** A matcher finds something exactly where a URL with one of the schemes starts. */
  predicate FindsUrl(m: Matcher, s: string) {
    m(s) > 0 <==> UrlAt(s, "http://") || UrlAt(s, "https://")
  }

  predicate StartsWithH(m: Matcher, s: string) {
    m(s) > 0 ==> s != [] && s[0] == 'h'
  }

  lemma ReadsUrl(m: Matcher, preceding: char, s: string, scheme: string)
    requires forall t: string :: StartsWithH(m, t)
    requires '<' !in scheme
    ensures UrlAt(Wrap(m, preceding, s), scheme) ==> UrlAt(s, scheme)
  {
    var w := Wrap(m, preceding, s);
    if scheme <= w && |w| > |scheme| {
      ReadsAlike(m, preceding, s, scheme);
      assert StartsWithH(m, s[|scheme|..]);
    }
  }

  lemma MakesNoMatch(m: Matcher, preceding: char, s: string)
    requires forall t: string :: StartsWithH(m, t)
    requires forall t: string :: FindsUrl(m, t)
    ensures StaysPlain(m, preceding, s)
  {
    assert FindsUrl(m, s) && FindsUrl(m, Wrap(m, preceding, s));
    ReadsUrl(m, preceding, s, "http://");
    ReadsUrl(m, preceding, s, "https://");
  }

  lemma UrlMakesNoMatch(preceding: char, s: string)
    ensures StaysPlain(UrlLen, preceding, s)
  {
    forall t: string ensures StartsWithH(UrlLen, t) {
      if UrlLen(t) > 0 { UrlStartsWithH(t); }
    }
    forall t: string ensures FindsUrl(UrlLen, t) {
      UrlLenIs(t);
    }
    MakesNoMatch(UrlLen, preceding, s);
  }

  lemma UrlEnds(s: string)
    requires 0 < UrlLen(s) < |s|
    ensures !InUrl(s[UrlLen(s)])
  {
    var k := Scheme(s);
    assert s[k..][UrlLen(s) - k] == s[UrlLen(s)];
  }

  lemma SchemeKept(s: string, t: string)
    requires |s| >= 8 && |t| >= 8 && s[..8] == t[..8]
    ensures Scheme(s) == Scheme(t)
  {
    assert s[..7] == s[..8][..7] && t[..7] == t[..8][..7];
    assert "http://" <= s <==> s[..7] == "http://";
    assert "http://" <= t <==> t[..7] == "http://";
    assert "https://" <= s <==> s[..8] == "https://";
    assert "https://" <= t <==> t[..8] == "https://";
  }

  lemma UrlStops(s: string, after: string)
    requires UrlLen(s) > 0 && (after == [] || !InUrl(after[0]))
    ensures UrlLen(s[..UrlLen(s)] + after) == UrlLen(s)
  {
    var n, k := UrlLen(s), Scheme(s);
    var t := s[..n] + after;
    SchemeKept(s, t);
    assert forall i | 0 <= i < n - k :: t[k..][i] == s[k..][i];
    RunOf(t[k..], n - k);
  }

  lemma UrlLenIsUrlLike()
    ensures UrlLike(UrlLen)
  {
    forall preceding: char, s: string ensures StaysPlain(UrlLen, preceding, s) {
      UrlMakesNoMatch(preceding, s);
    }
    forall s: string ensures EndsBefore(UrlLen, s) {
      if 0 < UrlLen(s) < |s| { UrlEnds(s); }
    }
    forall s: string, after: string ensures EndsAnyway(UrlLen, s, after) {
      if UrlLen(s) > 0 && (after == [] || !InUrl(after[0])) { UrlStops(s, after); }
    }
    forall s: string ensures StartsInside(UrlLen, s) {
      if UrlLen(s) > 0 { UrlStartsWithH(s); }
    }
  }

  lemma WrapIdempotent(m: Matcher, text: string)
    requires UrlLike(m)
    ensures NoBare(m, ' ', Wrap(m, ' ', text))
    ensures Wrap(m, ' ', Wrap(m, ' ', text)) == Wrap(m, ' ', text)
  {
    WrapLeavesNoBare(m, ' ', text);
    UnchangedIffNoBare(m, ' ', Wrap(m, ' ', text));
  }

  /** Wrapping leaves no bare URL behind, so wrapping again changes nothing. */
  lemma WrapUrlsIdempotent(text: string)
    ensures NoBare(UrlLen, ' ', WrapUrls(text))
    ensures WrapUrls(WrapUrls(text)) == WrapUrls(text)
  {
    UrlLenIsUrlLike();
    WrapIdempotent(UrlLen, text);
  }

  // ----- The line feed that the last pass adds -----

  /** A line feed at the end makes no match. */
  predicate PlainAnyway(m: Matcher, s: string) {
    m(s) == 0 ==> m(s + "\n") == 0
  }

  lemma {:induction false} NoBareEnded(m: Matcher, preceding: char, s: string)
    requires UrlLike(m) && (forall t: string :: PlainAnyway(m, t)) && NoBare(m, preceding, s)
    ensures NoBare(m, preceding, s + "\n")
    decreases |s|
  {
    var n, ended := m(s), s + "\n";
    if n == 0 {
      assert PlainAnyway(m, s);
      if s != [] {
        assert ended[1..] == s[1..] + "\n";
        NoBareEnded(m, s[0], s[1..]);
      }
    } else {
      MatchStands(m, s, n);
      assert EndsAnyway(m, s, s[n..] + "\n");
      assert s[..n] + (s[n..] + "\n") == ended && ended[n..] == s[n..] + "\n";
      NoBareEnded(m, s[n - 1], s[n..]);
    }
  }

  lemma UrlInFront(s: string, scheme: string)
    requires '\n' !in scheme
    ensures UrlAt(s + "\n", scheme) ==> UrlAt(s, scheme)
  {
    var ended := s + "\n";
    assert ended[|s|] == '\n';
    if |scheme| > |s| { assert scheme[|s|] != ended[|s|]; }
    if |scheme| < |s| { assert ended[..|scheme|] == s[..|scheme|]; }
  }

  lemma UrlPlainAnyway(s: string)
    ensures PlainAnyway(UrlLen, s)
  {
    UrlLenIs(s);
    UrlLenIs(s + "\n");
    UrlInFront(s, "http://");
    UrlInFront(s, "https://");
  }

  /** Pages that go through the last pass twice come out as after the first time. */
  lemma PassIdempotent(text: string)
    ensures NoBare(UrlLen, ' ', Pass(text)) && LastIs(Pass(text), '\n')
    ensures Pass(Pass(text)) == Pass(text)
  {
    WrapUrlsIdempotent(text);
    UrlLenIsUrlLike();
    forall t: string ensures PlainAnyway(UrlLen, t) { UrlPlainAnyway(t); }
    NoBareEnded(UrlLen, ' ', WrapUrls(text));
    UnchangedIffNoBare(UrlLen, ' ', Pass(text));
  }
}
