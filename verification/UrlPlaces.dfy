/** Which URLs of a text get brackets, written on its characters. */
module UrlPlaces {
  import opened Text
  import opened Urls
  import opened UrlsLaws

  /** What a URL may hold behind its scheme. */
  predicate UrlChar(c: char) {
    !IsWhitespace(c) && c != ')' && c != '>' && c != ']'
  }

  ghost predicate UrlWith(url: string, scheme: string) {
    scheme <= url && |url| > |scheme| && forall i | |scheme| <= i < |url| :: UrlChar(url[i])
  }

  ghost predicate IsUrl(url: string) { UrlWith(url, "http://") || UrlWith(url, "https://") }

  /** A URL starts a text: a scheme and at least one more character. */
  predicate StartsUrl(s: string) {
    || ("http://" <= s && |s| > 7 && UrlChar(s[7]))
    || ("https://" <= s && |s| > 8 && UrlChar(s[8]))
  }

  lemma StartsUrlIs(s: string)
    ensures UrlLen(s) > 0 <==> StartsUrl(s)
  {
    UrlLenIs(s);
  }

  lemma SchemeOf(s: string)
    ensures "http://" <= s ==> Scheme(s) == 7
    ensures "https://" <= s ==> Scheme(s) == 8
  {
    assert "https://" <= s ==> s[4] == 's';
    assert "http://" <= s ==> s[4] == ':';
  }

  /** The match at the start of a URL is the whole URL. */
  lemma UrlLenOf(url: string, after: string, scheme: string)
    requires scheme == "http://" || scheme == "https://"
    requires UrlWith(url, scheme) && (after == [] || !UrlChar(after[0]))
    ensures UrlLen(url + after) == |url|
  {
    var s, k := url + after, |scheme|;
    assert s[..k] == url[..k] == scheme;
    SchemeOf(s);
    assert forall i | 0 <= i < |url| - k :: s[k..][i] == url[i + k];
    assert after != [] ==> s[k..][|url| - k] == after[0];
    RunOf(s[k..], |url| - k);
  }

  lemma {:induction false} SkipTo(text: string, n: nat)
    requires n <= |text| && (forall i | 0 <= i < n :: !StartsUrl(text[i..])) && (n < |text| ==> StartsUrl(text[n..]))
    ensures Skip(UrlLen, text) == n
    decreases |text|
  {
    assert text[0..] == text;
    StartsUrlIs(text);
    if n > 0 {
      forall i | 0 <= i < n - 1 ensures !StartsUrl(text[1..][i..]) { assert text[1..][i..] == text[i + 1..]; }
      assert text[1..][n - 1..] == text[n..];
      SkipTo(text[1..], n - 1);
    }
  }

  lemma WrapAnyBefore(a: char, b: char, s: string)
    requires s == [] || UrlLen(s) == 0
    ensures Wrap(UrlLen, a, s) == Wrap(UrlLen, b, s)
  {
  }

  lemma AfterUrl(after: string, last: char)
    requires after == [] || !UrlChar(after[0])
    ensures Wrap(UrlLen, last, after) == WrapUrls(after)
  {
    UrlLenIsUrlLike();
    assert StartsInside(UrlLen, after);
    WrapAnyBefore(last, ' ', after);
  }

  /** No URL starts before position `|before|`. */
  ghost predicate FirstUrlAt(text: string, n: nat) {
    forall i | 0 <= i < n && i <= |text| :: !StartsUrl(text[i..])
  }

  lemma UrlStarts(url: string, after: string)
    requires IsUrl(url)
    ensures StartsUrl(url + after)
  {
    var s := url + after;
    if UrlWith(url, "http://") {
      assert s[..7] == url[..7] && s[7] == url[7];
    } else {
      assert s[..8] == url[..8] && s[8] == url[8];
    }
  }

  lemma UrlAtStart(preceding: char, url: string, after: string)
    requires IsUrl(url) && (after == [] || !UrlChar(after[0]))
    ensures Wrap(UrlLen, preceding, url + after)
         == (if preceding == '(' || preceding == '<' then url else "<" + url + ">") + WrapUrls(after)
  {
    var s := url + after;
    if UrlWith(url, "http://") { UrlLenOf(url, after, "http://"); } else { UrlLenOf(url, after, "https://"); }
    WrapMatch(UrlLen, preceding, s, |url|);
    assert s[..|url|] == url && s[|url|..] == after;
    AfterUrl(after, s[|url| - 1]);
  }

  /** The first URL of a text stays when it follows `(` or `<` directly and gets brackets
      otherwise; what comes before it stays, and what follows is treated alike. */
  lemma FirstUrl(before: string, url: string, after: string)
    requires IsUrl(url) && (after == [] || !UrlChar(after[0])) && FirstUrlAt(before + url + after, |before|)
    ensures WrapUrls(before + url + after)
         == before
            + (if before != [] && (before[|before| - 1] == '(' || before[|before| - 1] == '<') then url
               else "<" + url + ">")
            + WrapUrls(after)
  {
    var text, rest := before + url + after, url + after;
    assert text == before + rest && text[|before|..] == rest;
    UrlStarts(url, after);
    SkipTo(text, |before|);
    WrapSkips(UrlLen, ' ', text, before, rest);
    UrlAtStart(LastOr(before, ' '), url, after);
    Associate(before,
              if before != [] && (before[|before| - 1] == '(' || before[|before| - 1] == '<') then url
              else "<" + url + ">",
              WrapUrls(after));
  }

  /** A text without a URL stays. */
  lemma NoUrl(text: string)
    requires FirstUrlAt(text, |text|)
    ensures WrapUrls(text) == text
  {
    SkipTo(text, |text|);
    assert text + [] == text;
    WrapSkips(UrlLen, ' ', text, text, []);
  }

  lemma {:induction false} BodyLength(s: string) returns (n: nat)
    ensures n <= |s| && (forall i | 0 <= i < n :: UrlChar(s[i])) && (n < |s| ==> !UrlChar(s[n]))
  {
    n := 0;
    if s != [] && UrlChar(s[0]) {
      var k := BodyLength(s[1..]);
      assert forall i | 1 <= i < k + 1 :: s[i] == s[1..][i - 1];
      n := k + 1;
    }
  }

  lemma UrlAtFront(s: string, k: nat) returns (n: nat)
    requires (k == 7 && "http://" <= s) || (k == 8 && "https://" <= s)
    requires |s| > k && UrlChar(s[k])
    ensures n <= |s| && IsUrl(s[..n]) && (n < |s| ==> !UrlChar(s[n]))
  {
    var body := BodyLength(s[k..]);
    n := k + body;
    assert forall i | k <= i < n :: s[i] == s[k..][i - k];
    assert n < |s| ==> s[n] == s[k..][body];
    assert s[..n][..k] == s[..k];
  }

  lemma FirstStart(text: string) returns (n: nat)
    requires !FirstUrlAt(text, |text|)
    ensures n < |text| && FirstUrlAt(text, n) && StartsUrl(text[n..])
  {
    n := 0;
    while !StartsUrl(text[n..])
      invariant n < |text| && FirstUrlAt(text, n) && !FirstUrlAt(text, |text|)
      decreases |text| - n
    {
      n := n + 1;
    }
  }

  lemma UrlInFront(s: string) returns (n: nat)
    requires StartsUrl(s)
    ensures n <= |s| && IsUrl(s[..n]) && (n < |s| ==> !UrlChar(s[n]))
  {
    if "http://" <= s && |s| > 7 && UrlChar(s[7]) { n := UrlAtFront(s, 7); } else { n := UrlAtFront(s, 8); }
  }

  lemma ThreeParts(text: string, i: nat, n: nat)
    requires i <= |text| && n <= |text[i..]|
    ensures text == text[..i] + text[i..][..n] + text[i..][n..]
  {
  }

  /** One of the two describes every text. */
  lemma EveryText(text: string) returns (before: string, url: string, after: string)
    requires !FirstUrlAt(text, |text|)
    ensures text == before + url + after && IsUrl(url) && (after == [] || !UrlChar(after[0]))
    ensures FirstUrlAt(text, |before|)
  {
    var i := FirstStart(text);
    var n := UrlInFront(text[i..]);
    ThreeParts(text, i, n);
    before, url, after := text[..i], text[i..][..n], text[i..][n..];
  }
}
