/** Wrapping bare URLs in angle brackets (src/docs/doc_cleaning.rs). The pass is written for
    any anchored matcher; the regular expression `https?://[^\s)>\]]+` is one of them. */
module Urls {
  import opened Text

  // ----- The regular expression -----

  /** The character class `[^\s)>\]]`. */
  predicate InUrl(c: char) {
    !IsWhitespace(c) && c != ')' && c != '>' && c != ']'
  }

  /** The longest run of URL characters at the start. */
  function Run(s: string): (n: nat)
    ensures n <= |s| && (n < |s| ==> !InUrl(s[n]))
    ensures forall i | 0 <= i < n :: InUrl(s[i])
  {
    if s != [] && InUrl(s[0]) then Run(s[1..]) + 1 else 0
  }

  /** Where the scheme of a URL at the start ends, or nothing. */
  function Scheme(s: string): (n: nat)
    ensures n <= |s|
  {
    if "http://" <= s then 7 else if "https://" <= s then 8 else 0
  }

  /** The length of the URL at the start; zero when there is none. */
  function UrlLen(s: string): (n: nat)
    ensures n <= |s|
  {
    var k := Scheme(s);
    if k > 0 && Run(s[k..]) > 0 then k + Run(s[k..]) else 0
  }

  // ----- Wrapping -----

  /** How many characters match at the start of a text, at most all of them. */
  type Matcher = m: string -> nat | forall s :: m(s) <= |s| witness ((s: string) => 0)

  predicate Shields(preceding: char) {
    preceding == '(' || preceding == '<'
  }

  /** What becomes of a URL that follows the character `preceding`. */
  function Shown(preceding: char, url: string): string {
    if Shields(preceding) then url else "<" + url + ">"
  }

  /** What becomes of a text that follows the character `preceding`. */
  function Wrap(m: Matcher, preceding: char, s: string): string
    decreases |s|
  {
    if s == [] then []
    else
      var n := m(s);
      if n == 0 then [s[0]] + Wrap(m, s[0], s[1..])
      else Shown(preceding, s[..n]) + Wrap(m, s[n - 1], s[n..])
  }

  /** `wrap_bare_urls` */
  function WrapUrls(text: string): string {
    Wrap(UrlLen, ' ', text)
  }

  lemma WrapPlain(m: Matcher, preceding: char, s: string)
    requires s != [] && m(s) == 0
    ensures Wrap(m, preceding, s) == [s[0]] + Wrap(m, s[0], s[1..])
  {
  }

  lemma WrapMatch(m: Matcher, preceding: char, s: string, n: nat)
    requires n == m(s) > 0
    ensures Wrap(m, preceding, s) == Shown(preceding, s[..n]) + Wrap(m, s[n - 1], s[n..])
  {
  }

  // ----- The loop over the matches -----

  /** How many characters come before the leftmost match; all of them when there is none. */
  function Skip(m: Matcher, s: string): (n: nat)
    ensures n <= |s|
    decreases |s|
  {
    if s == [] || m(s) > 0 then 0 else Skip(m, s[1..]) + 1
  }

  lemma {:induction false} SkipStops(m: Matcher, s: string, n: nat)
    requires n == Skip(m, s) < |s|
    ensures m(s[n..]) > 0
    decreases |s|
  {
    if n == 0 {
      assert s[0..] == s;
    } else {
      SkipStops(m, s[1..], n - 1);
      assert s[1..][n - 1..] == s[n..];
    }
  }

  /** `Regex::find_at`: the start of the leftmost match at or after `from`. */
  function FindAt(m: Matcher, text: string, from: nat): Option<nat>
    requires from <= |text|
  {
    var start := from + Skip(m, text[from..]);
    if start < |text| then Some(start) else None
  }

  /** The character that precedes what comes after `front`. */
  function LastOr(front: string, preceding: char): char {
    if front == [] then preceding else front[|front| - 1]
  }

  lemma LastOrTail(front: string, preceding: char)
    requires front != []
    ensures LastOr(front[1..], front[0]) == LastOr(front, preceding)
  {
  }

  lemma SkipTail(m: Matcher, s: string, front: string, rest: string)
    requires s == front + rest && |front| == Skip(m, s) && front != []
    ensures s != [] && m(s) == 0 && s[0] == front[0] && s[1..] == front[1..] + rest
    ensures |front[1..]| == Skip(m, s[1..])
  {
  }

  lemma {:induction false} WrapSkips(m: Matcher, preceding: char, s: string, front: string, rest: string)
    requires s == front + rest && |front| == Skip(m, s)
    ensures Wrap(m, preceding, s) == front + Wrap(m, LastOr(front, preceding), rest)
    decreases |s|
  {
    var wrapped := Wrap(m, LastOr(front, preceding), rest);
    if front == [] {
      assert s == rest && front + wrapped == wrapped;
    } else {
      SkipTail(m, s, front, rest);
      WrapPlain(m, preceding, s);
      WrapSkips(m, front[0], s[1..], front[1..], rest);
      LastOrTail(front, preceding);
      Uncons(front, wrapped);
    }
  }

  function Before(text: string, i: nat): char
    requires i <= |text|
  {
    if i > 0 then text[i - 1] else ' '
  }

  /** What is still to come when the text is scanned up to `i`. */
  function Rest(m: Matcher, text: string, i: nat): string
    requires i <= |text|
  {
    Wrap(m, Before(text, i), text[i..])
  }

  lemma RestSkips(m: Matcher, text: string, pos: nat, start: nat)
    requires pos <= start <= |text| && start - pos == Skip(m, text[pos..])
    ensures Rest(m, text, pos) == text[pos..start] + Rest(m, text, start)
  {
    assert text[pos..] == text[pos..start] + text[start..];
    WrapSkips(m, Before(text, pos), text[pos..], text[pos..start], text[start..]);
    assert LastOr(text[pos..start], Before(text, pos)) == Before(text, start);
  }

  lemma RestMatches(m: Matcher, text: string, start: nat, end: nat)
    requires start < end <= |text| && end - start == m(text[start..])
    ensures Rest(m, text, start) == Shown(Before(text, start), text[start..end]) + Rest(m, text, end)
  {
    var u := text[start..];
    WrapMatch(m, Before(text, start), u, end - start);
    assert u[..end - start] == text[start..end] && u[end - start..] == text[end..];
  }

  lemma MatchesAt(m: Matcher, text: string, pos: nat)
    requires pos <= |text| && FindAt(m, text, pos).Some?
    ensures var start := FindAt(m, text, pos).value; m(text[start..]) > 0
  {
    var n := Skip(m, text[pos..]);
    SkipStops(m, text[pos..], n);
    assert text[pos..][n..] == text[pos + n..];
  }

  lemma RestTurn(m: Matcher, text: string, pos: nat, start: nat, end: nat)
    requires pos <= start < end <= |text|
    requires start - pos == Skip(m, text[pos..]) && end - start == m(text[start..])
    ensures Rest(m, text, pos)
         == text[pos..start] + (Shown(Before(text, start), text[start..end]) + Rest(m, text, end))
  {
    RestSkips(m, text, pos, start);
    RestMatches(m, text, start, end);
  }

  /** One turn of the loop, for the text written and the text held back. */
  lemma Turn(text: string, result: string, lastEnd: nat, pos: nat, start: nat, shown: string, rest: string)
    requires lastEnd <= pos <= start <= |text|
    ensures result + (text[lastEnd..pos] + (text[pos..start] + (shown + rest)))
         == result + text[lastEnd..start] + shown + rest
  {
    assert text[lastEnd..start] == text[lastEnd..pos] + text[pos..start];
    Assemble(result, text[lastEnd..pos], text[pos..start], shown, rest);
  }

  lemma Assemble(result: string, held: string, skipped: string, shown: string, rest: string)
    ensures result + (held + (skipped + (shown + rest))) == result + (held + skipped) + shown + rest
  {
  }

  lemma Hold(text: string, result: string, lastEnd: nat, start: nat, end: nat, rest: string)
    requires lastEnd <= start <= end <= |text|
    ensures result + text[lastEnd..start] + text[start..end] + rest == result + (text[lastEnd..end] + rest)
  {
    assert text[lastEnd..end] == text[lastEnd..start] + text[start..end];
  }

  lemma WrapEnds(m: Matcher, text: string, pos: nat)
    requires pos <= |text| && FindAt(m, text, pos).None?
    ensures Rest(m, text, pos) == text[pos..]
  {
    RestSkips(m, text, pos, |text|);
    assert text[pos..|text|] == text[pos..];
  }

  /** What is held back and what is still to come. */
  ghost function Left(m: Matcher, text: string, lastEnd: nat, pos: nat): string
    requires lastEnd <= pos <= |text|
  {
    text[lastEnd..pos] + Rest(m, text, pos)
  }

  /** The loop body: a match is wrapped, or held back when it is shielded. */
  method WrapOne(m: Matcher, text: string, before: string, lastEnd: nat, pos: nat, start: nat)
    returns (result: string, heldFrom: nat, end: nat)
    requires lastEnd <= pos <= |text| && FindAt(m, text, pos) == Some(start)
    ensures heldFrom <= end <= |text| && pos < end
    ensures result + Left(m, text, heldFrom, end) == before + Left(m, text, lastEnd, pos)
  {
    MatchesAt(m, text, pos);
    end := start + m(text[start..]);
    RestTurn(m, text, pos, start, end);
    Turn(text, before, lastEnd, pos, start, Shown(Before(text, start), text[start..end]), Rest(m, text, end));
    var preceding := if start > 0 then text[start - 1] else ' ';
    if preceding == '(' || preceding == '<' {
      Hold(text, before, lastEnd, start, end, Rest(m, text, end));
      return before, lastEnd, end;
    }
    result := before + text[lastEnd..start] + ("<" + text[start..end] + ">");
    heldFrom := end;
    assert Left(m, text, end, end) == Rest(m, text, end);
  }

  method WrapMatches(m: Matcher, text: string) returns (result: string)
    ensures result == Wrap(m, ' ', text)
  {
    result := "";
    var lastEnd := 0;
    var pos := 0;
    var mat := FindAt(m, text, 0);
    ghost var all := Wrap(m, ' ', text);
    assert text[0..] == text;
    assert result + Left(m, text, 0, 0) == all;
    while mat.Some?
      invariant 0 <= lastEnd <= pos <= |text|
      invariant mat == FindAt(m, text, pos)
      invariant all == result + Left(m, text, lastEnd, pos)
      decreases |text| - pos
    {
      result, lastEnd, pos := WrapOne(m, text, result, lastEnd, pos, mat.value);
      mat := FindAt(m, text, pos);
    }
    WrapEnds(m, text, pos);
    assert text[lastEnd..pos] + text[pos..] == text[lastEnd..];
    result := result + text[lastEnd..];
  }

  method WrapBareUrls(text: string) returns (result: string)
    ensures result == WrapUrls(text)
  {
    result := WrapMatches(UrlLen, text);
  }

  // ----- The last pass over all pages (src/docs/mod.rs) -----

  /** What becomes of the content of one page. */
  function Pass(text: string): string {
    EndLine(WrapUrls(text))
  }

  method PassOver(pages: array<string>)
    modifies pages
    ensures forall i | 0 <= i < pages.Length :: pages[i] == Pass(old(pages[i]))
  {
    for i := 0 to pages.Length
      invariant forall j | 0 <= j < i :: pages[j] == Pass(old(pages[j]))
      invariant forall j | i <= j < pages.Length :: pages[j] == old(pages[j])
    {
      pages[i] := WrapBareUrls(pages[i]);
      if !LastIs(pages[i], '\n') {
        pages[i] := pages[i] + "\n";
      }
    }
  }
}
