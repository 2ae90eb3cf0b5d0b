/** Restoring initialisms in PascalCase names (src/codegen/naming.rs): a greedy rewriter that
    replaces the longest run of words spelling a known initialism by its canonical form. */
module Initialisms {
  import opened Text

  const GO_A_TO_G: seq<string> := [
    "API", "ASCII", "CPU", "CSS", "DNS", "EOF", "FTP", "GID", "GraphQL", "GUI"
  ]

  const GO_H_TO_L: seq<string> := ["HTML", "HTTP", "HTTPS", "ID", "IMAP", "IP", "JSON", "LHS"]

  const GO_M_TO_S: seq<string> := [
    "MFA", "POP", "QPS", "RAM", "RHS", "RPC", "SLA", "SMTP", "SQL", "SSH", "SSL"
  ]

  const GO_T_TO_X: seq<string> := [
    "TCP", "TLS", "TTL", "UDP", "UI", "UID", "UUID", "URI", "URL", "UTF8", "VM", "XML", "XMPP", "XSRF", "XSS"
  ]

  const GO_INITIALISMS: seq<string> := GO_A_TO_G + GO_H_TO_L + GO_M_TO_S + GO_T_TO_X

  const CSHARP_INITIALISMS: seq<string> := ["GraphQL", "UUID"]

  /** The first entry that spells the candidate, ignoring ASCII case. */
  function Lookup(list: seq<string>, candidate: string): Option<string> {
    if list == [] then None
    else if Upper(list[0]) == Upper(candidate) then Some(list[0])
    else Lookup(list[1..], candidate)
  }

  // ----- Specification on the text -----

  /** A word can end before an uppercase letter and at the end of the text. */
  predicate IsEnd(s: string, q: nat) {
    1 <= q <= |s| && (q == |s| || IsUpper(s[q]))
  }

  /** The longest prefix of at most `q` characters that ends a word and spells an initialism. */
  function LongestMatch(s: string, list: seq<string>, q: nat): (r: Option<nat>)
    requires q <= |s|
    ensures r.Some? ==> r.value <= q && IsEnd(s, r.value) && Lookup(list, s[..r.value]).Some?
  {
    if q == 0 then None
    else if IsEnd(s, q) && Lookup(list, s[..q]).Some? then Some(q)
    else LongestMatch(s, list, q - 1)
  }

  function FirstEndFrom(s: string, q: nat): (r: nat)
    requires 1 <= q <= |s|
    ensures q <= r <= |s| && IsEnd(s, r)
    ensures forall p | q <= p < r :: !IsEnd(s, p)
    decreases |s| - q
  {
    if IsEnd(s, q) then q else FirstEndFrom(s, q + 1)
  }

  function Rewrite(s: string, list: seq<string>): string
    decreases |s|
  {
    if s == [] then []
    else match LongestMatch(s, list, |s|)
      case Some(q) => Lookup(list, s[..q]).value + Rewrite(s[q..], list)
      case None => s[..FirstEndFrom(s, 1)] + Rewrite(s[FirstEndFrom(s, 1)..], list)
  }

  // ----- The operation: on a list of words -----

  /** A word of a PascalCase name: uppercase letters only at its start. */
  predicate IsWord(w: string) {
    w != [] && forall i | 1 <= i < |w| :: !IsUpper(w[i])
  }

  ghost predicate AreWords(words: seq<string>) {
    && (forall k | 0 <= k < |words| :: IsWord(words[k]))
    && forall k | 1 <= k < |words| :: IsUpper(words[k][0])
  }

  method SplitWords(name: string) returns (words: seq<string>)
    requires name != []
    ensures AreWords(words) && words != [] && Concat(words) == name
  {
    words := [];
    var wordStart := 0;
    for i := 1 to |name|
      invariant wordStart < i
      invariant AreWords(words) && Concat(words) == name[..wordStart]
      invariant forall j | wordStart < j < i :: !IsUpper(name[j])
      invariant wordStart > 0 ==> words != [] && IsUpper(name[wordStart])
      invariant wordStart == 0 ==> words == []
    {
      if IsUpper(name[i]) {
        ConcatSnoc(words, name[wordStart..i]);
        words := words + [name[wordStart..i]];
        wordStart := i;
      }
    }
    ConcatSnoc(words, name[wordStart..]);
    words := words + [name[wordStart..]];
  }

  /** The longest span of words, at most `span`, that spells an initialism. */
  function LongestSpan(words: seq<string>, list: seq<string>, span: nat): (r: Option<nat>)
    requires span <= |words|
    ensures r.Some? ==> 1 <= r.value <= span && Lookup(list, Concat(words[..r.value])).Some?
  {
    if span == 0 then None
    else if Lookup(list, Concat(words[..span])).Some? then Some(span)
    else LongestSpan(words, list, span - 1)
  }

  /** The inner loop: from all remaining words down, the first span that is listed. */
  method SpanFrom(words: seq<string>, i: nat, list: seq<string>) returns (span: nat)
    requires i <= |words|
    ensures i + span <= |words|
    ensures LongestSpan(words[i..], list, |words[i..]|) == if span > 0 then Some(span) else None
  {
    span := |words| - i;
    ghost var rest := words[i..];
    while span > 0 && Lookup(list, Concat(words[i..i + span])).None?
      invariant 0 <= span <= |words| - i
      invariant LongestSpan(rest, list, |rest|) == LongestSpan(rest, list, span)
    {
      assert words[i..i + span] == rest[..span];
      span := span - 1;
    }
    assert words[i..i + span] == rest[..span];
  }

  /** What a turn of the outer loop writes for a listed span, and the words it leaves. */
  lemma RewriteHit(words: seq<string>, i: nat, span: nat, list: seq<string>)
    requires i < |words| && 0 < span && i + span <= |words| && AreWords(words[i..])
    requires LongestSpan(words[i..], list, |words[i..]|) == Some(span)
    ensures var found := Lookup(list, Concat(words[i..i + span]));
      found.Some? && Rewrite(Concat(words[i..]), list) == found.value + Rewrite(Concat(words[i + span..]), list)
  {
    var rest := words[i..];
    RewriteByWords(rest, list);
    assert words[i..i + span] == rest[..span] && words[i + span..] == rest[span..];
  }

  /** And for a word that starts no listed span. */
  lemma RewriteMiss(words: seq<string>, i: nat, list: seq<string>)
    requires i < |words| && AreWords(words[i..])
    requires LongestSpan(words[i..], list, |words[i..]|).None?
    ensures Rewrite(Concat(words[i..]), list) == words[i] + Rewrite(Concat(words[i + 1..]), list)
  {
    var rest := words[i..];
    RewriteByWords(rest, list);
    assert words[i + 1..] == rest[1..];
  }

  lemma TailsAreWords(words: seq<string>, i: nat)
    requires AreWords(words) && i <= |words|
    ensures AreWords(words[i..])
  {
  }

  /** One turn of the outer loop: what it writes and where it goes on. */
  method NextPiece(words: seq<string>, i: nat, list: seq<string>) returns (piece: string, next: nat)
    requires i < |words| && AreWords(words)
    ensures i < next <= |words|
    ensures Rewrite(Concat(words[i..]), list) == piece + Rewrite(Concat(words[next..]), list)
  {
    var span := SpanFrom(words, i, list);
    TailsAreWords(words, i);
    if span > 0 {
      var found := Lookup(list, Concat(words[i..i + span]));
      RewriteHit(words, i, span, list);
      piece := found.value;
      next := i + span;
    } else {
      RewriteMiss(words, i, list);
      piece := words[i];
      next := i + 1;
    }
  }

  method ApplyInitialisms(name: string, list: seq<string>) returns (result: string)
    ensures result == Rewrite(name, list)
  {
    if name == "" { return name; }
    var words := SplitWords(name);
    result := "";
    var i := 0;
    ghost var rest := Rewrite(name, list);
    assert words[0..] == words;
    while i < |words|
      invariant 0 <= i <= |words|
      invariant rest == Rewrite(Concat(words[i..]), list)
      invariant result + rest == Rewrite(name, list)
    {
      var piece, next := NextPiece(words, i, list);
      rest := Rewrite(Concat(words[next..]), list);
      Associate(result, piece, rest);
      result := result + piece;
      i := next;
    }
    assert words[|words|..] == [];
  }

  // ----- Words and word ends -----

  lemma ConcatSplit(words: seq<string>, k: nat)
    requires k <= |words|
    ensures Concat(words) == Concat(words[..k]) + Concat(words[k..])
  {
    var front, rest := words[..k], words[k..];
    ConcatAppend(front, rest);
    assert words == front + rest;
  }

  /** Inside word `k` no word ends; at its end one does. */
  lemma EndsOfWord(words: seq<string>, k: nat)
    requires AreWords(words) && 1 <= k <= |words|
    ensures var s := Concat(words); var a, b := |Concat(words[..k - 1])|, |Concat(words[..k])|;
      && a < b <= |s| && IsEnd(s, b) && s[..b] == Concat(words[..k])
      && forall q | a < q < b :: !IsEnd(s, q)
  {
    var s := Concat(words);
    var w := words[k - 1];
    ConcatSplit(words, k);
    ConcatSnoc(words[..k - 1], w);
    assert words[..k] == words[..k - 1] + [w];
    var a, b := |Concat(words[..k - 1])|, |Concat(words[..k])|;
    assert forall q | a <= q < b :: s[q] == w[q - a];
    if k < |words| {
      assert words[k..][0] == words[k];
      assert s[b] == words[k][0];
    } else {
      assert Concat(words[k..]) == [];
    }
  }

  lemma {:induction false} MatchSkips(s: string, list: seq<string>, a: nat, b: nat)
    requires a <= b <= |s| && forall q | a < q <= b :: !IsEnd(s, q)
    ensures LongestMatch(s, list, b) == LongestMatch(s, list, a)
  {
    if a < b { MatchSkips(s, list, a, b - 1); }
  }

  function TextLength(words: seq<string>, span: Option<nat>): Option<nat>
    requires span.Some? ==> span.value <= |words|
  {
    match span
    case Some(k) => Some(|Concat(words[..k])|)
    case None => None
  }

  /** Between the end of one word and the end of the next only the latter can match. */
  lemma MatchWord(words: seq<string>, list: seq<string>, k: nat, a: nat, b: nat)
    requires AreWords(words) && 1 <= k <= |words|
    requires a == |Concat(words[..k - 1])| && b == |Concat(words[..k])|
    ensures a < b <= |Concat(words)|
    ensures LongestMatch(Concat(words), list, b)
         == if Lookup(list, Concat(words[..k])).Some? then Some(b) else LongestMatch(Concat(words), list, a)
  {
    EndsOfWord(words, k);
    MatchSkips(Concat(words), list, a, b - 1);
  }

  lemma {:induction false} MatchBySpan(words: seq<string>, list: seq<string>, span: nat)
    requires AreWords(words) && span <= |words|
    ensures |Concat(words[..span])| <= |Concat(words)|
    ensures LongestMatch(Concat(words), list, |Concat(words[..span])|)
         == TextLength(words, LongestSpan(words, list, span))
  {
    if span > 0 {
      MatchBySpan(words, list, span - 1);
      MatchWord(words, list, span, |Concat(words[..span - 1])|, |Concat(words[..span])|);
    }
  }

  /** One step of the word loop is one step of the rewriting on the text. */
  lemma RewriteByWords(words: seq<string>, list: seq<string>)
    requires AreWords(words) && words != []
    ensures match LongestSpan(words, list, |words|)
      case Some(k) =>
        Rewrite(Concat(words), list) == Lookup(list, Concat(words[..k])).value + Rewrite(Concat(words[k..]), list)
      case None => Rewrite(Concat(words), list) == words[0] + Rewrite(Concat(words[1..]), list)
  {
    var s := Concat(words);
    assert words[..|words|] == words;
    MatchBySpan(words, list, |words|);
    match LongestSpan(words, list, |words|)
    case Some(k) =>
      ConcatSplit(words, k);
      EndsOfWord(words, k);
    case None =>
      EndsOfWord(words, 1);
      assert words[..1] == [words[0]];
      assert Concat([words[0]]) == words[0] + [];
      assert Concat(words[..0]) == [];
      ConcatSplit(words, 1);
  }
}
