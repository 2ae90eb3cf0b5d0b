/** What rewriting initialisms conserves, and for which lists doing it twice is doing it once. */
module InitialismsLaws {
  import opened Text
  import opened Initialisms

  // ----- Conservation -----

  lemma {:induction false} LookupSpells(list: seq<string>, candidate: string)
    requires Lookup(list, candidate).Some?
    ensures Lookup(list, candidate).value in list
    ensures Upper(Lookup(list, candidate).value) == Upper(candidate)
  {
    if Upper(list[0]) != Upper(candidate) { LookupSpells(list[1..], candidate); }
  }

  lemma UpperAppend(a: string, b: string)
    ensures Upper(a + b) == Upper(a) + Upper(b)
  {
  }

  /** The head of one rewriting step. */
  function HeadEnd(s: string, list: seq<string>): (q: nat)
    requires s != []
    ensures 1 <= q <= |s| && IsEnd(s, q)
  {
    var m := LongestMatch(s, list, |s|);
    if m.Some? then m.value else FirstEndFrom(s, 1)
  }

  function Head(s: string, list: seq<string>): string
    requires s != []
  {
    var m := LongestMatch(s, list, |s|);
    if m.Some? then Lookup(list, s[..m.value]).value else s[..FirstEndFrom(s, 1)]
  }

  lemma RewriteSplit(s: string, list: seq<string>)
    requires s != []
    ensures var q := HeadEnd(s, list);
      Rewrite(s, list) == Head(s, list) + Rewrite(s[q..], list) && Upper(Head(s, list)) == Upper(s[..q])
  {
    var m := LongestMatch(s, list, |s|);
    if m.Some? { LookupSpells(list, s[..m.value]); }
  }

  lemma UpperLength(a: string, b: string)
    requires Upper(a) == Upper(b)
    ensures |a| == |b|
  {
    assert |Upper(a)| == |a| && |Upper(b)| == |b|;
  }

  /** The rewriter changes letter case only. */
  lemma {:induction false} RewriteConserves(s: string, list: seq<string>)
    ensures Upper(Rewrite(s, list)) == Upper(s) && |Rewrite(s, list)| == |s|
    decreases |s|
  {
    if s != [] {
      var q := HeadEnd(s, list);
      var front, rest := s[..q], s[q..];
      RewriteSplit(s, list);
      RewriteConserves(rest, list);
      UpperAppend(Head(s, list), Rewrite(rest, list));
      UpperAppend(front, rest);
      assert s == front + rest;
    }
    UpperLength(Rewrite(s, list), s);
  }

  // ----- Lists for which the rewriter is idempotent -----

  ghost predicate DistinctSpellings(list: seq<string>) {
    forall i, j | 0 <= i < j < |list| :: Upper(list[i]) != Upper(list[j])
  }

  /** No entry is a proper prefix of another one. */
  ghost predicate PrefixFree(list: seq<string>) {
    forall x, y | x in list && y in list && Upper(x) <= Upper(y) :: |x| == |y|
  }

  /** No proper, non-empty prefix of an entry is a proper suffix of an entry. */
  ghost predicate OverlapFree(list: seq<string>) {
    forall x, y, k | x in list && y in list && 0 < k < |x| && k < |y| :: Upper(x)[..k] != Upper(y)[|y| - k..]
  }

  ghost predicate StartUpper(list: seq<string>) {
    forall x | x in list :: x != [] && IsUpper(x[0])
  }

  ghost predicate Stable(list: seq<string>) {
    DistinctSpellings(list) && PrefixFree(list) && OverlapFree(list) && StartUpper(list)
  }

  lemma {:induction false} LookupOfEntry(list: seq<string>, x: string)
    requires DistinctSpellings(list) && x in list
    ensures Lookup(list, x) == Some(x)
  {
    if Upper(list[0]) == Upper(x) {
      var i :| 0 <= i < |list| && list[i] == x;
    } else {
      LookupOfEntry(list[1..], x);
    }
  }

  lemma {:induction false} LookupBySpelling(list: seq<string>, a: string, b: string)
    requires Upper(a) == Upper(b)
    ensures Lookup(list, a) == Lookup(list, b)
  {
    if list != [] { LookupBySpelling(list[1..], a, b); }
  }

  lemma {:induction false} LongestMatchIs(s: string, list: seq<string>, q: nat)
    requires q <= |s|
    ensures var m := LongestMatch(s, list, q);
      forall p | 1 <= p <= q && IsEnd(s, p) && Lookup(list, s[..p]).Some? :: m.Some? && p <= m.value
  {
    if q > 0 { LongestMatchIs(s, list, q - 1); }
  }

  lemma {:induction false} LongestMatchAt(s: string, list: seq<string>, q: nat, p: nat)
    requires 1 <= p <= q <= |s| && IsEnd(s, p) && Lookup(list, s[..p]).Some?
    requires forall r | p < r <= q && IsEnd(s, r) :: Lookup(list, s[..r]).None?
    ensures LongestMatch(s, list, q) == Some(p)
  {
    if q > p { LongestMatchAt(s, list, q - 1, p); }
  }

  lemma {:induction false} NoMatch(s: string, list: seq<string>, q: nat)
    requires q <= |s| && forall r | 1 <= r <= q && IsEnd(s, r) :: Lookup(list, s[..r]).None?
    ensures LongestMatch(s, list, q).None?
  {
    if q > 0 { NoMatch(s, list, q - 1); }
  }

  lemma HeadIs(s: string, list: seq<string>)
    requires s != []
    ensures Rewrite(s, list) == Head(s, list) + Rewrite(s[HeadEnd(s, list)..], list)
    ensures |Head(s, list)| == HeadEnd(s, list) && Upper(Head(s, list)) == Upper(s[..HeadEnd(s, list)])
  {
    var m := LongestMatch(s, list, |s|);
    if m.Some? {
      LookupSpells(list, s[..m.value]);
      assert |Upper(Head(s, list))| == |Upper(s[..m.value])|;
    }
  }

  lemma RewriteStartsUpper(s: string, list: seq<string>)
    requires StartUpper(list) && s != [] && IsUpper(s[0])
    ensures Rewrite(s, list) != [] && IsUpper(Rewrite(s, list)[0])
  {
    HeadIs(s, list);
    var m := LongestMatch(s, list, |s|);
    if m.Some? { LookupSpells(list, s[..m.value]); }
  }

  /** After the head the rewritten text goes on with a word start, if at all. */
  lemma HeadEndInOutput(s: string, list: seq<string>)
    requires StartUpper(list) && s != []
    ensures IsEnd(Rewrite(s, list), HeadEnd(s, list))
  {
    var q := HeadEnd(s, list);
    HeadIs(s, list);
    RewriteConserves(s[q..], list);
    if s[q..] != [] {
      assert s[q..][0] == s[q];
      RewriteStartsUpper(s[q..], list);
      assert Rewrite(s, list)[q] == Rewrite(s[q..], list)[0];
    }
  }

  /** A place inside entry `x`, which the text spells out from `p` on, with `q` strictly inside. */
  ghost predicate InsideEntry(u: string, list: seq<string>, q: nat, p: nat, x: string) {
    && x in list && p < q < p + |x| <= |u|
    && Upper(u[p..p + |x|]) == Upper(x)
  }

  ghost predicate EndInEntry(u: string, list: seq<string>, q: nat) {
    exists p: nat, x: string :: InsideEntry(u, list, q, p, x)
  }

  /** A word end of the rewritten text is one of the original text or lies inside an entry. */
  lemma {:induction false} EndsOfOutput(s: string, list: seq<string>, q: nat)
    requires StartUpper(list) && IsEnd(Rewrite(s, list), q)
    ensures IsEnd(s, q) || EndInEntry(Rewrite(s, list), list, q)
    decreases |s|
  {
    RewriteConserves(s, list);
    var h := HeadEnd(s, list);
    if q < h {
      EndInHead(s, list, q);
    } else if q > h {
      EndInRest(s, list, q);
      EndsOfOutput(s[h..], list, q - h);
      EndBackInWhole(s, list, q);
    }
  }

  lemma EndInRest(s: string, list: seq<string>, q: nat)
    requires s != [] && HeadEnd(s, list) < q && IsEnd(Rewrite(s, list), q)
    ensures IsEnd(Rewrite(s[HeadEnd(s, list)..], list), q - HeadEnd(s, list))
  {
    var h := HeadEnd(s, list);
    HeadIs(s, list);
    var u, rest := Rewrite(s, list), Rewrite(s[h..], list);
    assert |u| == h + |rest|;
    assert q < |u| ==> u[q] == rest[q - h];
  }

  lemma EndBackInWhole(s: string, list: seq<string>, q: nat)
    requires s != [] && HeadEnd(s, list) < q <= |s|
    requires var h := HeadEnd(s, list);
      IsEnd(s[h..], q - h) || EndInEntry(Rewrite(s[h..], list), list, q - h)
    ensures IsEnd(s, q) || EndInEntry(Rewrite(s, list), list, q)
  {
    var h := HeadEnd(s, list);
    HeadIs(s, list);
    var u, rest := Rewrite(s, list), Rewrite(s[h..], list);
    if EndInEntry(rest, list, q - h) {
      var j: nat := q - h;
      var p: nat, x: string :| InsideEntry(rest, list, j, p, x);
      assert u[h + p..h + p + |x|] == rest[p..p + |x|];
      assert InsideEntry(u, list, q, h + p, x);
    } else {
      assert q < |s| ==> s[q] == s[h..][q - h];
    }
  }

  lemma EndInHead(s: string, list: seq<string>, q: nat)
    requires s != [] && 1 <= q < HeadEnd(s, list) && IsEnd(Rewrite(s, list), q)
    ensures IsEnd(s, q) || EndInEntry(Rewrite(s, list), list, q)
  {
    var h := HeadEnd(s, list);
    HeadIs(s, list);
    var u := Rewrite(s, list);
    var m := LongestMatch(s, list, |s|);
    if m.Some? {
      LookupSpells(list, s[..h]);
      var x := Head(s, list);
      assert u[0..0 + |x|] == x;
      assert InsideEntry(u, list, q, 0, x);
    } else {
      assert u[q] == s[q];
    }
  }

  // ----- Idempotence -----

  lemma {:induction false} LookupAny(list: seq<string>, x: string, candidate: string)
    requires x in list && Upper(x) == Upper(candidate)
    ensures Lookup(list, candidate).Some?
  {
    if Upper(list[0]) != Upper(candidate) { LookupAny(list[1..], x, candidate); }
  }

  lemma UpperSlice(s: string, a: nat, b: nat)
    requires a <= b <= |s|
    ensures Upper(s[a..b]) == Upper(s)[a..b]
  {
  }

  /** After an entry was written, it is the longest match at that place. */
  lemma EntryMatchesAgain(s: string, list: seq<string>)
    requires Stable(list) && s != [] && LongestMatch(s, list, |s|).Some?
    ensures var u := Rewrite(s, list); var h := HeadEnd(s, list);
      && |u| == |s| && LongestMatch(u, list, |u|) == Some(h)
      && Lookup(list, u[..h]) == Some(Head(s, list)) && u[h..] == Rewrite(s[h..], list)
  {
    var u, h, x := Rewrite(s, list), HeadEnd(s, list), Head(s, list);
    RewriteConserves(s, list);
    HeadIs(s, list);
    HeadEndInOutput(s, list);
    LookupSpells(list, s[..h]);
    assert u[..h] == x && u[h..] == Rewrite(s[h..], list);
    LookupOfEntry(list, x);
    forall r | h < r <= |u| && IsEnd(u, r) ensures Lookup(list, u[..r]).None? {
      LongerIsNoEntry(list, u, h, r);
    }
    LongestMatchAt(u, list, |u|, h);
  }

  lemma LongerEntry(list: seq<string>, u: string, h: nat, r: nat)
    requires 0 < h < r <= |u| && u[..h] in list && Lookup(list, u[..r]).Some?
    ensures !PrefixFree(list)
  {
    LookupSpells(list, u[..r]);
    var y := Lookup(list, u[..r]).value;
    UpperSlice(u, 0, h);
    UpperSlice(u, 0, r);
    assert Upper(u[..h]) <= Upper(y);
    assert |Upper(y)| == r;
  }

  lemma LongerIsNoEntry(list: seq<string>, u: string, h: nat, r: nat)
    requires PrefixFree(list) && 0 < h < r <= |u| && u[..h] in list
    ensures Lookup(list, u[..r]).None?
  {
    if Lookup(list, u[..r]).Some? { LongerEntry(list, u, h, r); }
  }

  /** A word that was kept is kept again: a match from its start would have been one before,
      or would overlap an entry written later. */
  lemma NoNewMatch(s: string, list: seq<string>, r: nat)
    requires Stable(list) && s != [] && LongestMatch(s, list, |s|).None?
    requires 1 <= r && IsEnd(Rewrite(s, list), r)
    ensures Lookup(list, Rewrite(s, list)[..r]).None?
  {
    var u := Rewrite(s, list);
    RewriteConserves(s, list);
    LongestMatchIs(s, list, |s|);
    EndsOfOutput(s, list, r);
    UpperSlice(s, 0, r);
    UpperSlice(u, 0, r);
    LookupBySpelling(list, u[..r], s[..r]);
    if IsEnd(s, r) {
    } else if Lookup(list, u[..r]).Some? {
      var p: nat, x: string :| InsideEntry(u, list, r, p, x);
      LookupSpells(list, u[..r]);
      Overlap(list, u, r, p, x, Lookup(list, u[..r]).value);
    }
  }

  /** An entry that ends strictly inside another one contradicts the list conditions. */
  lemma Overlap(list: seq<string>, u: string, r: nat, p: nat, x: string, y: string)
    requires InsideEntry(u, list, r, p, x)
    requires y in list && r <= |u| && Upper(y) == Upper(u[..r])
    ensures !OverlapFree(list) || !PrefixFree(list)
  {
    var k := r - p;
    UpperSlice(u, p, p + |x|);
    UpperSlice(u, 0, r);
    assert |Upper(y)| == |y| == r;
    if p == 0 {
      assert Upper(y) <= Upper(x);
    } else {
      assert Upper(x)[..k] == Upper(u)[p..r];
      assert Upper(y)[r - k..] == Upper(u)[p..r];
    }
  }

  /** For such lists the rewriter is idempotent, although the canonical forms may split into
      other words than the text they replace. */
  lemma {:induction false} RewriteIdempotent(s: string, list: seq<string>)
    requires Stable(list)
    ensures Rewrite(Rewrite(s, list), list) == Rewrite(s, list)
    decreases |s|
  {
    if s != [] {
      var u, h := Rewrite(s, list), HeadEnd(s, list);
      RewriteIdempotent(s[h..], list);
      HeadIs(s, list);
      if LongestMatch(s, list, |s|).Some? {
        EntryMatchesAgain(s, list);
      } else {
        KeptWordAgain(s, list);
      }
    }
  }

  lemma KeptWordAgain(s: string, list: seq<string>)
    requires Stable(list) && s != [] && LongestMatch(s, list, |s|).None?
    ensures var u := Rewrite(s, list); var h := HeadEnd(s, list);
      && |u| == |s| && LongestMatch(u, list, |u|).None?
      && FirstEndFrom(u, 1) == h && u[..h] == Head(s, list) && u[h..] == Rewrite(s[h..], list)
  {
    var u, h := Rewrite(s, list), HeadEnd(s, list);
    RewriteConserves(s, list);
    HeadIs(s, list);
    HeadEndInOutput(s, list);
    forall r | 1 <= r <= |u| && IsEnd(u, r) ensures Lookup(list, u[..r]).None? { NoNewMatch(s, list, r); }
    NoMatch(u, list, |u|);
    forall q | 1 <= q < h ensures !IsEnd(u, q) {
      assert u[q] == s[q];
      assert !IsEnd(s, q);
    }
  }

  // ----- The lists in use -----

  /** No letter of `x` before its last is the last letter of `y`. */
  predicate EndsApart(x: string, y: string) {
    y != [] && forall i | 0 <= i < |x| - 1 :: ToUpper(x[i]) != ToUpper(y[|y| - 1])
  }

  lemma NoOverlap(x: string, y: string, k: nat)
    requires EndsApart(x, y) && 0 < k < |x| && k < |y|
    ensures Upper(x)[..k] != Upper(y)[|y| - k..]
  {
    assert Upper(x)[..k][k - 1] == ToUpper(x[k - 1]);
    assert Upper(y)[|y| - k..][k - 1] == ToUpper(y[|y| - 1]);
  }

  lemma PairStable(list: seq<string>, x: string, y: string)
    requires list == [x, y] && x != [] && y != [] && IsUpper(x[0]) && IsUpper(y[0])
    requires ToUpper(x[0]) != ToUpper(y[0])
    requires EndsApart(x, x) && EndsApart(x, y) && EndsApart(y, x) && EndsApart(y, y)
    ensures Stable(list)
  {
    assert forall z :: z in list <==> z == x || z == y;
    assert Upper(x)[0] != Upper(y)[0];
    forall a, b, k | a in list && b in list && 0 < k < |a| && k < |b|
      ensures Upper(a)[..k] != Upper(b)[|b| - k..] {
      NoOverlap(a, b, k);
    }
  }

  lemma CsharpListStable()
    ensures Stable(CSHARP_INITIALISMS)
  {
    var g, u := "GraphQL", "UUID";
    assert EndsApart(g, g) && EndsApart(g, u);
    assert EndsApart(u, g) && EndsApart(u, u);
    PairStable(CSHARP_INITIALISMS, g, u);
  }

  /** What the example below needs to know about the entries of the Go list. */
  predicate GoEntry(x: string) {
    && |x| >= 2
    && (ToUpper(x[0]) == 'U' && ToUpper(x[1]) == 'R' ==> |x| == 3 && (ToUpper(x[2]) == 'L' ==> x == "URL"))
    && (ToUpper(x[0]) == 'H' ==> |x| >= 4)
    && (ToUpper(x[0]) == 'L' ==> x == "LHS")
  }

  lemma GoEntriesAToL()
    ensures forall x | x in GO_A_TO_G || x in GO_H_TO_L :: GoEntry(x)
    ensures "LHS" in GO_H_TO_L
  {
  }

  lemma GoEntriesMToS()
    ensures forall x | x in GO_M_TO_S :: GoEntry(x)
  {
  }

  lemma GoEntriesTToX()
    ensures forall x | x in GO_T_TO_X :: GoEntry(x)
    ensures "URL" in GO_T_TO_X
  {
  }

  ghost predicate GoLike(list: seq<string>) {
    (forall x | x in list :: GoEntry(x)) && "LHS" in list && "URL" in list
  }

  lemma FoundEntry(list: seq<string>, c: string)
    requires GoLike(list) && Lookup(list, c).Some?
    ensures var x := Lookup(list, c).value;
      GoEntry(x) && |x| == |c| && forall i | 0 <= i < |x| :: ToUpper(x[i]) == ToUpper(c[i])
  {
    LookupSpells(list, c);
    var x := Lookup(list, c).value;
    assert |Upper(x)| == |Upper(c)|;
    forall i | 0 <= i < |x| ensures ToUpper(x[i]) == ToUpper(c[i]) {
      assert Upper(x)[i] == Upper(c)[i];
    }
  }

  lemma NotFound(list: seq<string>, c: string)
    requires GoLike(list)
    requires |c| < 2 || (|c| < 4 && ToUpper(c[0]) == 'H') || (|c| != 3 && ToUpper(c[0]) == 'U' && ToUpper(c[1]) == 'R')
    ensures Lookup(list, c).None?
  {
    if Lookup(list, c).Some? { FoundEntry(list, c); }
  }

  lemma FoundLhsAndUrl(list: seq<string>)
    requires GoLike(list)
    ensures Lookup(list, "Lhs") == Some("LHS") && Lookup(list, "UrL") == Some("URL")
  {
    LookupAny(list, "LHS", "Lhs");
    LookupAny(list, "URL", "UrL");
    FoundEntry(list, "Lhs");
    FoundEntry(list, "UrL");
  }

  lemma RewriteLhs(list: seq<string>)
    requires GoLike(list)
    ensures Rewrite("Lhs", list) == "LHS"
  {
    FoundLhsAndUrl(list);
    assert "Lhs"[..3] == "Lhs" && "Lhs"[3..] == "";
    LongestMatchAt("Lhs", list, 3, 3);
    assert Rewrite("", list) == "";
  }

  lemma FirstRun(list: seq<string>)
    requires GoLike(list)
    ensures Rewrite("UrLhs", list) == "UrLHS"
  {
    var s := "UrLhs";
    assert IsEnd(s, 2) && !IsEnd(s, 1) && s[..2] == "Ur" && s[2..] == "Lhs" && s[..5] == s;
    NotFound(list, "Ur");
    NotFound(list, s);
    NoMatch(s, list, 5);
    RewriteLhs(list);
  }

  lemma RewriteHs(list: seq<string>)
    requires GoLike(list)
    ensures Rewrite("HS", list) == "HS"
  {
    NotFound(list, "HS");
    NotFound(list, "H");
    NotFound(list, "S");
    assert "HS"[..2] == "HS" && "HS"[..1] == "H" && "HS"[1..] == "S";
    assert "S"[..1] == "S" && "S"[1..] == "";
    NoMatch("HS", list, 2);
    NoMatch("S", list, 1);
    assert Rewrite("", list) == "";
    assert Rewrite("S", list) == "S";
  }

  lemma SecondRun(list: seq<string>)
    requires GoLike(list)
    ensures Rewrite("UrLHS", list) == "URLHS"
  {
    var s := "UrLHS";
    assert IsEnd(s, 3) && s[..3] == "UrL" && s[3..] == "HS" && s[..4] == "UrLH" && s[..5] == s;
    FoundLhsAndUrl(list);
    NotFound(list, "UrLH");
    NotFound(list, s);
    LongestMatchAt(s, list, 5, 3);
    RewriteHs(list);
  }

  /** For the Go list a second run can find an initialism that the first run created. */
  lemma GoListNotIdempotent()
    ensures Rewrite("UrLhs", GO_INITIALISMS) == "UrLHS"
    ensures Rewrite("UrLHS", GO_INITIALISMS) == "URLHS"
  {
    GoEntriesAToL();
    GoEntriesMToS();
    GoEntriesTToX();
    FirstRun(GO_INITIALISMS);
    SecondRun(GO_INITIALISMS);
  }

  // ----- What is rewritten -----

  /** The first entry that spells `u`. */
  ghost predicate Spells(list: seq<string>, k: nat, u: string) {
    k < |list| && Upper(list[k]) == Upper(u) && forall j | 0 <= j < k :: Upper(list[j]) != Upper(u)
  }

  lemma {:induction false} LookupFirst(list: seq<string>, k: nat, u: string)
    requires Spells(list, k, u)
    ensures Lookup(list, u) == Some(list[k])
  {
    if k > 0 { LookupFirst(list[1..], k - 1, u); }
  }

  lemma {:induction false} LookupNothing(list: seq<string>, u: string)
    requires forall j | 0 <= j < |list| :: Upper(list[j]) != Upper(u)
    ensures Lookup(list, u) == None
  {
    if list != [] { LookupNothing(list[1..], u); }
  }

  /** No prefix of `s` that is longer than `n` and ends in front of a capital or at the end
      spells an entry. */
  ghost predicate NoneLonger(s: string, list: seq<string>, n: nat) {
    forall q, j | n < q <= |s| && (q == |s| || IsUpper(s[q])) && 0 <= j < |list| :: Upper(list[j]) != Upper(s[..q])
  }

  lemma NoneLongerFound(s: string, list: seq<string>, n: nat)
    requires NoneLonger(s, list, n)
    ensures forall r | n < r <= |s| && IsEnd(s, r) :: Lookup(list, s[..r]).None?
  {
    forall r | n < r <= |s| && IsEnd(s, r) ensures Lookup(list, s[..r]).None? { LookupNothing(list, s[..r]); }
  }

  /** The longest such prefix is replaced by the entry it spells first. */
  lemma RewriteListed(u: string, rest: string, list: seq<string>, k: nat)
    requires u != [] && (rest == [] || IsUpper(rest[0])) && Spells(list, k, u)
    requires NoneLonger(u + rest, list, |u|)
    ensures Rewrite(u + rest, list) == list[k] + Rewrite(rest, list)
  {
    var s := u + rest;
    assert s[..|u|] == u && s[|u|..] == rest;
    LookupFirst(list, k, u);
    NoneLongerFound(s, list, |u|);
    LongestMatchAt(s, list, |s|, |u|);
  }

  /** Where none does, the first word stays as it is. */
  lemma RewriteUnlisted(w: string, rest: string, list: seq<string>)
    requires w != [] && (forall i | 1 <= i < |w| :: !IsUpper(w[i])) && (rest == [] || IsUpper(rest[0]))
    requires NoneLonger(w + rest, list, 0)
    ensures Rewrite(w + rest, list) == w + Rewrite(rest, list)
  {
    var s := w + rest;
    NoneLongerFound(s, list, 0);
    NoMatch(s, list, |s|);
    assert forall p | 1 <= p < |w| :: s[p] == w[p];
    assert IsEnd(s, |w|);
    assert FirstEndFrom(s, 1) == |w|;
    assert s[..|w|] == w && s[|w|..] == rest;
  }
}
