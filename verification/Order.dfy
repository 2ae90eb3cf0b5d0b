/** Lexicographic orders and the stable library sort. */
module Order {

  /** Lexicographic order on sequences of numbers. */
  predicate LexLe(a: seq<int>, b: seq<int>) {
    if a == [] then true
    else if b == [] then false
    else a[0] < b[0] || (a[0] == b[0] && LexLe(a[1..], b[1..]))
  }

  lemma LexTotal(a: seq<int>, b: seq<int>)
    ensures LexLe(a, b) || LexLe(b, a)
  {
  }

  lemma LexReflexive(a: seq<int>)
    ensures LexLe(a, a)
  {
  }

  lemma {:induction false} LexAntisymmetric(a: seq<int>, b: seq<int>)
    requires LexLe(a, b) && LexLe(b, a)
    ensures a == b
  {
    if a != [] {
      LexAntisymmetric(a[1..], b[1..]);
      assert a == [a[0]] + a[1..] && b == [b[0]] + b[1..];
    }
  }

  lemma {:induction false} LexTransitive(a: seq<int>, b: seq<int>, c: seq<int>)
    requires LexLe(a, b) && LexLe(b, c)
    ensures LexLe(a, c)
  {
    if a != [] && a[0] == b[0] == c[0] { LexTransitive(a[1..], b[1..], c[1..]); }
  }

  /** The place of a new last element among sorted ones: after those that are not greater. */
  function Insert<T>(xs: seq<T>, x: T, key: T -> seq<int>): seq<T> {
    if xs == [] || LexLe(key(xs[|xs| - 1]), key(x)) then xs + [x]
    else Insert(xs[..|xs| - 1], x, key) + [xs[|xs| - 1]]
  }

  /** A stable sort by key: `slice::sort` and `sort_by`. */
  function SortBy<T>(xs: seq<T>, key: T -> seq<int>): seq<T> {
    if xs == [] then [] else Insert(SortBy(xs[..|xs| - 1], key), xs[|xs| - 1], key)
  }

  ghost predicate Sorted<T>(xs: seq<T>, key: T -> seq<int>) {
    forall i, j | 0 <= i < j < |xs| :: LexLe(key(xs[i]), key(xs[j]))
  }

  lemma {:induction false} InsertKeeps<T>(xs: seq<T>, x: T, key: T -> seq<int>)
    ensures multiset(Insert(xs, x, key)) == multiset(xs) + multiset{x}
  {
    if xs != [] {
      var n := |xs| - 1;
      InsertKeeps(xs[..n], x, key);
      assert xs == xs[..n] + [xs[n]];
    }
  }

  ghost predicate AllLe<T>(xs: seq<T>, z: T, key: T -> seq<int>) {
    forall i | 0 <= i < |xs| :: LexLe(key(xs[i]), key(z))
  }

  lemma {:induction false} InsertAllLe<T>(xs: seq<T>, x: T, z: T, key: T -> seq<int>)
    requires AllLe(xs, z, key) && LexLe(key(x), key(z))
    ensures AllLe(Insert(xs, x, key), z, key)
  {
    if xs != [] { InsertAllLe(xs[..|xs| - 1], x, z, key); }
  }

  lemma {:induction false} InsertSorted<T>(xs: seq<T>, x: T, key: T -> seq<int>)
    requires Sorted(xs, key)
    ensures Sorted(Insert(xs, x, key), key)
  {
    if xs != [] {
      var n := |xs| - 1;
      if LexLe(key(xs[n]), key(x)) {
        forall i | 0 <= i < n ensures LexLe(key(xs[i]), key(x)) {
          LexTransitive(key(xs[i]), key(xs[n]), key(x));
        }
      } else {
        LexTotal(key(x), key(xs[n]));
        InsertSorted(xs[..n], x, key);
        InsertAllLe(xs[..n], x, xs[n], key);
      }
    }
  }

  lemma {:induction false} SortByIs<T>(xs: seq<T>, key: T -> seq<int>)
    ensures Sorted(SortBy(xs, key), key)
    ensures multiset(SortBy(xs, key)) == multiset(xs)
  {
    if xs != [] {
      var n := |xs| - 1;
      SortByIs(xs[..n], key);
      InsertSorted(SortBy(xs[..n], key), xs[n], key);
      InsertKeeps(SortBy(xs[..n], key), xs[n], key);
      assert xs == xs[..n] + [xs[n]];
    }
  }

  ghost predicate Injective<T(!new)>(key: T -> seq<int>) {
    forall x, y | key(x) == key(y) :: x == y
  }

  /** Injective on the elements of a sequence. */
  ghost predicate InjectiveOn<T(!new)>(xs: seq<T>, key: T -> seq<int>) {
    forall x, y | x in multiset(xs) && y in multiset(xs) && key(x) == key(y) :: x == y
  }

  lemma MultisetTail<T>(xs: seq<T>)
    requires xs != []
    ensures multiset(xs[1..]) == multiset(xs) - multiset{xs[0]}
  {
    assert xs == [xs[0]] + xs[1..];
  }

  lemma FirstsAgree<T(!new)>(xs: seq<T>, ys: seq<T>, key: T -> seq<int>)
    requires InjectiveOn(xs, key) && Sorted(xs, key) && Sorted(ys, key) && multiset(xs) == multiset(ys)
    requires xs != [] && ys != []
    ensures xs[0] == ys[0]
  {
    assert xs[0] in multiset(ys) && ys[0] in multiset(xs);
    var i :| 0 <= i < |ys| && ys[i] == xs[0];
    var j :| 0 <= j < |xs| && xs[j] == ys[0];
    LexReflexive(key(xs[0]));
    LexReflexive(key(ys[0]));
    LexAntisymmetric(key(xs[0]), key(ys[0]));
  }

  /** Two sorted arrangements of the same elements are the same sequence. */
  lemma {:induction false} SortedUnique<T(!new)>(xs: seq<T>, ys: seq<T>, key: T -> seq<int>)
    requires InjectiveOn(xs, key) && Sorted(xs, key) && Sorted(ys, key) && multiset(xs) == multiset(ys)
    ensures xs == ys
  {
    assert |multiset(xs)| == |xs| && |multiset(ys)| == |ys|;
    if xs != [] {
      FirstsAgree(xs, ys, key);
      MultisetTail(xs);
      MultisetTail(ys);
      SortedTail(xs, key);
      SortedTail(ys, key);
      SortedUnique(xs[1..], ys[1..], key);
      SameHeadAndTail(xs, ys);
    }
  }

  lemma SortedTail<T(!new)>(xs: seq<T>, key: T -> seq<int>)
    requires Sorted(xs, key) && xs != []
    ensures Sorted(xs[1..], key)
    ensures InjectiveOn(xs, key) ==> InjectiveOn(xs[1..], key)
  {
    MultisetTail(xs);
  }

  lemma SameHeadAndTail<T>(xs: seq<T>, ys: seq<T>)
    requires xs != [] && ys != [] && xs[0] == ys[0] && xs[1..] == ys[1..]
    ensures xs == ys
  {
    assert xs == [xs[0]] + xs[1..] && ys == [ys[0]] + ys[1..];
  }

  /** Sorting depends only on which elements there are and how often. */
  lemma SortOfSame<T(!new)>(xs: seq<T>, ys: seq<T>, key: T -> seq<int>)
    requires InjectiveOn(xs, key) && multiset(xs) == multiset(ys)
    ensures SortBy(xs, key) == SortBy(ys, key)
  {
    SortByIs(xs, key);
    SortByIs(ys, key);
    SortedUnique(SortBy(xs, key), SortBy(ys, key), key);
  }

  lemma SortOfSorted<T(!new)>(xs: seq<T>, key: T -> seq<int>)
    requires InjectiveOn(xs, key) && Sorted(xs, key)
    ensures SortBy(xs, key) == xs
  {
    SortByIs(xs, key);
    SortedUnique(SortBy(xs, key), xs, key);
  }

  ghost predicate NoDuplicates<T(!new)>(xs: seq<T>) {
    forall i, j | 0 <= i < j < |xs| :: xs[i] != xs[j]
  }

  lemma {:induction false} NoDuplicatesCounts<T(!new)>(xs: seq<T>)
    requires NoDuplicates(xs)
    ensures forall x :: multiset(xs)[x] <= 1
  {
    if xs != [] {
      NoDuplicatesCounts(xs[1..]);
      assert xs == [xs[0]] + xs[1..];
      assert xs[0] !in xs[1..];
    }
  }

  lemma TwiceCounts<T(!new)>(xs: seq<T>, i: nat, j: nat)
    requires i < j < |xs| && xs[i] == xs[j]
    ensures multiset(xs)[xs[i]] >= 2
  {
    assert xs == xs[..j] + ([xs[j]] + xs[j + 1..]);
    assert xs[..j][i] == xs[i];
    assert xs[i] in multiset(xs[..j]);
  }

  /** The pigeonhole step: distinct elements that all occur in a sequence of the same length
      are all of its elements. */
  lemma SameElements<T(!new)>(xs: seq<T>, ys: seq<T>)
    requires NoDuplicates(xs) && |xs| == |ys|
    requires forall i | 0 <= i < |xs| :: xs[i] in ys
    ensures multiset(xs) == multiset(ys)
  {
    NoDuplicatesCounts(xs);
    var a, b := multiset(xs), multiset(ys);
    forall x | x in a ensures x in b { }
    assert a <= b;
    assert b == a + (b - a);
    assert |b - a| == 0;
  }

  // ----- Orders on text -----

  /** `str` comparison: by code point, which is the order of the UTF-8 bytes. */
  function TextKey(s: string): (r: seq<int>)
    ensures |r| == |s| && forall i | 0 <= i < |s| :: r[i] == s[i] as int
  {
    seq(|s|, i requires 0 <= i < |s| => s[i] as int)
  }

  lemma TextKeyInjective()
    ensures Injective(TextKey)
  {
    forall x, y | TextKey(x) == TextKey(y) ensures x == y {
      forall i | 0 <= i < |x| ensures x[i] == y[i] {
        assert TextKey(x)[i] == TextKey(y)[i];
      }
    }
  }

  /** The same order on the characters. */
  predicate TextLe(a: string, b: string) {
    a == [] || (b != [] && (a[0] < b[0] || (a[0] == b[0] && TextLe(a[1..], b[1..]))))
  }

  lemma TextKeyTail(s: string)
    requires s != []
    ensures TextKey(s)[1..] == TextKey(s[1..])
  {
  }

  lemma {:induction false} TextOrder(a: string, b: string)
    ensures LexLe(TextKey(a), TextKey(b)) <==> TextLe(a, b)
  {
    if a != [] && b != [] {
      TextKeyTail(a);
      TextKeyTail(b);
      TextOrder(a[1..], b[1..]);
    }
  }
}
