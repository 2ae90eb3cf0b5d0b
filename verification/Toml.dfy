/** Canonicalising a parsed `alef.toml` (src/core/hash.rs): table keys are sorted at every
    depth, and the result is a normal form for reordering keys. */
module Toml {
  import opened Text
  import opened Order

  /** A parsed document. A table lists its entries in the order the map yields them. */
  datatype Value =
    | Scalar(text: string)
    | Array(items: seq<Value>)
    | Table(entries: seq<Entry>)

  datatype Entry = Entry(key: string, value: Value)

  predicate DistinctKeys(entries: seq<Entry>) {
    forall i, j | 0 <= i < j < |entries| :: entries[i].key != entries[j].key
  }

  /** Maps hold each key once. */
  predicate WellFormed(v: Value) {
    match v
    case Scalar(_) => true
    case Array(items) => forall i | 0 <= i < |items| :: WellFormed(items[i])
    case Table(entries) => DistinctKeys(entries) && forall i | 0 <= i < |entries| :: WellFormed(entries[i].value)
  }

  /** Equal up to the order of table keys, at every depth; arrays keep their order. */
  ghost predicate Equivalent(v: Value, w: Value)
    decreases v
  {
    match v
    case Scalar(_) => w == v
    case Array(items) =>
      w.Array? && |items| == |w.items| && forall i | 0 <= i < |items| :: Equivalent(items[i], w.items[i])
    case Table(entries) =>
      w.Table? && |entries| == |w.entries| &&
      forall i | 0 <= i < |entries| :: HasMatch(entries[i], w.entries)
  }

  ghost predicate HasMatch(entry: Entry, others: seq<Entry>)
    decreases entry
  {
    exists j | 0 <= j < |others| :: others[j].key == entry.key && Equivalent(entry.value, others[j].value)
  }

  function EntryKey(entry: Entry): seq<int> { TextKey(entry.key) }

  function Canonical(v: Value): Value
    decreases v
  {
    match v
    case Scalar(_) => v
    case Array(items) => Array(CanonicalItems(items))
    case Table(entries) => Table(SortBy(CanonicalEntries(entries), EntryKey))
  }

  function CanonicalItems(items: seq<Value>): (r: seq<Value>)
    ensures |r| == |items| && forall i | 0 <= i < |items| :: r[i] == Canonical(items[i])
  {
    if items == [] then [] else [Canonical(items[0])] + CanonicalItems(items[1..])
  }

  function CanonicalEntries(entries: seq<Entry>): (r: seq<Entry>)
    ensures |r| == |entries|
    ensures forall i | 0 <= i < |entries| :: r[i] == Entry(entries[i].key, Canonical(entries[i].value))
  {
    if entries == [] then []
    else [Entry(entries[0].key, Canonical(entries[0].value))] + CanonicalEntries(entries[1..])
  }

  // ----- The operation -----

  /** `Map::insert`: replaces the value of a key that is there, appends one that is not. */
  function Put(entries: seq<Entry>, key: string, value: Value): seq<Entry> {
    if entries == [] then [Entry(key, value)]
    else if entries[0].key == key then [Entry(key, value)] + entries[1..]
    else [entries[0]] + Put(entries[1..], key, value)
  }

  lemma {:induction false} PutNew(entries: seq<Entry>, key: string, value: Value)
    requires forall i | 0 <= i < |entries| :: entries[i].key != key
    ensures Put(entries, key, value) == entries + [Entry(key, value)]
  {
    if entries != [] { PutNew(entries[1..], key, value); }
  }

  method SortTomlValue(value: Value) returns (result: Value)
    requires WellFormed(value)
    ensures result == Canonical(value)
    decreases value, 1
  {
    match value {
      case Scalar(_) => result := value;
      case Array(items) =>
        var mapped := SortItems(items, value);
        result := Array(mapped);
      case Table(entries) =>
        var pairs := SortBy(entries, EntryKey);
        SortedPairs(entries);
        PairsBelow(pairs, entries, value);
        var sorted := SortEntries(pairs, value);
        SortThenMap(entries);
        result := Table(sorted);
    }
  }

  method SortItems(items: seq<Value>, ghost parent: Value) returns (mapped: seq<Value>)
    requires forall i | 0 <= i < |items| :: WellFormed(items[i]) && items[i] < parent
    ensures mapped == CanonicalItems(items)
    decreases parent, 0
  {
    mapped := [];
    for i := 0 to |items|
      invariant mapped == CanonicalItems(items)[..i]
    {
      var item := SortTomlValue(items[i]);
      mapped := mapped + [item];
    }
  }

  lemma PairsBelow(pairs: seq<Entry>, entries: seq<Entry>, parent: Value)
    requires WellFormed(parent) && parent == Table(entries)
    requires forall i | 0 <= i < |pairs| :: pairs[i] in entries
    ensures forall i | 0 <= i < |pairs| :: WellFormed(pairs[i].value) && pairs[i].value < parent
  {
    forall i | 0 <= i < |pairs| ensures WellFormed(pairs[i].value) && pairs[i].value < parent {
      var j :| 0 <= j < |entries| && entries[j] == pairs[i];
    }
  }

  lemma PutNext(front: seq<Entry>, x: Entry)
    requires forall k | 0 <= k < |front| :: front[k].key != x.key
    ensures Put(CanonicalEntries(front), x.key, Canonical(x.value)) == CanonicalEntries(front + [x])
  {
    PutNew(CanonicalEntries(front), x.key, Canonical(x.value));
    CanonicalSnoc(front, x);
  }

  method SortEntries(pairs: seq<Entry>, ghost parent: Value) returns (sorted: seq<Entry>)
    requires DistinctKeys(pairs)
    requires forall i | 0 <= i < |pairs| :: WellFormed(pairs[i].value) && pairs[i].value < parent
    ensures sorted == CanonicalEntries(pairs)
    decreases parent, 0
  {
    sorted := [];
    for i := 0 to |pairs|
      invariant sorted == CanonicalEntries(pairs[..i])
    {
      var item := SortTomlValue(pairs[i].value);
      PutNext(pairs[..i], pairs[i]);
      assert pairs[..i + 1] == pairs[..i] + [pairs[i]];
      sorted := Put(sorted, pairs[i].key, item);
    }
    assert pairs[..|pairs|] == pairs;
  }

  // ----- Sorting keys and canonicalising values commute -----

  lemma SortedPairs(entries: seq<Entry>)
    requires DistinctKeys(entries)
    ensures var sorted := SortBy(entries, EntryKey);
      && |sorted| == |entries| && DistinctKeys(sorted)
      && forall i | 0 <= i < |sorted| :: sorted[i] in entries
  {
    var sorted := SortBy(entries, EntryKey);
    SortByIs(entries, EntryKey);
    assert |multiset(sorted)| == |sorted| && |multiset(entries)| == |entries|;
    forall i | 0 <= i < |sorted| ensures sorted[i] in entries {
      assert sorted[i] in multiset(sorted);
    }
    NoDuplicatesCounts(entries);
    forall i, j | 0 <= i < j < |sorted| ensures sorted[i].key != sorted[j].key {
      if sorted[i].key == sorted[j].key {
        var a :| 0 <= a < |entries| && entries[a] == sorted[i];
        var b :| 0 <= b < |entries| && entries[b] == sorted[j];
        assert a == b;
        TwiceCounts(sorted, i, j);
      }
    }
  }

  function Mapped(x: Entry): Entry { Entry(x.key, Canonical(x.value)) }

  lemma CanonicalSnoc(front: seq<Entry>, last: Entry)
    ensures CanonicalEntries(front + [last]) == CanonicalEntries(front) + [Mapped(last)]
  {
  }

  lemma InsertSnoc(front: seq<Entry>, last: Entry, x: Entry)
    ensures Insert(front + [last], x, EntryKey)
         == if LexLe(EntryKey(last), EntryKey(x)) then front + [last] + [x] else Insert(front, x, EntryKey) + [last]
  {
    assert (front + [last])[..|front|] == front;
  }

  lemma {:induction false} CanonicalInsert(xs: seq<Entry>, x: Entry)
    ensures CanonicalEntries(Insert(xs, x, EntryKey)) == Insert(CanonicalEntries(xs), Mapped(x), EntryKey)
  {
    if xs != [] {
      var front, last := xs[..|xs| - 1], xs[|xs| - 1];
      assert xs == front + [last];
      CanonicalSnoc(front, last);
      InsertSnoc(front, last, x);
      InsertSnoc(CanonicalEntries(front), Mapped(last), Mapped(x));
      if LexLe(EntryKey(last), EntryKey(x)) {
        CanonicalSnoc(xs, x);
      } else {
        CanonicalInsert(front, x);
        CanonicalSnoc(Insert(front, x, EntryKey), last);
      }
    } else {
      CanonicalSnoc([], x);
      assert [] + [x] == [x];
    }
  }

  lemma {:induction false} SortThenMap(entries: seq<Entry>)
    ensures CanonicalEntries(SortBy(entries, EntryKey)) == SortBy(CanonicalEntries(entries), EntryKey)
  {
    if entries != [] {
      var front, last := entries[..|entries| - 1], entries[|entries| - 1];
      assert entries == front + [last];
      SortThenMap(front);
      CanonicalSnoc(front, last);
      CanonicalInsert(SortBy(front, EntryKey), last);
      assert (CanonicalEntries(front) + [Mapped(last)])[..|front|] == CanonicalEntries(front);
    }
  }

  // ----- Canonical is a normal form -----

  /** Canonicalising only reorders keys. */
  lemma {:induction false} CanonicalIsEquivalent(v: Value)
    requires WellFormed(v)
    ensures WellFormed(Canonical(v)) && Equivalent(Canonical(v), v)
    decreases v
  {
    match v
    case Scalar(_) =>
    case Array(items) =>
      forall i | 0 <= i < |items| ensures WellFormed(Canonical(items[i])) && Equivalent(Canonical(items[i]), items[i]) {
        CanonicalIsEquivalent(items[i]);
      }
    case Table(entries) =>
      var mapped := CanonicalEntries(entries);
      SortedPairs(mapped);
      var sorted := SortBy(mapped, EntryKey);
      forall i | 0 <= i < |sorted|
        ensures WellFormed(sorted[i].value)
        ensures HasMatch(sorted[i], entries)
      {
        var j :| 0 <= j < |mapped| && mapped[j] == sorted[i];
        CanonicalIsEquivalent(entries[j].value);
      }
  }

  /** Equivalent tables have the same canonical entries, in some order. */
  lemma MatchedEntries(a: seq<Entry>, b: seq<Entry>)
    requires DistinctKeys(a) && |a| == |b|
    requires forall i | 0 <= i < |a| :: a[i] in b
    ensures SortBy(a, EntryKey) == SortBy(b, EntryKey)
  {
    SameElements(a, b);
    forall x, y | x in multiset(a) && y in multiset(a) && EntryKey(x) == EntryKey(y) ensures x == y {
      TextKeyInjective();
      var i :| 0 <= i < |a| && a[i] == x;
      var j :| 0 <= j < |a| && a[j] == y;
    }
    SortOfSame(a, b, EntryKey);
  }

  lemma {:induction false} EquivalentSameForm(v: Value, w: Value)
    requires WellFormed(v) && WellFormed(w) && Equivalent(v, w)
    ensures Canonical(v) == Canonical(w)
    decreases v
  {
    match v
    case Scalar(_) =>
    case Array(items) =>
      forall i | 0 <= i < |items| ensures Canonical(items[i]) == Canonical(w.items[i]) {
        EquivalentSameForm(items[i], w.items[i]);
      }
      assert CanonicalItems(items) == CanonicalItems(w.items);
    case Table(entries) =>
      var a, b := CanonicalEntries(entries), CanonicalEntries(w.entries);
      forall i | 0 <= i < |a| ensures a[i] in b {
        var j :| 0 <= j < |w.entries| && w.entries[j].key == entries[i].key
                 && Equivalent(entries[i].value, w.entries[j].value);
        EquivalentSameForm(entries[i].value, w.entries[j].value);
        assert a[i] == b[j];
      }
      MatchedEntries(a, b);
  }

  lemma {:induction false} SameFormEquivalent(v: Value, w: Value)
    requires WellFormed(v) && WellFormed(w) && Canonical(v) == Canonical(w)
    ensures Equivalent(v, w)
    decreases v, 1
  {
    match v
    case Scalar(_) =>
    case Array(items) =>
      forall i | 0 <= i < |items| ensures Equivalent(items[i], w.items[i]) {
        assert CanonicalItems(items)[i] == CanonicalItems(w.items)[i];
        SameFormEquivalent(items[i], w.items[i]);
      }
    case Table(entries) =>
      SameElementsOfSort(CanonicalEntries(entries), CanonicalEntries(w.entries));
      forall i | 0 <= i < |entries| ensures HasMatch(entries[i], w.entries) {
        SameFormEntry(v, w, i);
      }
  }

  lemma SameElementsOfSort(a: seq<Entry>, b: seq<Entry>)
    requires SortBy(a, EntryKey) == SortBy(b, EntryKey)
    ensures |a| == |b| && forall i | 0 <= i < |a| :: a[i] in b
  {
    SortByIs(a, EntryKey);
    SortByIs(b, EntryKey);
    assert |multiset(a)| == |a| && |multiset(b)| == |b|;
    forall i | 0 <= i < |a| ensures a[i] in b {
      assert a[i] in multiset(a);
      assert a[i] in multiset(b);
    }
  }

  lemma {:induction false} SameFormEntry(v: Value, w: Value, i: nat)
    requires v.Table? && w.Table? && WellFormed(v) && WellFormed(w) && i < |v.entries|
    requires CanonicalEntries(v.entries)[i] in CanonicalEntries(w.entries)
    ensures HasMatch(v.entries[i], w.entries)
    decreases v, 0
  {
    var b := CanonicalEntries(w.entries);
    var j :| 0 <= j < |b| && b[j] == CanonicalEntries(v.entries)[i];
    SameFormEquivalent(v.entries[i].value, w.entries[j].value);
  }

  /** Two documents have the same canonical form exactly when they differ in key order only. */
  lemma CanonicalIffEquivalent(v: Value, w: Value)
    requires WellFormed(v) && WellFormed(w)
    ensures Canonical(v) == Canonical(w) <==> Equivalent(v, w)
  {
    if Equivalent(v, w) { EquivalentSameForm(v, w); }
    if Canonical(v) == Canonical(w) { SameFormEquivalent(v, w); }
  }

  lemma CanonicalIdempotent(v: Value)
    requires WellFormed(v)
    ensures Canonical(Canonical(v)) == Canonical(v)
  {
    CanonicalIsEquivalent(v);
    EquivalentSameForm(Canonical(v), v);
  }

  /** The keys of every table are in ascending order. */
  ghost predicate KeysAscend(v: Value) {
    match v
    case Scalar(_) => true
    case Array(items) => forall i | 0 <= i < |items| :: KeysAscend(items[i])
    case Table(entries) =>
      && (forall i, j | 0 <= i < j < |entries| :: TextLe(entries[i].key, entries[j].key))
      && forall i | 0 <= i < |entries| :: KeysAscend(entries[i].value)
  }

  lemma SortedAscends(entries: seq<Entry>)
    ensures var sorted := SortBy(entries, EntryKey);
      && multiset(sorted) == multiset(entries)
      && forall i, j | 0 <= i < j < |sorted| :: TextLe(sorted[i].key, sorted[j].key)
  {
    var sorted := SortBy(entries, EntryKey);
    SortByIs(entries, EntryKey);
    forall i, j | 0 <= i < j < |sorted| ensures TextLe(sorted[i].key, sorted[j].key) {
      TextOrder(sorted[i].key, sorted[j].key);
    }
  }

  /** The canonical form lists the keys of every table in ascending order. */
  lemma {:induction false} CanonicalAscends(v: Value)
    ensures KeysAscend(Canonical(v))
    decreases v
  {
    match v
    case Scalar(_) =>
    case Array(items) => forall i | 0 <= i < |items| { CanonicalAscends(items[i]); }
    case Table(entries) =>
      var mapped := CanonicalEntries(entries);
      var sorted := SortBy(mapped, EntryKey);
      SortedAscends(mapped);
      forall i | 0 <= i < |sorted| ensures KeysAscend(sorted[i].value) {
        assert sorted[i] in multiset(sorted);
        var j :| 0 <= j < |mapped| && mapped[j] == sorted[i];
        CanonicalAscends(entries[j].value);
      }
  }
}
