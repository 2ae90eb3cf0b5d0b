/** The hash inconsistency check (src/bin_cli/helpers.rs), what it has to do with the stale
    files, and which files the walk reaches. */
module WalkLaws {
  import opened Text
  import opened Order
  import Stamp
  import StampLaws
  import Digest
  import opened Walk

  // ----- Grouping the stamps -----

  datatype Group = Group(hash: string, paths: seq<string>)

  datatype Inconsistency = Inconsistency(groups: seq<Group>, crateCount: nat)

  function GroupKey(group: Group): seq<int> { TextKey(group.hash) }

  /** The distinct stamps of a tree. */
  ghost function Hashes(owned: multiset<Found>): set<string> {
    set f | f in owned :: f.hash
  }

  /** These are the files that carry the hash, each as often as it was found. */
  ghost predicate Carries(owned: multiset<Found>, hash: string, paths: multiset<string>) {
    forall path: string :: paths[path] == owned[Found(path, hash)]
  }

  ghost predicate IsGroup(owned: multiset<Found>, group: Group) {
    group.hash in Hashes(owned) && Sorted(group.paths, TextKey)
    && Carries(owned, group.hash, multiset(group.paths))
  }

  /** One group for every distinct stamp, in order of the stamps. */
  ghost predicate Groups(owned: multiset<Found>, groups: seq<Group>) {
    && Sorted(groups, GroupKey)
    && |groups| == |Hashes(owned)|
    && (forall g | g in groups :: IsGroup(owned, g))
    && (forall hash | hash in Hashes(owned) :: exists g :: g in groups && g.hash == hash)
  }

  ghost predicate Grouped(owned: multiset<Found>, byHash: map<string, seq<string>>) {
    byHash.Keys == Hashes(owned) && forall hash | hash in byHash :: Carries(owned, hash, multiset(byHash[hash]))
  }

  lemma HashesNext(owned: multiset<Found>, f: Found)
    ensures Hashes(owned + multiset{f}) == Hashes(owned) + {f.hash}
  {
    var more := owned + multiset{f};
    forall h ensures h in Hashes(more) <==> h in Hashes(owned) + {f.hash} {
      if h in Hashes(owned) {
        var g :| g in owned && g.hash == h;
        assert g in more;
      }
      assert f in more;
    }
  }

  function PathsOf(byHash: map<string, seq<string>>, hash: string): seq<string> {
    if hash in byHash then byHash[hash] else []
  }

  lemma CarriesNext(owned: multiset<Found>, byHash: map<string, seq<string>>, f: Found, hash: string)
    requires Grouped(owned, byHash)
    ensures Carries(owned + multiset{f}, hash,
                    multiset(PathsOf(byHash, hash)) + if hash == f.hash then multiset{f.path} else multiset{})
  {
    if hash !in byHash {
      assert forall path: string :: Found(path, hash) in owned ==> hash in Hashes(owned);
    }
    assert Carries(owned, hash, multiset(PathsOf(byHash, hash)));
  }

  lemma GroupNext(owned: multiset<Found>, byHash: map<string, seq<string>>, f: Found)
    requires Grouped(owned, byHash)
    ensures Grouped(owned + multiset{f}, byHash[f.hash := PathsOf(byHash, f.hash) + [f.path]])
  {
    var next := byHash[f.hash := PathsOf(byHash, f.hash) + [f.path]];
    HashesNext(owned, f);
    forall hash | hash in next ensures Carries(owned + multiset{f}, hash, multiset(next[hash])) {
      CarriesNext(owned, byHash, f, hash);
    }
  }

  /** `by_hash.entry(hash).or_default().push(path)` for each file found. */
  method GroupByHash(found: seq<Found>) returns (byHash: map<string, seq<string>>)
    ensures Grouped(multiset(found), byHash)
  {
    byHash := map[];
    for i := 0 to |found|
      invariant Grouped(multiset(found[..i]), byHash)
    {
      var f := found[i];
      assert found[..i + 1] == found[..i] + [f];
      GroupNext(multiset(found[..i]), byHash, f);
      byHash := byHash[f.hash := PathsOf(byHash, f.hash) + [f.path]];
    }
    assert found[..|found|] == found;
  }

  /** The groups in whatever order the map yields them, with sorted paths. */
  method CollectGroups(ghost owned: multiset<Found>, byHash: map<string, seq<string>>) returns (groups: seq<Group>)
    requires Grouped(owned, byHash)
    ensures |groups| == |Hashes(owned)|
    ensures forall g | g in groups :: IsGroup(owned, g)
    ensures forall hash | hash in Hashes(owned) :: exists g :: g in groups && g.hash == hash
  {
    groups := [];
    var remaining := byHash.Keys;
    while remaining != {}
      invariant remaining <= byHash.Keys
      invariant |groups| + |remaining| == |Hashes(owned)|
      invariant forall g | g in groups :: IsGroup(owned, g)
      invariant forall hash | hash in Hashes(owned) && hash !in remaining :: exists g :: g in groups && g.hash == hash
      decreases |remaining|
    {
      var hash :| hash in remaining;
      var group := Group(hash, SortBy(byHash[hash], TextKey));
      SortByIs(byHash[hash], TextKey);
      assert IsGroup(owned, group);
      ghost var before := groups;
      groups := groups + [group];
      remaining := remaining - {hash};
      forall h | h in Hashes(owned) && h !in remaining ensures exists g :: g in groups && g.hash == h {
        if h == hash {
          assert group in groups;
        } else {
          var g :| g in before && g.hash == h;
          assert g in groups;
        }
      }
    }
  }

  lemma SortedGroups(owned: multiset<Found>, groups: seq<Group>)
    requires |groups| == |Hashes(owned)|
    requires forall g | g in groups :: IsGroup(owned, g)
    requires forall hash | hash in Hashes(owned) :: exists g :: g in groups && g.hash == hash
    ensures Groups(owned, SortBy(groups, GroupKey))
  {
    var sorted := SortBy(groups, GroupKey);
    SortByIs(groups, GroupKey);
    assert |multiset(sorted)| == |sorted| && |multiset(groups)| == |groups|;
    forall g | g in sorted ensures IsGroup(owned, g) {
      assert g in multiset(sorted);
    }
    forall hash | hash in Hashes(owned) ensures exists g :: g in sorted && g.hash == hash {
      var g :| g in groups && g.hash == hash;
      assert g in multiset(groups);
      assert g in sorted;
    }
  }

  /** `detect_hash_inconsistency`: a report exactly when there are more distinct stamps than
      crates, and it lists every stamped file under its stamp. */
  method DetectHashInconsistency(base: string, tree: Node, crateCount: nat)
    returns (inconsistency: Option<Inconsistency>)
    ensures inconsistency.None? <==> |Hashes(Stamped(base, tree))| <= Max(crateCount, 1)
    ensures inconsistency.Some? ==> inconsistency.value.crateCount == crateCount
    ensures inconsistency.Some? ==> Groups(Stamped(base, tree), inconsistency.value.groups)
  {
    var found := CollectAlefHashes(base, tree);
    var byHash := GroupByHash(found);
    assert |byHash| == |byHash.Keys|;
    if |byHash| <= Max(crateCount, 1) {
      return None;
    }
    var groups := CollectGroups(multiset(found), byHash);
    SortedGroups(multiset(found), groups);
    groups := SortBy(groups, GroupKey);
    return Some(Inconsistency(groups, crateCount));
  }

  // ----- The two checks together -----

  lemma {:induction false} DistinctAtMost(hashes: seq<string>)
    ensures |set h | h in hashes| <= |hashes|
  {
    if hashes != [] {
      DistinctAtMost(hashes[1..]);
      assert (set h | h in hashes) == {hashes[0]} + set h | h in hashes[1..];
    }
  }

  lemma SubsetAtMost(a: set<string>, b: set<string>)
    requires a <= b
    ensures |a| <= |b|
  {
    assert b == a + (b - a);
  }

  /** When no file is stale for a non-empty list of at most as many hashes as there are
      crates, the tree carries at most that many stamps, so no inconsistency is reported. */
  lemma VerifiedIsConsistent(owned: multiset<Found>, hashes: seq<string>, crateCount: nat)
    requires hashes != [] && |hashes| <= crateCount
    requires Reports(owned, hashes, [])
    ensures |Hashes(owned)| <= Max(crateCount, 1)
  {
    forall f | f in owned ensures f.hash in hashes {
      assert multiset([])[Stale(f.path, f.hash, hashes)] == 0;
      assert f == Found(f.path, f.hash);
    }
    SubsetAtMost(Hashes(owned), set h | h in hashes);
    DistinctAtMost(hashes);
  }

  /** The hashes of the crates whose hash could be computed. */
  function Successes(computed: seq<Option<string>>): (hashes: seq<string>)
    ensures |hashes| <= |computed|
  {
    if computed == [] then []
    else (if computed[0].Some? then [computed[0].value] else []) + Successes(computed[1..])
  }

  /** The verify command without its I/O. With the hash of some crate the first check reports
      every other stamp, and when it finds none the second reports nothing either; without one
      it reports nothing at all, and only the second check looks at the tree. */
  method Verify(base: string, tree: Node, computed: seq<Option<string>>)
    returns (stale: seq<Stale>, inconsistency: Option<Inconsistency>)
    ensures Successes(computed) != [] ==> Reports(Stamped(base, tree), Successes(computed), stale)
    ensures Successes(computed) != [] && stale == [] ==> inconsistency == None
    ensures Successes(computed) == [] ==> stale == []
    ensures inconsistency.None? <==> |Hashes(Stamped(base, tree))| <= Max(|computed|, 1)
    ensures inconsistency.Some? ==> Groups(Stamped(base, tree), inconsistency.value.groups)
  {
    var hashes := Successes(computed);
    stale := VerifyWalkMulti(base, tree, hashes);
    inconsistency := DetectHashInconsistency(base, tree, |computed|);
    if hashes != [] && stale == [] {
      VerifiedIsConsistent(Stamped(base, tree), hashes, |computed|);
    }
  }

  // ----- Which files the walk reaches -----

  /** The entries at these positions lead from a directory to a stamped file with this path,
      through directories that can be read and are not skipped. */
  ghost predicate Leads(rules: Rules, path: string, node: Node, route: seq<nat>, f: Found)
    decreases node
  {
    && route != [] && node.Directory? && node.readable && route[0] < |node.entries|
    && (var entry := node.entries[route[0]];
        var child := Child(path, entry.name);
        match entry.node
        case Directory(_, _) => !rules.skips(entry.name) && Leads(rules, child, entry.node, route[1..], f)
        case File(text) => |route| == 1 && rules.scans(entry.name) && text.Some?
                           && Stamp.Extract(text.value) == Some(f.hash) && f.path == child
        case Special => false)
  }

  lemma {:induction false} EntryOwned(rules: Rules, path: string, entries: seq<Entry>, f: Found)
    ensures f in OwnedEntries(rules, path, entries) <==>
            exists i: nat :: i < |entries| && f in OwnedEntry(rules, path, entries[i])
  {
    if entries != [] {
      EntryOwned(rules, path, entries[1..], f);
      if f in OwnedEntries(rules, path, entries) {
        if f in OwnedEntry(rules, path, entries[0]) {
          assert f in OwnedEntry(rules, path, entries[0]);
        } else {
          var i: nat :| i < |entries[1..]| && f in OwnedEntry(rules, path, entries[1..][i]);
          assert entries[1..][i] == entries[i + 1];
        }
      }
      if i: nat :| i < |entries| && f in OwnedEntry(rules, path, entries[i]) {
        if i > 0 { assert entries[1..][i - 1] == entries[i]; }
      }
    }
  }

  ghost predicate Reached(rules: Rules, path: string, node: Node, f: Found) {
    exists route :: Leads(rules, path, node, route, f)
  }

  lemma {:induction false} LeadsIsOwned(rules: Rules, path: string, node: Node, route: seq<nat>, f: Found)
    requires Leads(rules, path, node, route, f)
    ensures f in Owned(rules, path, node)
    decreases |route|
  {
    var entry := node.entries[route[0]];
    if entry.node.Directory? {
      LeadsIsOwned(rules, Child(path, entry.name), entry.node, route[1..], f);
    } else {
      assert f == Found(Child(path, entry.name), f.hash);
    }
    assert f in OwnedEntry(rules, path, entry);
    EntryOwned(rules, path, node.entries, f);
  }

  lemma {:induction false} OwnedIsLed(rules: Rules, path: string, node: Node, f: Found) returns (route: seq<nat>)
    requires f in Owned(rules, path, node)
    ensures Leads(rules, path, node, route, f)
    decreases node
  {
    EntryOwned(rules, path, node.entries, f);
    var i: nat :| i < |node.entries| && f in OwnedEntry(rules, path, node.entries[i]);
    var entry := node.entries[i];
    if entry.node.Directory? {
      var rest := OwnedIsLed(rules, Child(path, entry.name), entry.node, f);
      route := [i] + rest;
      assert route[1..] == rest;
    } else {
      route := [i];
    }
  }

  /** The walk finds a file exactly when some chain of readable, unskipped directories leads
      to it and it is a scanned file with a stamp. */
  lemma OwnedIffReached(rules: Rules, path: string, node: Node, f: Found)
    ensures f in Owned(rules, path, node) <==> Reached(rules, path, node, f)
  {
    if f in Owned(rules, path, node) {
      var route := OwnedIsLed(rules, path, node, f);
    }
    if Reached(rules, path, node, f) {
      var route :| Leads(rules, path, node, route, f);
      LeadsIsOwned(rules, path, node, route, f);
    }
  }

  /** The same for the walk of a repository. */
  lemma StampedIffReached(base: string, tree: Node, f: Found)
    ensures f in Stamped(base, tree) <==> Reached(VerifyRules(), base, tree, f)
  {
    OwnedIffReached(VerifyRules(), base, tree, f);
  }

  // ----- When the first check may be silent where the second is not -----

  ghost predicate FirstSilent(owned: multiset<Found>, hashes: seq<string>) {
    hashes == [] || Reports(owned, hashes, [])
  }

  ghost predicate SecondSilent(owned: multiset<Found>, crateCount: nat) {
    |Hashes(owned)| <= Max(crateCount, 1)
  }

  ghost predicate DistinctNames(entries: seq<Entry>) {
    forall i, j | 0 <= i < j < |entries| :: entries[i].name != entries[j].name
  }

  /** No directory holds two entries of the same name. */
  ghost predicate WellNamed(node: Node)
    decreases node
  {
    node.Directory? ==>
      DistinctNames(node.entries) && forall i | 0 <= i < |node.entries| :: WellNamed(node.entries[i].node)
  }

  /** The verify command accepts the stamps of a tree that its second check rejects. */
  ghost predicate Overlooked(base: string, tree: Node, computed: seq<Option<string>>) {
    FirstSilent(Stamped(base, tree), Successes(computed)) && !SecondSilent(Stamped(base, tree), |computed|)
  }

  // A directory of files that all carry different stamps.

  function Zeros(n: nat): (r: string)
    ensures |r| == n
  {
    if n == 0 then [] else Zeros(n - 1) + "0"
  }

  lemma {:induction false} ZerosAreHex(n: nat)
    ensures forall i | 0 <= i < n :: Zeros(n)[i] == '0'
    ensures n > 0 ==> Digest.IsHex(Zeros(n))
  {
    if n > 0 { ZerosAreHex(n - 1); }
  }

  function StampedFile(i: nat): Entry {
    Entry(Zeros(i + 1) + ".rs", File(Some(Stamp.HASH_PREFIX + Zeros(i + 1))))
  }

  function StampedFiles(n: nat): (r: seq<Entry>)
    ensures |r| == n
  {
    if n == 0 then [] else StampedFiles(n - 1) + [StampedFile(n - 1)]
  }

  lemma {:induction false} StampedFileAt(n: nat, i: nat)
    requires i < n
    ensures StampedFiles(n)[i] == StampedFile(i)
  {
    if i < n - 1 { StampedFileAt(n - 1, i); }
  }

  lemma StampedFilesWellNamed(n: nat)
    ensures WellNamed(Directory(true, StampedFiles(n)))
  {
    forall i, j | 0 <= i < j < n ensures StampedFiles(n)[i].name != StampedFiles(n)[j].name {
      StampedFileAt(n, i);
      StampedFileAt(n, j);
      assert |StampedFile(i).name| != |StampedFile(j).name|;
    }
    forall i | 0 <= i < n ensures WellNamed(StampedFiles(n)[i].node) {
      StampedFileAt(n, i);
    }
  }

  lemma RustFileScanned(stem: string)
    requires stem != []
    ensures ScansFile(stem + ".rs")
  {
    var name := stem + ".rs";
    assert VERIFY_SCAN_EXTENSIONS[0] == "rs";
    assert name[|name| - 3..] == "." + "rs";
    assert name != ".." by { assert |name| > 2; }
    ExtensionIs(name, "rs");
  }

  lemma StampLineExtracted(hash: string, prefix: string)
    requires Digest.IsHex(hash) && prefix == Stamp.HASH_PREFIX
    ensures Stamp.Extract(prefix + hash) == Some(hash)
  {
    var line := prefix + hash;
    assert Lacks(prefix, '\n');
    LinesSingle(line);
    StampLaws.CleanHexPlain(hash);
    assert line[|prefix|..] == hash;
    assert prefix <= line;
    assert Stamp.FirstTen([line]) == [line];
  }

  lemma StampedFileOwned(base: string, n: nat, i: nat)
    requires i < n
    ensures Zeros(i + 1) in Hashes(Stamped(base, Directory(true, StampedFiles(n))))
  {
    var tree, entry := Directory(true, StampedFiles(n)), StampedFile(i);
    var f := Found(Child(base, entry.name), Zeros(i + 1));
    StampedFileAt(n, i);
    RustFileScanned(Zeros(i + 1));
    ZerosAreHex(i + 1);
    StampLineExtracted(Zeros(i + 1), Stamp.HASH_PREFIX);
    assert Leads(VerifyRules(), base, tree, [i], f);
    LeadsIsOwned(VerifyRules(), base, tree, [i], f);
  }

  function ZerosUpTo(n: nat): set<string> {
    if n == 0 then {} else ZerosUpTo(n - 1) + {Zeros(n)}
  }

  lemma {:induction false} ZerosUpToIs(n: nat)
    ensures |ZerosUpTo(n)| == n
    ensures forall z | z in ZerosUpTo(n) :: 0 < |z| <= n && z == Zeros(|z|)
  {
    if n > 0 { ZerosUpToIs(n - 1); }
  }

  lemma ManyStamps(base: string, n: nat)
    ensures |Hashes(Stamped(base, Directory(true, StampedFiles(n))))| >= n
  {
    var hashes := Hashes(Stamped(base, Directory(true, StampedFiles(n))));
    ZerosUpToIs(n);
    forall z | z in ZerosUpTo(n) ensures z in hashes {
      StampedFileOwned(base, n, |z| - 1);
    }
    SubsetAtMost(ZerosUpTo(n), hashes);
  }

  /** Whatever the number of crates: nothing is overlooked in any tree exactly when the hash of
      some crate could be computed. */
  lemma NothingOverlooked(computed: seq<Option<string>>)
    ensures (forall base: string, tree: Node | WellNamed(tree) :: !Overlooked(base, tree, computed))
       <==> Successes(computed) != []
  {
    var hashes, n := Successes(computed), Max(|computed|, 1) + 1;
    if hashes == [] {
      var tree := Directory(true, StampedFiles(n));
      StampedFilesWellNamed(n);
      ManyStamps("", n);
      assert Overlooked("", tree, computed);
    } else {
      forall base: string, tree: Node | WellNamed(tree) ensures !Overlooked(base, tree, computed) {
        if FirstSilent(Stamped(base, tree), hashes) {
          VerifiedIsConsistent(Stamped(base, tree), hashes, |computed|);
        }
      }
    }
  }
}
