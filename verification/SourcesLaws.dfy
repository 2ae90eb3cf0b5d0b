/** What the sources fingerprint depends on: the paths and contents of the files, the paths
    taken relative to the working directory, and nothing else. */
module SourcesLaws {
  import opened Text
  import opened Digest
  import opened Order
  import opened Sources

  // ----- Which queries succeed -----

  ghost predicate Present(disk: Disk, paths: seq<string>) {
    forall i | 0 <= i < |paths| :: paths[i] in disk
  }

  lemma {:induction false} LoadMissing(disk: Disk, cwd: Option<string>, paths: seq<string>)
    ensures Load(disk, cwd, paths).Ok? <==> Present(disk, paths)
    ensures Load(disk, cwd, paths).Err? ==>
              Load(disk, cwd, paths).path in paths && Load(disk, cwd, paths).path !in disk
  {
    if paths != [] { LoadMissing(disk, cwd, paths[1..]); }
  }

  lemma PresentSame(disk: Disk, paths: seq<string>, others: seq<string>)
    requires forall x :: x in paths <==> x in others
    ensures Present(disk, paths) <==> Present(disk, others)
  {
    if Present(disk, paths) {
      forall i | 0 <= i < |others| ensures others[i] in disk { assert others[i] in paths; }
    }
    if Present(disk, others) {
      forall i | 0 <= i < |paths| ensures paths[i] in disk { assert paths[i] in others; }
    }
  }

  lemma SortedMembers(paths: seq<string>)
    ensures forall x :: x in paths <==> x in SortBy(paths, PathKey)
  {
    SortByIs(paths, PathKey);
    SameMembers(paths, SortBy(paths, PathKey));
  }

  /** The fingerprint fails exactly when a file is missing, and names one that is. */
  lemma MissingFails(blake3: string -> nat, disk: Disk, cwd: Option<string>, paths: seq<string>)
    ensures var hash := SourcesHash(blake3, disk, cwd, paths);
      && (hash.Ok? <==> Present(disk, paths)) && (hash.Err? ==> hash.path in paths && hash.path !in disk)
  {
    SortedMembers(paths);
    PresentSame(disk, paths, SortBy(paths, PathKey));
    LoadMissing(disk, cwd, SortBy(paths, PathKey));
  }

  lemma SameMembers(xs: seq<string>, ys: seq<string>)
    requires multiset(xs) == multiset(ys)
    ensures forall x :: x in xs <==> x in ys
  {
    forall x ensures x in xs <==> x in ys {
      assert x in xs <==> x in multiset(xs);
      assert x in ys <==> x in multiset(ys);
    }
  }

  // ----- Paths and contents determine the fingerprint, and are determined by it -----

  lemma {:induction false} LoadIs(disk: Disk, cwd: Option<string>, paths: seq<string>)
    requires Present(disk, paths)
    ensures var loaded := Load(disk, cwd, paths);
      && loaded.Ok? && |loaded.value| == |paths|
      && forall i | 0 <= i < |paths| :: loaded.value[i] == Source(HashName(cwd, paths[i]), disk[paths[i]])
  {
    if paths != [] { LoadIs(disk, cwd, paths[1..]); }
  }

  /** Paths without backslash and NUL, contents without NUL. */
  ghost predicate PlainFiles(disk: Disk, paths: seq<string>) {
    Present(disk, paths) &&
    forall i | 0 <= i < |paths| ::
      Lacks(paths[i], '\\') && Lacks(paths[i], '\0') && Lacks(disk[paths[i]], '\0')
  }

  lemma PlainLoad(disk: Disk, paths: seq<string>)
    requires PlainFiles(disk, paths)
    ensures var loaded := Load(disk, None, paths);
      && loaded.Ok? && |loaded.value| == |paths| && NulFree(loaded.value)
      && forall i | 0 <= i < |paths| :: loaded.value[i] == Source(paths[i], disk[paths[i]])
  {
    LoadIs(disk, None, paths);
    forall i | 0 <= i < |paths| ensures HashName(None, paths[i]) == paths[i] {
      ReplaceNothing(paths[i], '\\', "/");
    }
  }

  ghost predicate HashedAlike(a: seq<Source>, b: seq<Source>) {
    forall blake3: string -> nat :: HashOf(blake3, Ok(a)) == HashOf(blake3, Ok(b))
  }

  lemma HashedAlikeIs(a: seq<Source>, b: seq<Source>)
    requires NulFree(a) && NulFree(b)
    ensures HashedAlike(a, b) <==> a == b
  {
    StreamInjective(a, b);
    if a != b {
      SomeDigestDiffers(Stream(a), Stream(b));
      assert HashOf(SinglingOut(Stream(a)), Ok(a)) != HashOf(SinglingOut(Stream(a)), Ok(b));
    }
  }

  lemma LoadedAlike(d: Disk, a: seq<string>, e: Disk, b: seq<string>)
    requires PlainFiles(d, a) && PlainFiles(e, b)
    ensures Load(d, None, a) == Load(e, None, b)
       <==> a == b && forall i | 0 <= i < |a| :: d[a[i]] == e[a[i]]
  {
    PlainLoad(d, a);
    PlainLoad(e, b);
    var x, y := Load(d, None, a).value, Load(e, None, b).value;
    if x == y {
      forall i | 0 <= i < |a| ensures a[i] == b[i] && d[a[i]] == e[a[i]] { assert x[i] == y[i]; }
    }
  }

  ghost predicate ListsAgree(d: Disk, a: seq<string>, e: Disk, b: seq<string>) {
    forall blake3: string -> nat :: HashOf(blake3, Load(d, None, a)) == HashOf(blake3, Load(e, None, b))
  }

  /** For final lists of paths: no digest tells two lists of files apart exactly when paths and
      contents agree one by one. */
  lemma ListsAlike(d: Disk, a: seq<string>, e: Disk, b: seq<string>)
    requires PlainFiles(d, a) && PlainFiles(e, b)
    ensures ListsAgree(d, a, e, b) <==> a == b && forall i | 0 <= i < |a| :: d[a[i]] == e[a[i]]
  {
    PlainLoad(d, a);
    PlainLoad(e, b);
    LoadedAlike(d, a, e, b);
    HashedAlikeIs(Load(d, None, a).value, Load(e, None, b).value);
  }

  lemma PlainSorted(disk: Disk, paths: seq<string>, sorted: seq<string>)
    requires PlainFiles(disk, paths) && forall x :: x in sorted <==> x in paths
    ensures PlainFiles(disk, sorted)
  {
    forall i | 0 <= i < |sorted|
      ensures sorted[i] in disk && Lacks(sorted[i], '\\') && Lacks(sorted[i], '\0') && Lacks(disk[sorted[i]], '\0')
    {
      assert sorted[i] in paths;
    }
  }

  lemma SortedSame(a: seq<string>, b: seq<string>)
    ensures SortBy(a, PathKey) == SortBy(b, PathKey) <==> multiset(a) == multiset(b)
  {
    SortByIs(a, PathKey);
    SortByIs(b, PathKey);
    if multiset(a) == multiset(b) {
      PathKeyInjective();
      SortOfSame(a, b, PathKey);
    }
  }

  /** No digest tells the two apart. */
  ghost predicate SourcesAgree(d: Disk, a: seq<string>, e: Disk, b: seq<string>) {
    forall blake3: string -> nat :: SourcesHash(blake3, d, None, a) == SourcesHash(blake3, e, None, b)
  }

  lemma AgreeSorted(d: Disk, a: seq<string>, e: Disk, b: seq<string>)
    ensures SourcesAgree(d, a, e, b) <==> ListsAgree(d, SortBy(a, PathKey), e, SortBy(b, PathKey))
  {
    var x, y := SortBy(a, PathKey), SortBy(b, PathKey);
    if SourcesAgree(d, a, e, b) {
      forall blake3: string -> nat ensures HashOf(blake3, Load(d, None, x)) == HashOf(blake3, Load(e, None, y)) {
        assert SourcesHash(blake3, d, None, a) == SourcesHash(blake3, e, None, b);
      }
    }
    if ListsAgree(d, x, e, y) {
      forall blake3: string -> nat ensures SourcesHash(blake3, d, None, a) == SourcesHash(blake3, e, None, b) {
        assert HashOf(blake3, Load(d, None, x)) == HashOf(blake3, Load(e, None, y));
      }
    }
  }

  /** Two lists of files have one fingerprint under every digest exactly when they name the same
      paths, each as often, with the same contents. */
  lemma FingerprintIff(d: Disk, a: seq<string>, e: Disk, b: seq<string>)
    requires PlainFiles(d, a) && PlainFiles(e, b)
    ensures SourcesAgree(d, a, e, b)
       <==> multiset(a) == multiset(b) && forall p | p in a && p in e :: d[p] == e[p]
  {
    var x, y := SortBy(a, PathKey), SortBy(b, PathKey);
    SortedMembers(a);
    SortedMembers(b);
    PlainSorted(d, a, x);
    PlainSorted(e, b, y);
    AgreeSorted(d, a, e, b);
    ListsAlike(d, x, e, y);
    SortedSame(a, b);
    ContentsByMember(d, x, e, a, y);
  }

  lemma ContentsByMember(d: Disk, x: seq<string>, e: Disk, a: seq<string>, y: seq<string>)
    requires Present(d, x) && Present(e, y) && forall p :: p in x <==> p in a
    ensures x == y ==>
              ((forall i | 0 <= i < |x| :: d[x[i]] == e[x[i]]) <==> forall p | p in a && p in e :: d[p] == e[p])
  {
    if x == y && forall i | 0 <= i < |x| :: d[x[i]] == e[x[i]] {
      forall p | p in a && p in e ensures d[p] == e[p] {
        assert p in x;
      }
    }
  }

  /** No digest tells the two crates apart. */
  ghost predicate CratesAgree(d: Disk, a: CrateConfig, e: Disk, b: CrateConfig) {
    forall blake3: string -> nat :: CrateHash(blake3, d, None, a) == CrateHash(blake3, e, None, b)
  }

  lemma AgreeDistinct(d: Disk, a: CrateConfig, e: Disk, b: CrateConfig)
    ensures CratesAgree(d, a, e, b) <==> ListsAgree(d, Distinct(AllPaths(a)), e, Distinct(AllPaths(b)))
  {
    var x, y := Distinct(AllPaths(a)), Distinct(AllPaths(b));
    if CratesAgree(d, a, e, b) {
      forall blake3: string -> nat ensures HashOf(blake3, Load(d, None, x)) == HashOf(blake3, Load(e, None, y)) {
        assert CrateHash(blake3, d, None, a) == CrateHash(blake3, e, None, b);
      }
    }
    if ListsAgree(d, x, e, y) {
      forall blake3: string -> nat ensures CrateHash(blake3, d, None, a) == CrateHash(blake3, e, None, b) {
        assert HashOf(blake3, Load(d, None, x)) == HashOf(blake3, Load(e, None, y));
      }
    }
  }

  /** Two crates have one fingerprint under every digest exactly when they have the same set of
      paths, whatever lists they are spread over, with the same contents. */
  lemma CrateFingerprintIff(d: Disk, a: CrateConfig, e: Disk, b: CrateConfig)
    requires PlainFiles(d, AllPaths(a)) && PlainFiles(e, AllPaths(b))
    ensures CratesAgree(d, a, e, b)
       <==> && (forall p :: p in AllPaths(a) <==> p in AllPaths(b))
            && forall p | p in AllPaths(a) && p in e :: d[p] == e[p]
  {
    var x, y := Distinct(AllPaths(a)), Distinct(AllPaths(b));
    DistinctMembers(AllPaths(a));
    DistinctMembers(AllPaths(b));
    PlainSorted(d, AllPaths(a), x);
    PlainSorted(e, AllPaths(b), y);
    AgreeDistinct(d, a, e, b);
    ListsAlike(d, x, e, y);
    DistinctSame(AllPaths(a), AllPaths(b));
    ContentsByMember(d, x, e, AllPaths(a), y);
  }

  function Distinct(paths: seq<string>): seq<string> { DropRepeats(SortBy(paths, PathKey)) }

  lemma DistinctMembers(paths: seq<string>)
    ensures forall x :: x in Distinct(paths) <==> x in paths
  {
    SortByIs(paths, PathKey);
    SameMembers(paths, SortBy(paths, PathKey));
    DropRepeatsIs(SortBy(paths, PathKey));
  }

  lemma DistinctSame(a: seq<string>, b: seq<string>)
    ensures Distinct(a) == Distinct(b) <==> forall p :: p in a <==> p in b
  {
    DistinctMembers(a);
    DistinctMembers(b);
    if forall p :: p in a <==> p in b { SortedSet(a, b); }
  }

  // ----- Relocation -----

  /** A path below a directory. */
  function Below(dir: string, path: string): string {
    (if LastIs(dir, '/') then dir else dir + "/") + path
  }

  function AllBelow(dir: string, paths: seq<string>): (r: seq<string>)
    ensures |r| == |paths| && forall i | 0 <= i < |paths| :: r[i] == Below(dir, paths[i])
  {
    if paths == [] then [] else [Below(dir, paths[0])] + AllBelow(dir, paths[1..])
  }

  lemma NameBelow(dir: string, path: string)
    requires dir != []
    ensures HashName(Some(dir), Below(dir, path)) == HashName(None, path)
  {
    var p := Below(dir, path);
    if LastIs(dir, '/') {
      assert p[|dir|..] == path && p[..|dir|] == dir;
      if p == dir { assert path == []; }
    } else {
      assert p[|dir| + 1..] == path && p[..|dir| + 1] == dir + "/";
    }
  }

  lemma {:induction false} LexPrefix(k: seq<int>, a: seq<int>, b: seq<int>)
    ensures LexLe(k + a, k + b) <==> LexLe(a, b)
  {
    if k == [] {
      assert k + a == a && k + b == b;
    } else {
      assert (k + a)[1..] == k[1..] + a && (k + b)[1..] == k[1..] + b;
      LexPrefix(k[1..], a, b);
    }
  }

  lemma BelowOrder(dir: string, a: string, b: string)
    ensures LexLe(PathKey(Below(dir, a)), PathKey(Below(dir, b))) <==> LexLe(PathKey(a), PathKey(b))
  {
    var k := PathKey(Below(dir, []));
    assert PathKey(Below(dir, a)) == k + PathKey(a);
    assert PathKey(Below(dir, b)) == k + PathKey(b);
    LexPrefix(k, PathKey(a), PathKey(b));
  }

  lemma WithoutSame(m: multiset<string>, n: multiset<string>, x: string)
    requires m + multiset{x} == n + multiset{x}
    ensures m == n
  {
    assert m == m + multiset{x} - multiset{x} && n == n + multiset{x} - multiset{x};
  }

  lemma RemoveAt(b: seq<string>, j: nat)
    requires j < |b|
    ensures multiset(b) == multiset(b[..j] + b[j + 1..]) + multiset{b[j]}
  {
    assert b == b[..j] + [b[j]] + b[j + 1..];
  }

  lemma {:induction false} BelowMultiset(dir: string, a: seq<string>, b: seq<string>)
    requires multiset(a) == multiset(b)
    ensures multiset(AllBelow(dir, a)) == multiset(AllBelow(dir, b))
    decreases |a|
  {
    if a == [] {
      assert |multiset(b)| == 0;
    } else {
      assert a[0] in multiset(a) && a[0] in multiset(b);
      var j :| 0 <= j < |b| && b[j] == a[0];
      RemoveAt(a, 0);
      RemoveAt(b, j);
      assert a[..0] + a[1..] == a[1..];
      WithoutSame(multiset(a[1..]), multiset(b[..j] + b[j + 1..]), a[0]);
      BelowMultiset(dir, a[1..], b[..j] + b[j + 1..]);
      BelowWithout(dir, a, 0);
      BelowWithout(dir, b, j);
    }
  }

  lemma BelowWithout(dir: string, b: seq<string>, j: nat)
    requires j < |b|
    ensures multiset(AllBelow(dir, b)) == multiset(AllBelow(dir, b[..j] + b[j + 1..])) + multiset{Below(dir, b[j])}
  {
    var cut := b[..j] + b[j + 1..];
    var all, rest := AllBelow(dir, b), AllBelow(dir, cut);
    forall i | 0 <= i < |cut| ensures rest[i] == all[if i < j then i else i + 1] {
      assert cut[i] == b[if i < j then i else i + 1];
    }
    assert rest == all[..j] + all[j + 1..];
    RemoveAt(all, j);
  }

  lemma SortBelow(dir: string, paths: seq<string>)
    ensures SortBy(AllBelow(dir, paths), PathKey) == AllBelow(dir, SortBy(paths, PathKey))
  {
    var sorted := SortBy(paths, PathKey);
    SortByIs(paths, PathKey);
    SortByIs(AllBelow(dir, paths), PathKey);
    BelowMultiset(dir, paths, sorted);
    forall i, j | 0 <= i < j < |sorted|
      ensures LexLe(PathKey(AllBelow(dir, sorted)[i]), PathKey(AllBelow(dir, sorted)[j]))
    {
      BelowOrder(dir, sorted[i], sorted[j]);
    }
    PathKeyInjective();
    SortedUnique(SortBy(AllBelow(dir, paths), PathKey), AllBelow(dir, sorted), PathKey);
  }

  /** The same files in another place. */
  ghost predicate Moved(disk: Disk, dir: string, moved: Disk, paths: seq<string>) {
    forall i | 0 <= i < |paths| ::
      paths[i] in disk && Below(dir, paths[i]) in moved && moved[Below(dir, paths[i])] == disk[paths[i]]
  }

  lemma LoadMoved(disk: Disk, dir: string, moved: Disk, paths: seq<string>)
    requires dir != [] && Moved(disk, dir, moved, paths)
    ensures Load(moved, Some(dir), AllBelow(dir, paths)) == Load(disk, None, paths)
  {
    var below := AllBelow(dir, paths);
    LoadIs(disk, None, paths);
    LoadIs(moved, Some(dir), below);
    var x, y := Load(disk, None, paths).value, Load(moved, Some(dir), below).value;
    forall i | 0 <= i < |paths| ensures x[i] == y[i] { NameBelow(dir, paths[i]); }
    assert x == y;
  }

  /** Files below the working directory have the fingerprint that they have under their
      relative paths, wherever the directory is. */
  lemma RelocationKeepsHash(blake3: string -> nat, disk: Disk, dir: string, moved: Disk, paths: seq<string>)
    requires dir != [] && Moved(disk, dir, moved, paths)
    ensures SourcesHash(blake3, moved, Some(dir), AllBelow(dir, paths)) == SourcesHash(blake3, disk, None, paths)
  {
    var sorted := SortBy(paths, PathKey);
    SortBelow(dir, paths);
    SortByIs(paths, PathKey);
    SameMembers(paths, sorted);
    forall i | 0 <= i < |sorted|
      ensures sorted[i] in disk && Below(dir, sorted[i]) in moved && moved[Below(dir, sorted[i])] == disk[sorted[i]]
    {
      assert sorted[i] in paths;
    }
    LoadMoved(disk, dir, moved, sorted);
  }

  /** Elsewhere the working directory does not matter. */
  lemma OutsideKeepsPath(blake3: string -> nat, disk: Disk, dir: string, paths: seq<string>)
    requires dir != [] && forall i | 0 <= i < |paths| :: paths[i] != dir && !(Below(dir, []) <= paths[i])
    ensures SourcesHash(blake3, disk, Some(dir), paths) == SourcesHash(blake3, disk, None, paths)
  {
    var sorted := SortBy(paths, PathKey);
    SortByIs(paths, PathKey);
    SameMembers(paths, sorted);
    forall i | 0 <= i < |sorted| ensures sorted[i] != dir && !(Below(dir, []) <= sorted[i]) {
      assert sorted[i] in paths;
    }
    LoadOutside(disk, dir, sorted);
  }

  lemma {:induction false} LoadOutside(disk: Disk, dir: string, paths: seq<string>)
    requires dir != [] && forall i | 0 <= i < |paths| :: paths[i] != dir && !(Below(dir, []) <= paths[i])
    ensures Load(disk, Some(dir), paths) == Load(disk, None, paths)
  {
    if paths != [] {
      LoadOutside(disk, dir, paths[1..]);
      NameOutside(dir, paths[0]);
    }
  }

  lemma NameOutside(dir: string, path: string)
    requires dir != [] && path != dir && !(Below(dir, []) <= path)
    ensures HashName(Some(dir), path) == HashName(None, path)
  {
    assert dir + "/" + [] == dir + "/" && dir + [] == dir;
    if |dir| + 1 <= |path| { assert path[..|dir| + 1][..|dir|] == path[..|dir|]; }
  }

  // ----- The stream of one file -----

  lemma OneLoaded(disk: Disk, path: string)
    requires path in disk
    ensures Load(disk, None, SortBy([path], PathKey)) == Ok([Source(HashName(None, path), disk[path])])
  {
    assert [path][..0] == [] && [path][1..] == [];
    assert SortBy([path], PathKey) == [path];
    LoadIs(disk, None, [path]);
    assert Load(disk, None, [path]).value == [Source(HashName(None, path), disk[path])];
  }

  lemma OneStream(source: Source)
    ensures Stream([source]) == "src\0" + (source.name + ("\0" + source.content))
  {
    assert [source][1..] == [];
    assert source.Frame() + [] == source.Frame();
  }

  /** What the hasher is fed for one file; a backslash counts as a separator. */
  lemma OneFile(blake3: string -> nat, disk: Disk, path: string)
    requires path in disk
    ensures Lacks(path, '\\') ==>
              SourcesHash(blake3, disk, None, [path])
              == Ok(Hex(blake3("src\0" + (path + ("\0" + disk[path])))))
    ensures forall dir, name | path == dir + "\\" + name && Lacks(dir, '\\') && Lacks(name, '\\') ::
              SourcesHash(blake3, disk, None, [path])
              == Ok(Hex(blake3("src\0" + ((dir + "/" + name) + ("\0" + disk[path])))))
  {
    OneLoaded(disk, path);
    OneStream(Source(HashName(None, path), disk[path]));
    if Lacks(path, '\\') { ReplaceNothing(path, '\\', "/"); }
    forall dir, name | path == dir + "\\" + name && Lacks(dir, '\\') && Lacks(name, '\\')
      ensures HashName(None, path) == dir + "/" + name
    {
      SlashedName(dir, name);
    }
  }

  lemma SlashedName(dir: string, name: string)
    requires Lacks(dir, '\\') && Lacks(name, '\\')
    ensures Replace(dir + "\\" + name, "\\", "/") == dir + "/" + name
  {
    ReplaceAppend(dir + "\\", name, '\\', "/");
    ReplaceAppend(dir, "\\", '\\', "/");
    ReplaceNothing(dir, '\\', "/");
    ReplaceNothing(name, '\\', "/");
    ReplaceChar("\\", '\\', "/");
    assert "/" + [] == "/";
  }

  // ----- The order of the files -----

  /** The parts of a path between its separators. */
  function Components(path: string): (r: seq<string>)
    ensures r != []
  {
    if path == [] then [""]
    else
      var rest := Components(path[1..]);
      if path[0] == '/' then [""] + rest else [[path[0]] + rest[0]] + rest[1..]
  }

  /** Component by component, a path before those it is the start of. */
  predicate ComponentsLe(a: seq<string>, b: seq<string>) {
    a == [] || (b != [] && if a[0] == b[0] then ComponentsLe(a[1..], b[1..]) else TextLe(a[0], b[0]))
  }

  lemma ComponentsPush(c: char, a: seq<string>, b: seq<string>)
    requires a != [] && b != []
    ensures ComponentsLe([[c] + a[0]] + a[1..], [[c] + b[0]] + b[1..]) <==> ComponentsLe(a, b)
  {
    var x, y := [[c] + a[0]] + a[1..], [[c] + b[0]] + b[1..];
    assert x[1..] == a[1..] && y[1..] == b[1..];
    assert x[0][1..] == a[0] && y[0][1..] == b[0];
  }

  lemma KeyTail(path: string)
    requires path != []
    ensures PathKey(path)[1..] == PathKey(path[1..])
  {
  }

  lemma {:induction false} PathOrder(a: string, b: string)
    ensures LexLe(PathKey(a), PathKey(b)) <==> ComponentsLe(Components(a), Components(b))
    decreases |a|
  {
    if a == [] {
      EmptyFirst(Components(b));
    } else if b == [] {
      NotBeforeEmpty(a);
    } else {
      KeyTail(a);
      KeyTail(b);
      PathOrder(a[1..], b[1..]);
      OrderStep(a, b);
    }
  }

  lemma EmptyFirst(b: seq<string>)
    requires b != []
    ensures ComponentsLe([""], b)
  {
    assert [""][1..] == [];
  }

  lemma NotBeforeEmpty(a: string)
    requires a != []
    ensures !ComponentsLe(Components(a), [""])
  {
    var rest := Components(a[1..]);
    assert [""][1..] == [];
    if a[0] == '/' { assert ([""] + rest)[1..] == rest; }
  }

  lemma OrderStep(a: string, b: string)
    requires a != [] && b != []
    ensures ComponentsLe(Components(a), Components(b)) <==>
              if a[0] == b[0] then ComponentsLe(Components(a[1..]), Components(b[1..]))
              else a[0] == '/' || (b[0] != '/' && a[0] < b[0])
  {
    var x, y := Components(a[1..]), Components(b[1..]);
    if a[0] == b[0] {
      if a[0] == '/' {
        assert ([""] + x)[1..] == x && ([""] + y)[1..] == y;
      } else {
        ComponentsPush(a[0], x, y);
      }
    }
  }

  /** The files are fed in the order of their components. */
  lemma FedInOrder(paths: seq<string>)
    ensures var sorted := SortBy(paths, PathKey);
      && multiset(sorted) == multiset(paths)
      && forall i, j | 0 <= i < j < |sorted| :: ComponentsLe(Components(sorted[i]), Components(sorted[j]))
  {
    var sorted := SortBy(paths, PathKey);
    SortByIs(paths, PathKey);
    forall i, j | 0 <= i < j < |sorted| ensures ComponentsLe(Components(sorted[i]), Components(sorted[j])) {
      PathOrder(sorted[i], sorted[j]);
    }
  }
}
