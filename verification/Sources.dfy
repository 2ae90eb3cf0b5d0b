/** The source fingerprints (src/core/hash.rs): how paths and contents are framed into one
    hash stream, per list of sources and per crate. */
module Sources {
  import opened Text
  import opened Digest
  import opened Order

  datatype Result<+T> = Ok(value: T) | Err(path: string)

  /** File contents by path. A text stands for its UTF-8 bytes, a content for its raw bytes. */
  type Disk = map<string, string>

  /** Path order: component by component, so the separator sorts before every other character. */
  function PathKey(path: string): (r: seq<int>)
    ensures |r| == |path| && forall i | 0 <= i < |path| :: r[i] == if path[i] == '/' then 0 else path[i] as int + 1
  {
    seq(|path|, i requires 0 <= i < |path| => if path[i] == '/' then 0 else path[i] as int + 1)
  }

  lemma PathKeyInjective()
    ensures Injective(PathKey)
  {
    forall x, y | PathKey(x) == PathKey(y) ensures x == y {
      forall i | 0 <= i < |x| ensures x[i] == y[i] {
        assert PathKey(x)[i] == PathKey(y)[i];
      }
    }
  }

  /** `strip_prefix` of the working directory, or the path itself where that fails. */
  function Relative(cwd: Option<string>, path: string): string {
    if cwd.None? then path
    else if path == cwd.value then []
    else if cwd.value != [] && LastIs(cwd.value, '/') && cwd.value <= path then path[|cwd.value|..]
    else if cwd.value + "/" <= path then path[|cwd.value| + 1..]
    else path
  }

  /** The name under which a path enters the stream. */
  function HashName(cwd: Option<string>, path: string): string {
    Replace(Relative(cwd, path), "\\", "/")
  }

  /** What one file adds to the stream. */
  datatype Source = Source(name: string, content: string) {
    function Frame(): string { "src\0" + (name + ("\0" + content)) }
  }

  function Stream(sources: seq<Source>): string {
    if sources == [] then [] else sources[0].Frame() + Stream(sources[1..])
  }

  /** Reads the files in order and fails at the first that is missing. */
  function Load(disk: Disk, cwd: Option<string>, paths: seq<string>): Result<seq<Source>> {
    if paths == [] then Ok([])
    else if paths[0] !in disk then Err(paths[0])
    else match Load(disk, cwd, paths[1..])
      case Err(p) => Err(p)
      case Ok(rest) => Ok([Source(HashName(cwd, paths[0]), disk[paths[0]])] + rest)
  }

  function HashOf(blake3: string -> nat, loaded: Result<seq<Source>>): Result<string> {
    match loaded
    case Err(p) => Err(p)
    case Ok(sources) => Ok(Hex(blake3(Stream(sources))))
  }

  function SourcesHash(blake3: string -> nat, disk: Disk, cwd: Option<string>, paths: seq<string>): Result<string> {
    HashOf(blake3, Load(disk, cwd, SortBy(paths, PathKey)))
  }

  datatype CrateConfig = CrateConfig(sources: seq<string>, sourceCrates: seq<seq<string>>)

  function Flatten(lists: seq<seq<string>>): seq<string> {
    if lists == [] then [] else lists[0] + Flatten(lists[1..])
  }

  function AllPaths(config: CrateConfig): seq<string> { config.sources + Flatten(config.sourceCrates) }

  /** `Vec::dedup`: drops an element equal to the one kept before it. */
  function DropRepeats(xs: seq<string>): seq<string> {
    if |xs| <= 1 then xs
    else if xs[|xs| - 1] == xs[|xs| - 2] then DropRepeats(xs[..|xs| - 1])
    else DropRepeats(xs[..|xs| - 1]) + [xs[|xs| - 1]]
  }

  function CrateHash(blake3: string -> nat, disk: Disk, cwd: Option<string>, config: CrateConfig): Result<string> {
    HashOf(blake3, Load(disk, cwd, DropRepeats(SortBy(AllPaths(config), PathKey))))
  }

  // ----- The operations -----

  /** The loop shared by both fingerprints; the hasher is the stream fed to it so far. */
  method HashPaths(blake3: string -> nat, disk: Disk, cwd: Option<string>, sorted: seq<string>)
    returns (hash: Result<string>)
    ensures hash == HashOf(blake3, Load(disk, cwd, sorted))
  {
    var fed := "";
    ghost var done: seq<Source> := [];
    assert sorted[0..] == sorted;
    AfterNothing(Load(disk, cwd, sorted));
    for i := 0 to |sorted|
      invariant fed == Stream(done)
      invariant Load(disk, cwd, sorted) == After(done, Load(disk, cwd, sorted[i..]))
    {
      if sorted[i] !in disk { return Err(sorted[i]); }
      var content := disk[sorted[i]];
      ghost var source := Source(HashName(cwd, sorted[i]), content);
      StreamSnoc(done, source);
      fed := fed + ("src\0" + (HashName(cwd, sorted[i]) + ("\0" + content)));
      LoadStep(disk, cwd, sorted, i, done, source);
      done := done + [source];
    }
    assert done + [] == done;
    return Ok(Hex(blake3(fed)));
  }

  ghost function After(done: seq<Source>, rest: Result<seq<Source>>): Result<seq<Source>> {
    match rest
    case Err(p) => Err(p)
    case Ok(sources) => Ok(done + sources)
  }

  lemma AfterNothing(rest: Result<seq<Source>>)
    ensures After([], rest) == rest
  {
    if rest.Ok? { assert [] + rest.value == rest.value; }
  }

  lemma LoadStep(disk: Disk, cwd: Option<string>, sorted: seq<string>, i: nat, done: seq<Source>, source: Source)
    requires i < |sorted| && sorted[i] in disk && source == Source(HashName(cwd, sorted[i]), disk[sorted[i]])
    ensures After(done, Load(disk, cwd, sorted[i..])) == After(done + [source], Load(disk, cwd, sorted[i + 1..]))
  {
    assert sorted[i..][1..] == sorted[i + 1..];
    var rest := Load(disk, cwd, sorted[i + 1..]);
    if rest.Ok? { assert done + ([source] + rest.value) == done + [source] + rest.value; }
  }

  method ComputeSourcesHash(blake3: string -> nat, disk: Disk, cwd: Option<string>, paths: seq<string>)
    returns (hash: Result<string>)
    ensures hash == SourcesHash(blake3, disk, cwd, paths)
  {
    hash := HashPaths(blake3, disk, cwd, SortBy(paths, PathKey));
  }

  method ComputeCrateSourcesHash(blake3: string -> nat, disk: Disk, cwd: Option<string>, config: CrateConfig)
    returns (hash: Result<string>)
    ensures hash == CrateHash(blake3, disk, cwd, config)
  {
    var all: seq<string> := [];
    for i := 0 to |config.sources|
      invariant all == config.sources[..i]
    {
      all := all + [config.sources[i]];
    }
    assert all + Flatten(config.sourceCrates) == AllPaths(config);
    for i := 0 to |config.sourceCrates|
      invariant all + Flatten(config.sourceCrates[i..]) == AllPaths(config)
    {
      assert config.sourceCrates[i..][1..] == config.sourceCrates[i + 1..];
      all := all + config.sourceCrates[i];
    }
    assert all + [] == all;
    all := DropRepeats(SortBy(all, PathKey));
    hash := HashPaths(blake3, disk, cwd, all);
  }

  lemma {:induction false} StreamSnoc(sources: seq<Source>, source: Source)
    ensures Stream(sources + [source]) == Stream(sources) + source.Frame()
  {
    if sources == [] {
      assert Stream([source]) == source.Frame() + [];
    } else {
      StreamSnoc(sources[1..], source);
      assert (sources + [source])[1..] == sources[1..] + [source];
    }
  }

  // ----- The stream determines what was hashed -----

  function NulAt(s: string): (i: nat)
    ensures i <= |s|
  {
    if s == [] || s[0] == '\0' then 0 else NulAt(s[1..]) + 1
  }

  /** Takes a stream apart again: a content ends three characters before the next NUL. */
  function Unframe(s: string): seq<Source>
    decreases |s|
  {
    if |s| < 4 then []
    else
      var nameEnd := NulAt(s[4..]);
      if nameEnd == |s[4..]| then []
      else
        var name, rest := s[4..][..nameEnd], s[4..][nameEnd + 1..];
        var next := NulAt(rest);
        if next == |rest| || next < 3 then [Source(name, rest)]
        else [Source(name, rest[..next - 3])] + Unframe(rest[next - 3..])
  }

  ghost predicate NulFree(sources: seq<Source>) {
    forall i | 0 <= i < |sources| :: Lacks(sources[i].name, '\0') && Lacks(sources[i].content, '\0')
  }

  lemma {:induction false} NulAtIs(before: string, after: string)
    requires Lacks(before, '\0')
    ensures NulAt(before + "\0" + after) == |before|
  {
    var s := before + "\0" + after;
    if before != [] {
      assert s[0] == before[0] && s[1..] == before[1..] + "\0" + after;
      NulAtIs(before[1..], after);
    }
  }

  lemma {:induction false} NulNowhere(s: string)
    requires Lacks(s, '\0')
    ensures NulAt(s) == |s|
  {
    if s != [] { NulNowhere(s[1..]); }
  }

  /** A content is followed by the end of the stream or the next file's frame. */
  ghost predicate FrameOrEnd(rest: string) {
    rest == [] || exists tail :: rest == "src\0" + tail
  }

  /** Where the content of a file ends in what follows its name. */
  function ContentEnd(body: string): (n: nat)
    ensures n <= |body|
  {
    var next := NulAt(body);
    if next == |body| || next < 3 then |body| else next - 3
  }

  lemma ContentEndIs(content: string, rest: string)
    requires Lacks(content, '\0') && FrameOrEnd(rest)
    ensures ContentEnd(content + rest) == |content|
    ensures var next := NulAt(content + rest);
            (next == |content + rest| || next < 3) <==> rest == []
  {
    var body := content + rest;
    if rest == [] {
      assert body == content;
      NulNowhere(body);
    } else {
      var tail :| rest == "src\0" + tail;
      var before := content + "src";
      assert body == before + "\0" + tail;
      NulAtIs(before, tail);
    }
  }

  lemma NameSplits(name: string, body: string)
    requires Lacks(name, '\0')
    ensures var s := name + "\0" + body; var n := NulAt(s);
            n == |name| < |s| && s[..n] == name && s[n + 1..] == body
  {
    NulAtIs(name, body);
  }

  lemma FrameShape(source: Source, rest: string)
    ensures |source.Frame() + rest| > 4
    ensures (source.Frame() + rest)[4..] == source.name + "\0" + (source.content + rest)
  {
  }

  lemma UnframeStep(source: Source, rest: string)
    requires Lacks(source.name, '\0') && Lacks(source.content, '\0') && FrameOrEnd(rest)
    ensures Unframe(source.Frame() + rest) == [source] + Unframe(rest)
  {
    var body := source.content + rest;
    FrameShape(source, rest);
    NameSplits(source.name, body);
    ContentEndIs(source.content, rest);
    if rest == [] {
      assert body == source.content;
    } else {
      assert body[..|source.content|] == source.content && body[|source.content|..] == rest;
    }
  }

  lemma {:induction false} UnframeStream(sources: seq<Source>)
    requires NulFree(sources)
    ensures Unframe(Stream(sources)) == sources
  {
    if sources != [] {
      var rest := Stream(sources[1..]);
      UnframeStream(sources[1..]);
      if sources[1..] != [] { StreamStarts(sources[1..]); }
      UnframeStep(sources[0], rest);
    }
  }

  lemma StreamStarts(sources: seq<Source>)
    requires sources != []
    ensures exists tail :: Stream(sources) == "src\0" + tail
  {
    var tail := sources[0].name + ("\0" + sources[0].content) + Stream(sources[1..]);
    assert Stream(sources) == "src\0" + tail;
  }

  /** For NUL-free names and contents the stream determines the list of files. */
  lemma StreamInjective(a: seq<Source>, b: seq<Source>)
    requires NulFree(a) && NulFree(b)
    ensures Stream(a) == Stream(b) <==> a == b
  {
    UnframeStream(a);
    UnframeStream(b);
  }

  /** A NUL in a content can make one file look like two. */
  lemma NulBreaksFraming()
    ensures Stream([Source("a", "xsrc\0b\0y")]) == Stream([Source("a", "x"), Source("b", "y")])
  {
    var one := Source("a", "xsrc\0b\0y");
    assert Stream([one]) == one.Frame() + Stream([]);
    var a, b := Source("a", "x"), Source("b", "y");
    assert [a, b][1..] == [b] && [b][1..] == [];
    assert Stream([b]) == b.Frame() + Stream([]);
    assert Stream([a, b]) == a.Frame() + Stream([b]);
  }

  // ----- The crate fingerprint depends on the set of paths alone -----

  ghost predicate Unrepeated(xs: seq<string>, r: seq<string>) {
    Sorted(r, PathKey) && NoDuplicates(r) && forall x :: x in r <==> x in xs
  }

  lemma {:induction false} DropRepeatsIs(xs: seq<string>)
    requires Sorted(xs, PathKey)
    ensures Unrepeated(xs, DropRepeats(xs))
  {
    if |xs| > 1 {
      var n := |xs| - 1;
      DropRepeatsIs(xs[..n]);
      if xs[n] == xs[n - 1] {
        RepeatedLast(xs, DropRepeats(xs[..n]));
      } else {
        NewLast(xs, DropRepeats(xs[..n]));
      }
    }
  }

  lemma RepeatedLast(xs: seq<string>, r: seq<string>)
    requires |xs| > 1 && xs[|xs| - 1] == xs[|xs| - 2] && Unrepeated(xs[..|xs| - 1], r)
    ensures Unrepeated(xs, r)
  {
    var n := |xs| - 1;
    assert xs == xs[..n] + [xs[n]];
    assert xs[..n][n - 1] == xs[n];
  }

  lemma NewLast(xs: seq<string>, r: seq<string>)
    requires |xs| > 1 && xs[|xs| - 1] != xs[|xs| - 2] && Sorted(xs, PathKey) && Unrepeated(xs[..|xs| - 1], r)
    ensures Unrepeated(xs, r + [xs[|xs| - 1]])
  {
    var n := |xs| - 1;
    assert xs == xs[..n] + [xs[n]];
    forall i | 0 <= i < |r| ensures r[i] != xs[n] && LexLe(PathKey(r[i]), PathKey(xs[n])) {
      assert r[i] in r && r[i] in xs[..n];
      var j :| 0 <= j < n && xs[..n][j] == r[i];
      LastIsNew(xs, j);
    }
  }

  lemma LastIsNew(xs: seq<string>, j: nat)
    requires Sorted(xs, PathKey) && j < |xs| - 1 && xs[|xs| - 1] != xs[|xs| - 2]
    ensures xs[j] != xs[|xs| - 1] && LexLe(PathKey(xs[j]), PathKey(xs[|xs| - 1]))
  {
    var n := |xs| - 1;
    if xs[j] == xs[n] {
      assert j < n - 1;
      PathKeyInjective();
      LexAntisymmetric(PathKey(xs[n - 1]), PathKey(xs[n]));
    }
  }

  lemma SameSetSameMultiset(xs: seq<string>, ys: seq<string>)
    requires NoDuplicates(xs) && NoDuplicates(ys)
    requires forall x :: x in xs <==> x in ys
    ensures multiset(xs) == multiset(ys)
  {
    NoDuplicatesCounts(xs);
    NoDuplicatesCounts(ys);
    forall x ensures multiset(xs)[x] == multiset(ys)[x] {
      assert x in xs <==> x in multiset(xs);
      assert x in ys <==> x in multiset(ys);
    }
  }

  lemma SortedSet(xs: seq<string>, ys: seq<string>)
    requires forall x :: x in xs <==> x in ys
    ensures DropRepeats(SortBy(xs, PathKey)) == DropRepeats(SortBy(ys, PathKey))
  {
    var a, b := SortBy(xs, PathKey), SortBy(ys, PathKey);
    SortByIs(xs, PathKey);
    SortByIs(ys, PathKey);
    forall x ensures (x in a <==> x in xs) && (x in b <==> x in ys) {
      assert x in a <==> x in multiset(a);
      assert x in b <==> x in multiset(b);
    }
    DropRepeatsIs(a);
    DropRepeatsIs(b);
    SameSetSameMultiset(DropRepeats(a), DropRepeats(b));
    PathKeyInjective();
    SortedUnique(DropRepeats(a), DropRepeats(b), PathKey);
  }

  /** Neither order nor repetition nor the split over source crates matters. */
  lemma CrateHashBySet(blake3: string -> nat, disk: Disk, cwd: Option<string>, a: CrateConfig, b: CrateConfig)
    requires forall p :: p in AllPaths(a) <==> p in AllPaths(b)
    ensures CrateHash(blake3, disk, cwd, a) == CrateHash(blake3, disk, cwd, b)
  {
    SortedSet(AllPaths(a), AllPaths(b));
  }

  /** Without source crates and repetitions the two fingerprints agree. */
  lemma CrateHashAgrees(blake3: string -> nat, disk: Disk, cwd: Option<string>, paths: seq<string>)
    requires NoDuplicates(paths)
    ensures CrateHash(blake3, disk, cwd, CrateConfig(paths, [])) == SourcesHash(blake3, disk, cwd, paths)
  {
    var sorted := SortBy(paths, PathKey);
    assert AllPaths(CrateConfig(paths, [])) == paths;
    SortByIs(paths, PathKey);
    DropRepeatsIs(sorted);
    SortedHasNoDuplicates(paths);
    SameSetSameMultiset(DropRepeats(sorted), sorted);
    PathKeyInjective();
    SortedUnique(DropRepeats(sorted), sorted, PathKey);
  }

  lemma SortedHasNoDuplicates(paths: seq<string>)
    requires NoDuplicates(paths)
    ensures NoDuplicates(SortBy(paths, PathKey))
  {
    var sorted := SortBy(paths, PathKey);
    SortByIs(paths, PathKey);
    NoDuplicatesCounts(paths);
    forall i, j | 0 <= i < j < |sorted| ensures sorted[i] != sorted[j] {
      if sorted[i] == sorted[j] { TwiceCounts(sorted, i, j); }
    }
  }
}
