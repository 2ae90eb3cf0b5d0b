/** The memoised fingerprint query (src/cli/cache.rs) in a workspace whose files change
    between queries, and its agreement with full recomputation over every run. */
module MemoRuns {
  import opened Text
  import opened Digest
  import opened Order
  import opened Sources
  import opened Memo

  datatype File = File(mtime: nat, content: string)

  datatype World = World(files: map<string, File>, memo: Option<string>)

  /** The digest and the working directory, fixed for a workspace. */
  datatype Context = Context(blake3: string -> nat, cwd: Option<string>)

  function Contents(files: map<string, File>): Disk {
    map p | p in files :: files[p].content
  }

  function Recomputed(ctx: Context, files: map<string, File>, sources: seq<string>): Result<string> {
    SourcesHash(ctx.blake3, Contents(files), ctx.cwd, sources)
  }

  // ----- Specification of the query -----

  /** What a stat of a file shows. */
  function LineOf(path: string, file: File): Line { Line(path, file.mtime, |file.content|) }

  /** Stats the files in order and fails at the first that is missing. */
  function StatAll(files: map<string, File>, paths: seq<string>): Result<seq<Line>> {
    if paths == [] then Ok([])
    else if paths[0] !in files then Err(paths[0])
    else match StatAll(files, paths[1..])
      case Err(p) => Err(p)
      case Ok(rest) => Ok([LineOf(paths[0], files[paths[0]])] + rest)
  }

  predicate Matches(memo: PerFileMemo, line: Line) {
    line.path in memo.entries && memo.entries[line.path] == (line.mtime, line.size)
  }

  predicate AllMatch(memo: PerFileMemo, lines: seq<Line>) {
    forall i | 0 <= i < |lines| :: Matches(memo, lines[i])
  }

  lemma AllMatchSnoc(memo: PerFileMemo, lines: seq<Line>, line: Line)
    ensures AllMatch(memo, lines + [line]) <==> AllMatch(memo, lines) && Matches(memo, line)
  {
    assert (lines + [line])[|lines|] == line;
    assert forall i | 0 <= i < |lines| :: (lines + [line])[i] == lines[i];
  }

  predicate Hit(memo: PerFileMemo, current: seq<Line>) {
    && |memo.entries| > 0 && memo.aggregate.Some?
    && AllMatch(memo, current)
    && |current| == |memo.entries|
  }

  /** The answer and the memo file after a query; `writable` tells whether the memo can be written. */
  function Query(ctx: Context, world: World, sources: seq<string>, writable: bool): (Result<string>, Option<string>) {
    match StatAll(world.files, SortBy(sources, PathKey))
    case Err(p) => (Err(p), world.memo)
    case Ok(current) =>
      if Hit(ReadMemo(world.memo), current) then (Ok(ReadMemo(world.memo).aggregate.value), world.memo)
      else match Recomputed(ctx, world.files, sources)
        case Err(p) => (Err(p), world.memo)
        case Ok(hash) => (Ok(hash), if writable then Some(MemoText(current, hash)) else world.memo)
  }

  // ----- The workspace -----

  class Workspace {
    const ctx: Context
    var files: map<string, File>
    var memo: Option<string>

    function State(): World
      reads this
    {
      World(files, memo)
    }

    constructor (ctx: Context, files: map<string, File>, memo: Option<string>)
      ensures this.ctx == ctx && State() == World(files, memo)
    {
      this.ctx := ctx;
      this.files := files;
      this.memo := memo;
    }

    method SourcesHash(sources: seq<string>, writable: bool) returns (answer: Result<string>)
      modifies this`memo
      ensures (answer, memo) == Query(ctx, old(State()), sources, writable)
      ensures files == old(files)
    {
      var sorted := SortBy(sources, PathKey);
      var stored := ReadPerFileMemo(memo);
      var stats, allMatch := StatAndMatch(files, sorted, stored);
      if stats.Err? { return Err(stats.path); }
      var current := stats.value;
      if allMatch && |current| == |stored.entries| {
        return Ok(stored.aggregate.value);
      }
      var aggregate := ComputeSourcesHash(ctx.blake3, Contents(files), ctx.cwd, sources);
      if aggregate.Err? { return aggregate; }
      if writable {
        var content := WritePerFileMemo(current, aggregate.value);
        memo := Some(content);
      }
      return aggregate;
    }
  }

  /** The loop over the sorted paths: the stat of each file, and whether all of them match the
      stored memo so far. */
  method StatAndMatch(files: map<string, File>, sorted: seq<string>, stored: PerFileMemo)
    returns (stats: Result<seq<Line>>, allMatch: bool)
    ensures stats == StatAll(files, sorted)
    ensures stats.Ok? ==>
      (allMatch <==> |stored.entries| > 0 && stored.aggregate.Some? && AllMatch(stored, stats.value))
  {
    var current: seq<Line> := [];
    allMatch := |stored.entries| > 0 && stored.aggregate.Some?;
    ghost var all := StatAll(files, sorted);
    assert sorted[0..] == sorted;
    StattedNothing(all);
    for i := 0 to |sorted|
      invariant all == Statted(current, StatAll(files, sorted[i..]))
      invariant allMatch <==> |stored.entries| > 0 && stored.aggregate.Some? && AllMatch(stored, current)
    {
      assert sorted[i..][0] == sorted[i];
      if sorted[i] !in files {
        return Err(sorted[i]), false;
      }
      var file := files[sorted[i]];
      var line := LineOf(sorted[i], file);
      if allMatch && !Matches(stored, line) {
        allMatch := false;
      }
      AllMatchSnoc(stored, current, line);
      StatStep(files, sorted, i, current);
      current := current + [line];
    }
    assert current + [] == current;
    stats := Ok(current);
  }

  ghost function Statted(done: seq<Line>, rest: Result<seq<Line>>): Result<seq<Line>> {
    match rest
    case Err(p) => Err(p)
    case Ok(lines) => Ok(done + lines)
  }

  lemma StattedNothing(rest: Result<seq<Line>>)
    ensures Statted([], rest) == rest
  {
    if rest.Ok? { assert [] + rest.value == rest.value; }
  }

  lemma StatStep(files: map<string, File>, sorted: seq<string>, i: nat, done: seq<Line>)
    requires i < |sorted| && sorted[i] in files
    ensures var line := LineOf(sorted[i], files[sorted[i]]);
      Statted(done, StatAll(files, sorted[i..])) == Statted(done + [line], StatAll(files, sorted[i + 1..]))
  {
    assert sorted[i..][1..] == sorted[i + 1..];
    var line := LineOf(sorted[i], files[sorted[i]]);
    var rest := StatAll(files, sorted[i + 1..]);
    if rest.Ok? { assert done + ([line] + rest.value) == done + [line] + rest.value; }
  }

  // ----- Runs -----

  datatype Event =
    | Edit(path: string, file: File)
    | Remove(path: string)
    | Ask(sources: seq<string>, writable: bool)

  function Step(ctx: Context, world: World, event: Event): World {
    match event
    case Edit(path, file) => world.(files := world.files[path := file])
    case Remove(path) => world.(files := world.files - {path})
    case Ask(sources, writable) => world.(memo := Query(ctx, world, sources, writable).1)
  }

  /** A path with the stat the query sees. */
  datatype Version = Version(path: string, mtime: nat, size: nat)

  function VersionOf(path: string, file: File): Version { Version(path, file.mtime, |file.content|) }

  /** Everything that was ever on disk: the content behind each stat of each path. */
  type History = map<Version, string>

  predicate InBounds(file: File) { file.mtime < U64_LIMIT && |file.content| < U64_LIMIT }

  /** What a run may do. A path never shows one stat for two contents, and queries name each
      path once, with names that the memo format can carry. */
  predicate Admissible(event: Event, seen: History) {
    match event
    case Edit(path, file) =>
      InBounds(file) && (VersionOf(path, file) in seen ==> seen[VersionOf(path, file)] == file.content)
    case Remove(_) => true
    case Ask(sources, _) =>
      && (forall i, j | 0 <= i < j < |sources| :: sources[i] != sources[j])
      && forall i | 0 <= i < |sources| :: Storable(sources[i])
  }

  function SeenAfter(seen: History, event: Event): History {
    if event.Edit? then seen[VersionOf(event.path, event.file) := event.file.content] else seen
  }

  ghost predicate AdmissibleRun(events: seq<Event>, seen: History) {
    events != [] ==> Admissible(events[0], seen) && AdmissibleRun(events[1..], SeenAfter(seen, events[0]))
  }

  /** Every query of the run answers what recomputing from the files would answer. */
  ghost predicate AnswersFresh(ctx: Context, world: World, events: seq<Event>)
    decreases |events|
  {
    events != [] ==>
      && (events[0].Ask? ==>
            Query(ctx, world, events[0].sources, events[0].writable).0
            == Recomputed(ctx, world.files, events[0].sources))
      && AnswersFresh(ctx, Step(ctx, world, events[0]), events[1..])
  }

  // ----- The invariant -----

  ghost predicate Tracked(files: map<string, File>, seen: History) {
    forall p | p in files ::
      InBounds(files[p]) && VersionOf(p, files[p]) in seen && seen[VersionOf(p, files[p])] == files[p].content
  }

  function Paths(lines: seq<Line>): (r: seq<string>)
    ensures |r| == |lines| && forall i | 0 <= i < |lines| :: r[i] == lines[i].path
  {
    seq(|lines|, i requires 0 <= i < |lines| => lines[i].path)
  }

  function LineVersion(line: Line): Version { Version(line.path, line.mtime, line.size) }

  /** The files as they were when the memo lines were taken. */
  ghost function Recording(lines: seq<Line>, seen: History): Disk
    requires forall i | 0 <= i < |lines| :: LineVersion(lines[i]) in seen
  {
    if lines == [] then map[]
    else
      var n := |lines| - 1;
      Recording(lines[..n], seen)[lines[n].path := seen[LineVersion(lines[n])]]
  }

  /** The memo was taken from versions that were on disk, and holds their fingerprint. */
  ghost predicate Recorded(ctx: Context, lines: seq<Line>, aggregate: string, seen: History) {
    && GoodLines(lines) && NoDuplicates(Paths(lines)) && IsHex(aggregate)
    && (forall i | 0 <= i < |lines| :: LineVersion(lines[i]) in seen)
    && Sources.SourcesHash(ctx.blake3, Recording(lines, seen), ctx.cwd, Paths(lines)) == Ok(aggregate)
  }

  ghost predicate Faithful(ctx: Context, memo: Option<string>, seen: History) {
    memo.Some? ==> exists lines, aggregate ::
                     memo.value == MemoText(lines, aggregate) && Recorded(ctx, lines, aggregate, seen)
  }

  ghost predicate Invariant(ctx: Context, world: World, seen: History) {
    Tracked(world.files, seen) && Faithful(ctx, world.memo, seen)
  }

  // ----- Keeping the invariant -----

  lemma PathsSnoc(lines: seq<Line>)
    requires lines != [] && NoDuplicates(Paths(lines))
    ensures var front := lines[..|lines| - 1];
      && Paths(lines) == Paths(front) + [lines[|lines| - 1].path]
      && NoDuplicates(Paths(front)) && lines[|lines| - 1].path !in Paths(front)
  {
    var n := |lines| - 1;
    assert Paths(lines) == Paths(lines[..n]) + [lines[n].path];
  }

  lemma {:induction false} EntryKeys(lines: seq<Line>)
    requires NoDuplicates(Paths(lines))
    ensures |Entries(lines)| == |lines|
    ensures forall p :: p in Entries(lines) <==> p in Paths(lines)
  {
    if lines != [] {
      var front, last := lines[..|lines| - 1], lines[|lines| - 1];
      PathsSnoc(lines);
      EntryKeys(front);
      assert Entries(lines).Keys == Entries(front).Keys + {last.path};
    }
  }

  lemma {:induction false} EntriesAre(lines: seq<Line>)
    requires NoDuplicates(Paths(lines))
    ensures |Entries(lines)| == |lines|
    ensures forall p :: p in Entries(lines) <==> p in Paths(lines)
    ensures forall i | 0 <= i < |lines| :: lines[i].path in Entries(lines) &&
              Entries(lines)[lines[i].path] == (lines[i].mtime, lines[i].size)
  {
    EntryKeys(lines);
    if lines != [] {
      var front, last := lines[..|lines| - 1], lines[|lines| - 1];
      PathsSnoc(lines);
      EntriesAre(front);
      forall i | 0 <= i < |front|
        ensures lines[i].path in Entries(lines) && Entries(lines)[lines[i].path] == (lines[i].mtime, lines[i].size) {
        assert front[i] == lines[i] && Paths(front)[i] == lines[i].path;
      }
    }
  }

  lemma {:induction false} RecordingIs(lines: seq<Line>, seen: History)
    requires NoDuplicates(Paths(lines)) && forall i | 0 <= i < |lines| :: LineVersion(lines[i]) in seen
    ensures forall i | 0 <= i < |lines| :: lines[i].path in Recording(lines, seen) &&
              Recording(lines, seen)[lines[i].path] == seen[LineVersion(lines[i])]
  {
    if lines != [] {
      var n := |lines| - 1;
      assert Paths(lines) == Paths(lines[..n]) + [lines[n].path];
      RecordingIs(lines[..n], seen);
    }
  }

  lemma {:induction false} StatAllIs(files: map<string, File>, paths: seq<string>)
    ensures StatAll(files, paths).Ok? ==> |StatAll(files, paths).value| == |paths|
    ensures StatAll(files, paths).Ok? ==>
              forall i | 0 <= i < |paths| ::
                paths[i] in files && StatAll(files, paths).value[i] == LineOf(paths[i], files[paths[i]])
  {
    if paths != [] { StatAllIs(files, paths[1..]); }
  }

  lemma {:induction false} StatLoad(files: map<string, File>, cwd: Option<string>, paths: seq<string>)
    ensures StatAll(files, paths).Err? ==> Load(Contents(files), cwd, paths) == Err(StatAll(files, paths).path)
    ensures StatAll(files, paths).Ok? ==> Load(Contents(files), cwd, paths).Ok?
  {
    if paths != [] { StatLoad(files, cwd, paths[1..]); }
  }

  lemma {:induction false} LoadSame(a: Disk, b: Disk, cwd: Option<string>, paths: seq<string>)
    requires forall i | 0 <= i < |paths| :: paths[i] in a && paths[i] in b && a[paths[i]] == b[paths[i]]
    ensures Load(a, cwd, paths) == Load(b, cwd, paths)
  {
    if paths != [] { LoadSame(a, b, cwd, paths[1..]); }
  }

  /** A memo hit: every queried file still has the stat that the memo recorded, so its content
      is the recorded one, and by counting the queried paths are all of the recorded ones. */
  lemma HitIsFresh(ctx: Context, files: map<string, File>, seen: History, lines: seq<Line>, aggregate: string,
                   sources: seq<string>, current: seq<Line>)
    requires Tracked(files, seen) && Recorded(ctx, lines, aggregate, seen) && NoDuplicates(sources)
    requires StatAll(files, SortBy(sources, PathKey)) == Ok(current)
    requires Hit(PerFileMemo(Some(aggregate), Entries(lines)), current)
    ensures Recomputed(ctx, files, sources) == Ok(aggregate)
  {
    var sorted := SortBy(sources, PathKey);
    EntriesAre(lines);
    StatAllIs(files, sorted);
    SortByIs(sources, PathKey);
    SortedHasNoDuplicates(sources);
    forall i | 0 <= i < |sorted| ensures sorted[i] in Paths(lines) {
      assert Matches(PerFileMemo(Some(aggregate), Entries(lines)), current[i]);
    }
    SameElements(sorted, Paths(lines));
    PathKeyInjective();
    SortOfSame(sources, Paths(lines), PathKey);
    forall i | 0 <= i < |sorted|
      ensures sorted[i] in files && sorted[i] in Recording(lines, seen)
      ensures files[sorted[i]].content == Recording(lines, seen)[sorted[i]]
    {
      UnchangedContent(files, seen, lines, aggregate, current[i]);
    }
    LoadSame(Contents(files), Recording(lines, seen), ctx.cwd, sorted);
  }

  lemma UnchangedContent(files: map<string, File>, seen: History, lines: seq<Line>, aggregate: string, line: Line)
    requires Tracked(files, seen) && NoDuplicates(Paths(lines))
    requires forall i | 0 <= i < |lines| :: LineVersion(lines[i]) in seen
    requires line.path in files && line == LineOf(line.path, files[line.path])
    requires Matches(PerFileMemo(Some(aggregate), Entries(lines)), line)
    ensures line.path in Recording(lines, seen)
    ensures Recording(lines, seen)[line.path] == files[line.path].content
  {
    EntriesAre(lines);
    RecordingIs(lines, seen);
    var j :| 0 <= j < |lines| && Paths(lines)[j] == line.path;
    assert LineVersion(lines[j]) == VersionOf(line.path, files[line.path]);
  }

  /** A memo miss: the new memo records exactly what was just hashed. */
  lemma MissIsRecorded(ctx: Context, files: map<string, File>, seen: History, sources: seq<string>,
                       current: seq<Line>, aggregate: string)
    requires Tracked(files, seen) && NoDuplicates(sources) && forall i | 0 <= i < |sources| :: Storable(sources[i])
    requires StatAll(files, SortBy(sources, PathKey)) == Ok(current)
    requires Recomputed(ctx, files, sources) == Ok(aggregate)
    ensures Recorded(ctx, current, aggregate, seen)
  {
    var sorted := SortBy(sources, PathKey);
    StatAllIs(files, sorted);
    SortByIs(sources, PathKey);
    SortedHasNoDuplicates(sources);
    assert Paths(current) == sorted;
    forall i | 0 <= i < |sorted| ensures Storable(sorted[i]) {
      assert sorted[i] in multiset(sorted);
      assert sorted[i] in multiset(sources);
    }
    StattedVersions(files, seen, sorted, current);
    RecordingIs(current, seen);
    assert forall i | 0 <= i < |sorted| :: sorted[i] == current[i].path;
    LoadSame(Contents(files), Recording(current, seen), ctx.cwd, sorted);
    PathKeyInjective();
    SortOfSorted(sorted, PathKey);
  }

  lemma StattedVersions(files: map<string, File>, seen: History, sorted: seq<string>, current: seq<Line>)
    requires Tracked(files, seen) && StatAll(files, sorted) == Ok(current)
    requires forall i | 0 <= i < |sorted| :: Storable(sorted[i])
    ensures GoodLines(current)
    ensures forall i | 0 <= i < |current| :: LineVersion(current[i]) in seen
    ensures forall i | 0 <= i < |current| ::
              current[i].path in files && seen[LineVersion(current[i])] == files[current[i].path].content
  {
    StatAllIs(files, sorted);
    forall i | 0 <= i < |current|
      ensures Storable(current[i].path) && current[i].mtime < U64_LIMIT && current[i].size < U64_LIMIT
      ensures current[i].path in files && LineVersion(current[i]) in seen
      ensures seen[LineVersion(current[i])] == files[current[i].path].content
    {
      assert current[i] == LineOf(sorted[i], files[sorted[i]]);
      assert InBounds(files[sorted[i]]);
    }
  }

  /** A query answers what recomputing would, and leaves a memo that can be trusted. */
  lemma QueryIsFresh(ctx: Context, world: World, seen: History, sources: seq<string>, writable: bool)
    requires Invariant(ctx, world, seen) && Admissible(Ask(sources, writable), seen)
    ensures Query(ctx, world, sources, writable).0 == Recomputed(ctx, world.files, sources)
    ensures Faithful(ctx, Query(ctx, world, sources, writable).1, seen)
  {
    var sorted := SortBy(sources, PathKey);
    StatLoad(world.files, ctx.cwd, sorted);
    match StatAll(world.files, sorted)
    case Err(_) =>
    case Ok(current) =>
      var memo := ReadMemo(world.memo);
      if Hit(memo, current) {
        var lines, aggregate :| world.memo.value == MemoText(lines, aggregate) && Recorded(ctx, lines, aggregate, seen);
        MemoRoundTrip(lines, aggregate);
        HitIsFresh(ctx, world.files, seen, lines, aggregate, sources, current);
      } else {
        MissIsRecorded(ctx, world.files, seen, sources, current, Recomputed(ctx, world.files, sources).value);
      }
  }

  lemma {:induction false} RecordingKept(lines: seq<Line>, seen: History, later: History)
    requires forall i | 0 <= i < |lines| :: LineVersion(lines[i]) in seen
    requires forall v | v in seen :: v in later && later[v] == seen[v]
    ensures forall i | 0 <= i < |lines| :: LineVersion(lines[i]) in later
    ensures Recording(lines, later) == Recording(lines, seen)
  {
    if lines != [] { RecordingKept(lines[..|lines| - 1], seen, later); }
  }

  lemma FaithfulKept(ctx: Context, memo: Option<string>, seen: History, later: History)
    requires Faithful(ctx, memo, seen)
    requires forall v | v in seen :: v in later && later[v] == seen[v]
    ensures Faithful(ctx, memo, later)
  {
    if memo.Some? {
      var lines, aggregate :| memo.value == MemoText(lines, aggregate) && Recorded(ctx, lines, aggregate, seen);
      RecordingKept(lines, seen, later);
      assert Recorded(ctx, lines, aggregate, later);
    }
  }

  lemma StepKeepsInvariant(ctx: Context, world: World, seen: History, event: Event)
    requires Invariant(ctx, world, seen) && Admissible(event, seen)
    ensures Invariant(ctx, Step(ctx, world, event), SeenAfter(seen, event))
  {
    match event
    case Edit(path, file) => FaithfulKept(ctx, world.memo, seen, SeenAfter(seen, event));
    case Remove(_) =>
    case Ask(sources, writable) => QueryIsFresh(ctx, world, seen, sources, writable);
  }

  /** Over every admissible run each query answers what full recomputation would. */
  lemma {:induction false} RunsAreFresh(ctx: Context, world: World, seen: History, events: seq<Event>)
    requires Invariant(ctx, world, seen) && AdmissibleRun(events, seen)
    ensures AnswersFresh(ctx, world, events)
    decreases |events|
  {
    if events != [] {
      if events[0].Ask? { QueryIsFresh(ctx, world, seen, events[0].sources, events[0].writable); }
      StepKeepsInvariant(ctx, world, seen, events[0]);
      RunsAreFresh(ctx, Step(ctx, world, events[0]), SeenAfter(seen, events[0]), events[1..]);
    }
  }

  function FirstSeen(files: map<string, File>): History {
    map p | p in files :: VersionOf(p, files[p]) := files[p].content
  }

  lemma FirstSeenTracks(files: map<string, File>)
    requires forall p | p in files :: InBounds(files[p])
    ensures Tracked(files, FirstSeen(files))
  {
    var seen := FirstSeen(files);
    forall p | p in files
      ensures VersionOf(p, files[p]) in seen && seen[VersionOf(p, files[p])] == files[p].content
    {
      assert VersionOf(p, files[p]) in seen;
    }
  }

  lemma RunsWithoutMemo(ctx: Context, files: map<string, File>, seen: History, events: seq<Event>)
    requires Tracked(files, seen) && AdmissibleRun(events, seen)
    ensures AnswersFresh(ctx, World(files, None), events)
  {
    RunsAreFresh(ctx, World(files, None), seen, events);
  }

  /** In particular from any files without a memo. */
  lemma FirstRunsAreFresh(ctx: Context, files: map<string, File>, events: seq<Event>)
    requires forall p | p in files :: InBounds(files[p])
    requires AdmissibleRun(events, FirstSeen(files))
    ensures AnswersFresh(ctx, World(files, None), events)
  {
    FirstSeenTracks(files);
    RunsWithoutMemo(ctx, files, FirstSeen(files), events);
  }
}
