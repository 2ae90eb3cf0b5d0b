/** That the memo saves the hashing, and why its freshness needs each of its conditions: for
    every one of them a run that breaks only that one and is answered wrongly. */
module MemoLimits {
  import opened Text
  import opened Digest
  import opened Order
  import opened Sources
  import opened Memo
  import opened MemoRuns

  // ----- What a query does to the memo -----

  /** A query that fails or that cannot write leaves the memo as it is. */
  lemma MemoStays(ctx: Context, world: World, sources: seq<string>, writable: bool)
    requires !writable || Query(ctx, world, sources, writable).0.Err?
    ensures Query(ctx, world, sources, writable).1 == world.memo
  {
  }

  lemma CurrentLines(files: map<string, File>, sources: seq<string>, current: seq<Line>)
    requires (forall p | p in files :: InBounds(files[p])) && NoDuplicates(sources)
    requires forall i | 0 <= i < |sources| :: Storable(sources[i])
    requires StatAll(files, SortBy(sources, PathKey)) == Ok(current)
    ensures GoodLines(current) && NoDuplicates(Paths(current)) && |current| == |sources|
  {
    var sorted := SortBy(sources, PathKey);
    StatAllIs(files, sorted);
    SortByIs(sources, PathKey);
    SortedHasNoDuplicates(sources);
    assert |multiset(sorted)| == |sorted| && |multiset(sources)| == |sources|;
    assert Paths(current) == sorted;
    forall i | 0 <= i < |current|
      ensures Storable(current[i].path) && current[i].mtime < U64_LIMIT && current[i].size < U64_LIMIT
    {
      assert sorted[i] in multiset(sorted) && sorted[i] in multiset(sources);
      assert InBounds(files[sorted[i]]);
    }
  }

  lemma RecordedHit(current: seq<Line>, hash: string)
    requires GoodLines(current) && NoDuplicates(Paths(current)) && current != [] && IsHex(hash)
    ensures Answers(current, hash, current)
  {
    MemoRoundTrip(current, hash);
    EntriesAre(current);
    var memo := PerFileMemo(Some(hash), Entries(current));
    forall i | 0 <= i < |current| ensures Matches(memo, current[i]) { }
    assert |memo.entries| == |current|;
  }

  /** Asking again before anything changes answers the same from the memo: without hashing,
      so whatever the digest is by then, and without writing. */
  lemma AskAgain(ctx: Context, later: Context, files: map<string, File>, memo: Option<string>,
                 sources: seq<string>, writable: bool)
    requires (forall p | p in files :: InBounds(files[p])) && NoDuplicates(sources) && sources != []
    requires forall i | 0 <= i < |sources| :: Storable(sources[i])
    requires Query(ctx, World(files, memo), sources, true).0.Ok?
    ensures var first := Query(ctx, World(files, memo), sources, true);
            Query(later, World(files, first.1), sources, writable) == first
  {
    var current := StatAll(files, SortBy(sources, PathKey)).value;
    if !Hit(ReadMemo(memo), current) {
      CurrentLines(files, sources, current);
      RecordedHit(current, Recomputed(ctx, files, sources).value);
    }
  }

  // ----- Short runs -----

  ghost predicate FreshAt(ctx: Context, world: World, event: Event) {
    event.Ask? ==>
      Query(ctx, world, event.sources, event.writable).0 == Recomputed(ctx, world.files, event.sources)
  }

  lemma RunCons(ctx: Context, world: World, event: Event, rest: seq<Event>)
    ensures AnswersFresh(ctx, world, [event] + rest)
       <==> FreshAt(ctx, world, event) && AnswersFresh(ctx, Step(ctx, world, event), rest)
  {
    assert ([event] + rest)[1..] == rest;
  }

  lemma RunOfTwo(ctx: Context, world: World, first: Event, second: Event)
    ensures AnswersFresh(ctx, world, [first, second])
       <==> FreshAt(ctx, world, first) && FreshAt(ctx, Step(ctx, world, first), second)
  {
    RunCons(ctx, world, first, [second]);
    RunCons(ctx, Step(ctx, world, first), second, []);
    assert [first, second] == [first] + [second] && [second] == [second] + [];
  }

  lemma RunOfThree(ctx: Context, world: World, first: Event, second: Event, third: Event)
    ensures AnswersFresh(ctx, world, [first, second, third])
       <==> && FreshAt(ctx, world, first) && FreshAt(ctx, Step(ctx, world, first), second)
            && FreshAt(ctx, Step(ctx, Step(ctx, world, first), second), third)
  {
    RunCons(ctx, world, first, [second, third]);
    RunOfTwo(ctx, Step(ctx, world, first), second, third);
    assert [first, second, third] == [first] + [second, third];
  }

  /** Without a memo a query hashes and records. */
  lemma FirstAsk(ctx: Context, files: map<string, File>, sources: seq<string>, current: seq<Line>)
    requires StatAll(files, SortBy(sources, PathKey)) == Ok(current)
    ensures FreshAt(ctx, World(files, None), Ask(sources, true))
    ensures var hash := Recomputed(ctx, files, sources);
      hash.Ok? && IsHex(hash.value) &&
      Step(ctx, World(files, None), Ask(sources, true)) == World(files, Some(MemoText(current, hash.value)))
  {
    StatLoad(files, ctx.cwd, SortBy(sources, PathKey));
  }

  lemma AnswerFromMemo(ctx: Context, world: World, sources: seq<string>, current: seq<Line>)
    requires StatAll(world.files, SortBy(sources, PathKey)) == Ok(current) && Hit(ReadMemo(world.memo), current)
    ensures Query(ctx, world, sources, true).0 == Ok(ReadMemo(world.memo).aggregate.value)
  {
  }

  lemma SortOfPair(x: string, y: string)
    ensures SortBy([x, y], PathKey) == [x, y] || SortBy([x, y], PathKey) == [y, x]
  {
    var sorted := SortBy([x, y], PathKey);
    SortByIs([x, y], PathKey);
    assert |multiset(sorted)| == |sorted| && |multiset([x, y])| == 2;
    assert sorted == [sorted[0], sorted[1]];
    assert sorted[0] in multiset(sorted) && sorted[1] in multiset(sorted);
    assert x in multiset([x, y]) && y in multiset([x, y]);
    assert multiset([x, y]) == multiset{x, y};
    assert multiset(sorted) == multiset{sorted[0], sorted[1]};
  }

  lemma SortOfOne(x: string)
    ensures SortBy([x], PathKey) == [x]
  {
    assert [x][..0] == [];
  }

  lemma StatOne(files: map<string, File>, x: string)
    requires x in files
    ensures StatAll(files, [x]) == Ok([LineOf(x, files[x])])
  {
    StatCons(files, [x]);
    assert StatAll(files, [x]).value == [LineOf(x, files[x])];
  }

  lemma StatCons(files: map<string, File>, paths: seq<string>)
    requires paths != [] && paths[0] in files && StatAll(files, paths[1..]).Ok?
    ensures StatAll(files, paths) == Ok([LineOf(paths[0], files[paths[0]])] + StatAll(files, paths[1..]).value)
  {
  }

  lemma StatPair(files: map<string, File>, x: string, y: string)
    requires x in files && y in files
    ensures StatAll(files, [x, y]) == Ok([LineOf(x, files[x]), LineOf(y, files[y])])
  {
    StatOne(files, y);
    assert [x, y][1..] == [y];
    StatCons(files, [x, y]);
    assert StatAll(files, [x, y]).value == [LineOf(x, files[x]), LineOf(y, files[y])];
  }

  lemma StatSortedPair(files: map<string, File>, x: string, y: string) returns (current: seq<Line>)
    requires x in files && y in files
    ensures StatAll(files, SortBy([x, y], PathKey)) == Ok(current)
    ensures var a, b := LineOf(x, files[x]), LineOf(y, files[y]); current == [a, b] || current == [b, a]
  {
    SortOfPair(x, y);
    StatPair(files, x, y);
    StatPair(files, y, x);
    current := StatAll(files, SortBy([x, y], PathKey)).value;
  }

  /** The memo of one query answers another one. */
  ghost predicate Answers(stored: seq<Line>, hash: string, current: seq<Line>) {
    var memo := ReadMemo(Some(MemoText(stored, hash)));
    memo.aggregate == Some(hash) && Hit(memo, current)
  }

  /** Two queries of which the second is answered from the memo of the first: the answers are
      fresh exactly when recomputing gives both the same fingerprint. */
  lemma TwoAsks(ctx: Context, files: map<string, File>, first: seq<string>, second: seq<string>,
                stored: seq<Line>, current: seq<Line>)
    requires StatAll(files, SortBy(first, PathKey)) == Ok(stored)
    requires StatAll(files, SortBy(second, PathKey)) == Ok(current)
    requires forall hash | IsHex(hash) :: Answers(stored, hash, current)
    ensures AnswersFresh(ctx, World(files, None), [Ask(first, true), Ask(second, true)])
       <==> Recomputed(ctx, files, first) == Recomputed(ctx, files, second)
  {
    FirstAsk(ctx, files, first, stored);
    RunOfTwo(ctx, World(files, None), Ask(first, true), Ask(second, true));
    var hash := Recomputed(ctx, files, first).value;
    assert Answers(stored, hash, current);
    AnswerFromMemo(ctx, World(files, Some(MemoText(stored, hash))), second, current);
  }

  // ----- Some digest tells two lists of files apart -----

  lemma LoadCons(disk: Disk, cwd: Option<string>, paths: seq<string>)
    requires paths != [] && paths[0] in disk && Load(disk, cwd, paths[1..]).Ok?
    ensures Load(disk, cwd, paths)
         == Ok([Source(HashName(cwd, paths[0]), disk[paths[0]])] + Load(disk, cwd, paths[1..]).value)
  {
  }

  function SourceOf(cwd: Option<string>, path: string, file: File): Source { Source(HashName(cwd, path), file.content) }

  lemma LoadOne(cwd: Option<string>, files: map<string, File>, x: string)
    requires x in files
    ensures Load(Contents(files), cwd, SortBy([x], PathKey)) == Ok([SourceOf(cwd, x, files[x])])
  {
    SortOfOne(x);
    LoadSingle(Contents(files), cwd, x);
  }

  lemma LoadSingle(disk: Disk, cwd: Option<string>, x: string)
    requires x in disk
    ensures Load(disk, cwd, [x]) == Ok([Source(HashName(cwd, x), disk[x])])
  {
    assert [x][1..] == [];
    LoadCons(disk, cwd, [x]);
    assert Load(disk, cwd, [x]).value == [Source(HashName(cwd, x), disk[x])];
  }

  lemma LoadPair(cwd: Option<string>, files: map<string, File>, x: string, y: string)
    requires x in files && y in files
    ensures Load(Contents(files), cwd, [x, y]) == Ok([SourceOf(cwd, x, files[x]), SourceOf(cwd, y, files[y])])
  {
    LoadSingle(Contents(files), cwd, y);
    assert [x, y][1..] == [y];
    LoadCons(Contents(files), cwd, [x, y]);
    assert Load(Contents(files), cwd, [x, y]).value == [SourceOf(cwd, x, files[x]), SourceOf(cwd, y, files[y])];
  }

  lemma LoadSortedPair(cwd: Option<string>, files: map<string, File>, x: string, y: string)
    returns (loaded: seq<Source>)
    requires x in files && y in files
    ensures Load(Contents(files), cwd, SortBy([x, y], PathKey)) == Ok(loaded)
    ensures var a, b := SourceOf(cwd, x, files[x]), SourceOf(cwd, y, files[y]); loaded == [a, b] || loaded == [b, a]
  {
    SortOfPair(x, y);
    LoadPair(cwd, files, x, y);
    LoadPair(cwd, files, y, x);
    loaded := Load(Contents(files), cwd, SortBy([x, y], PathKey)).value;
  }

  /** The digest and directory under which two streams have different fingerprints. */
  function Apart(cwd: Option<string>, a: seq<Source>): Context { Context(SinglingOut(Stream(a)), cwd) }

  lemma FingerprintsDiffer(cwd: Option<string>, a: seq<Source>, b: seq<Source>)
    requires Stream(a) != Stream(b)
    ensures HashOf(Apart(cwd, a).blake3, Ok(a)) != HashOf(Apart(cwd, a).blake3, Ok(b))
  {
    SomeDigestDiffers(Stream(a), Stream(b));
  }

  /** Under some digest the run is answered wrongly. */
  ghost predicate Misled(cwd: Option<string>, files: map<string, File>, events: seq<Event>) {
    exists blake3: string -> nat :: !AnswersFresh(Context(blake3, cwd), World(files, None), events)
  }

  lemma MisledBy(cwd: Option<string>, files: map<string, File>, events: seq<Event>, ctx: Context)
    requires ctx.cwd == cwd && !AnswersFresh(ctx, World(files, None), events)
    ensures Misled(cwd, files, events)
  {
    assert ctx == Context(ctx.blake3, cwd);
  }

  // ----- A path named twice -----

  lemma RepeatedHit(current: seq<Line>, line: Line, other: Line, hash: string)
    requires current == [line, other] || current == [other, line]
    requires GoodLines([line, other]) && line.path != other.path && IsHex(hash)
    ensures Answers(current, hash, [line, line])
  {
    assert [line, other][0] == line && [line, other][1] == other;
    MemoRoundTrip(current, hash);
    EntriesAre(current);
    var i := if current[0] == line then 0 else 1;
    assert current[i] == line;
    assert Matches(PerFileMemo(Some(hash), Entries(current)), line);
  }

  /** A memo taken for [a, b] answers a query for [a, a], with the fingerprint of [a, b]. */
  lemma RepeatedPathMisleads(ctx: Context, files: map<string, File>, a: string, b: string)
    requires a in files && b in files && a != b && Storable(a) && Storable(b)
    requires InBounds(files[a]) && InBounds(files[b])
    ensures AnswersFresh(ctx, World(files, None), [Ask([a, b], true), Ask([a, a], true)])
       <==> Recomputed(ctx, files, [a, b]) == Recomputed(ctx, files, [a, a])
  {
    var stored := StatSortedPair(files, a, b);
    var line := LineOf(a, files[a]);
    SortOfPair(a, a);
    StatPair(files, a, a);
    forall hash | IsHex(hash) ensures Answers(stored, hash, [line, line]) {
      RepeatedHit(stored, line, LineOf(b, files[b]), hash);
    }
    TwoAsks(ctx, files, [a, b], [a, a], stored, [line, line]);
  }

  /** For files that can be told apart in the stream that answer is wrong under some digest. */
  lemma RepeatedPathMisled(cwd: Option<string>, files: map<string, File>, a: string, b: string)
    requires a in files && b in files && a != b && Storable(a) && Storable(b)
    requires InBounds(files[a]) && InBounds(files[b])
    requires SourceOf(cwd, a, files[a]) != SourceOf(cwd, b, files[b])
    requires NulFree([SourceOf(cwd, a, files[a]), SourceOf(cwd, b, files[b])])
    ensures Misled(cwd, files, [Ask([a, b], true), Ask([a, a], true)])
  {
    var loaded := LoadSortedPair(cwd, files, a, b);
    var twice := LoadSortedPair(cwd, files, a, a);
    PairFromTwice(SourceOf(cwd, a, files[a]), SourceOf(cwd, b, files[b]), loaded, twice);
    FingerprintsDiffer(cwd, loaded, twice);
    RepeatedPathMisleads(Apart(cwd, loaded), files, a, b);
    MisledBy(cwd, files, [Ask([a, b], true), Ask([a, a], true)], Apart(cwd, loaded));
  }

  lemma PairFromTwice(x: Source, y: Source, pair: seq<Source>, twice: seq<Source>)
    requires x != y && NulFree([x, y])
    requires pair == [x, y] || pair == [y, x]
    requires twice == [x, x]
    ensures Stream(pair) != Stream(twice)
  {
    assert [x, y][0] == x && [x, y][1] == y;
    assert NulFree(pair) && NulFree(twice);
    assert pair[0] != twice[0] || pair[1] != twice[1];
    StreamInjective(pair, twice);
  }

  // ----- A path with a tab -----

  lemma {:induction false} SplitMore(before: string, after: string)
    ensures |SplitTabs(before + "\t" + after)| >= 1 + |SplitTabs(after)|
    decreases |before|
  {
    var i := TabAt(before);
    TabAtSplits(before);
    if i == |before| {
      SplitStep(before, after);
    } else {
      var rest := before[i + 1..];
      SplitStep(before[..i], rest + "\t" + after);
      assert before + "\t" + after == before[..i] + "\t" + (rest + "\t" + after);
      SplitMore(rest, after);
    }
  }

  lemma {:induction false} TabAtSplits(s: string)
    ensures var i := TabAt(s); Lacks(s[..i], '\t') && (i < |s| ==> s[i] == '\t')
    ensures Lacks(s, '\t') <==> TabAt(s) == |s|
  {
    if s != [] && s[0] != '\t' {
      var i := TabAt(s[1..]);
      TabAtSplits(s[1..]);
      assert s[..i + 1] == [s[0]] + s[1..][..i];
      assert s == [s[0]] + s[1..];
    }
  }

  /** A tab in front of a text of two fields makes at least four of them. */
  lemma ManyParts(path: string, numbers: string)
    requires !Lacks(path, '\t') && |SplitTabs(numbers)| == 2
    ensures |SplitTabs(path + "\t" + numbers)| >= 4
  {
    var i := TabAt(path);
    TabAtSplits(path);
    var rest := path[i + 1..];
    assert path + "\t" + numbers == path[..i] + "\t" + (rest + "\t" + numbers);
    SplitStep(path[..i], rest + "\t" + numbers);
    SplitMore(rest, numbers);
  }

  lemma NumberParts(m: nat, n: nat)
    ensures |SplitTabs(Decimal(m) + "\t" + Decimal(n))| == 2
  {
    DecimalDigits(m);
    DecimalDigits(n);
    SplitStep(Decimal(m), Decimal(n));
    TabNowhere(Decimal(n));
  }

  /** A word that ends in its only tab starts a text only together with the first tab of it. */
  lemma StartsWithWord(word: string, path: string, rest: string)
    requires !Lacks(path, '\t') && !(word <= path)
    requires forall i | 0 <= i < |word| - 1 :: word[i] != '\t'
    ensures !(word <= path + rest)
  {
    var i := TabAt(path);
    TabAtSplits(path);
    var text := path + rest;
    assert text[i] == '\t';
    if |path| < |word| {
      assert word[i] != text[i];
    } else {
      assert text[..|word|] == path[..|word|];
    }
  }

  /** A line whose path has a tab is not read as an entry. */
  lemma TabbedLineSkipped(memo: PerFileMemo, line: Line)
    requires !Lacks(line.path, '\t') && !("aggregate\t" <= line.path)
    ensures ReadLine(memo, LineText(line)) == memo
  {
    NumberParts(line.mtime, line.size);
    SkippedText(memo, line.path, Decimal(line.mtime) + "\t" + Decimal(line.size));
  }

  lemma SkippedText(memo: PerFileMemo, path: string, numbers: string)
    requires !Lacks(path, '\t') && !("aggregate\t" <= path) && |SplitTabs(numbers)| == 2
    ensures ReadLine(memo, path + "\t" + numbers) == memo
  {
    ManyParts(path, numbers);
    assert path + "\t" + numbers == path + ("\t" + numbers);
    StartsWithWord("aggregate\t", path, "\t" + numbers);
  }

  lemma LineTextsOfTwo(x: Line, y: Line)
    ensures LineTexts([x, y]) == [LineText(x), LineText(y)]
  {
    assert [x, y][1..] == [y] && [y][1..] == [];
    assert LineTexts([y]) == [LineText(y)];
  }

  lemma {:induction false} ReadThree(first: string, second: string, third: string)
    ensures ReadLines(EMPTY, [first, second, third]) == ReadLine(ReadLine(ReadLine(EMPTY, first), second), third)
  {
    ReadLinesSnoc(EMPTY, [first, second], third);
    ReadLinesSnoc(EMPTY, [first], second);
    ReadLinesSnoc(EMPTY, [], first);
    assert [first, second, third] == [first, second] + [third];
    assert [first, second] == [first] + [second];
    assert [] + [first] == [first];
  }

  /** Reading back a memo of two lines, whatever its paths are. */
  lemma TwoLineMemo(x: Line, y: Line, hash: string)
    requires IsHex(hash) && Lacks(x.path, '\n') && Lacks(y.path, '\n')
    ensures ReadMemo(Some(MemoText([x, y], hash)))
         == ReadLine(ReadLine(PerFileMemo(Some(hash), map[]), LineText(x)), LineText(y))
  {
    var head: string := "aggregate\t" + hash;
    var all := [head, LineText(x), LineText(y)];
    LineTextsOfTwo(x, y);
    assert ["aggregate\t" + hash] + LineTexts([x, y]) == all;
    HeadLine(hash);
    LineTextClean(x);
    LineTextClean(y);
    LinesOfTerminated(all);
    ReadThree(head, LineText(x), LineText(y));
  }

  lemma HeadLine(hash: string)
    requires IsHex(hash)
    ensures var head: string := "aggregate\t" + hash;
      ReadLine(EMPTY, head) == PerFileMemo(Some(hash), map[]) && Lacks(head, '\n') && !LastIs(head, '\r')
  {
    var head: string := "aggregate\t" + hash;
    assert head[|"aggregate\t"|..] == hash;
    assert IsHexDigit(hash[|hash| - 1]);
    assert Lacks("aggregate\t", '\n');
  }

  lemma SingleHit(hash: string, line: Line)
    ensures Hit(PerFileMemo(Some(hash), map[line.path := (line.mtime, line.size)]), [line])
  {
  }

  lemma TabbedHit(stored: seq<Line>, tabbed: Line, line: Line, hash: string)
    requires stored == [tabbed, line] || stored == [line, tabbed]
    requires GoodLines([line]) && IsHex(hash)
    requires !Lacks(tabbed.path, '\t') && Lacks(tabbed.path, '\n') && !("aggregate\t" <= tabbed.path)
    ensures Answers(stored, hash, [line])
  {
    assert [line][0] == line;
    TwoLineMemo(stored[0], stored[1], hash);
    assert stored == [stored[0], stored[1]];
    var memo := PerFileMemo(Some(hash), map[]);
    TabbedLineSkipped(memo, tabbed);
    ReadLineText(memo, line);
    TabbedLineSkipped(ReadLine(memo, LineText(line)), tabbed);
    SingleHit(hash, line);
  }

  /** A memo taken for a path with a tab and another path answers a query for the other alone. */
  lemma TabbedPathMisleads(ctx: Context, files: map<string, File>, p: string, b: string)
    requires p in files && b in files && Storable(b) && InBounds(files[b])
    requires !Lacks(p, '\t') && Lacks(p, '\n') && !("aggregate\t" <= p)
    ensures AnswersFresh(ctx, World(files, None), [Ask([p, b], true), Ask([b], true)])
       <==> Recomputed(ctx, files, [p, b]) == Recomputed(ctx, files, [b])
  {
    var stored := StatSortedPair(files, p, b);
    var line := LineOf(b, files[b]);
    SortOfOne(b);
    StatOne(files, b);
    forall hash | IsHex(hash) ensures Answers(stored, hash, [line]) {
      TabbedHit(stored, LineOf(p, files[p]), line, hash);
    }
    TwoAsks(ctx, files, [p, b], [b], stored, [line]);
  }

  lemma PairIsLonger(a: Source, b: Source)
    ensures |Stream([a, b])| > |Stream([a])| && |Stream([a, b])| > |Stream([b])|
  {
    assert [a, b][1..] == [b] && [b][1..] == [] && [a][1..] == [];
    assert Stream([b]) == b.Frame() + Stream([]) && Stream([a]) == a.Frame() + Stream([]);
    assert Stream([a, b]) == a.Frame() + Stream([b]);
  }

  lemma TabbedPathMisled(cwd: Option<string>, files: map<string, File>, p: string, b: string)
    requires p in files && b in files && Storable(b) && InBounds(files[b])
    requires !Lacks(p, '\t') && Lacks(p, '\n') && !("aggregate\t" <= p)
    ensures Misled(cwd, files, [Ask([p, b], true), Ask([b], true)])
  {
    var loaded := LoadSortedPair(cwd, files, p, b);
    LoadOne(cwd, files, b);
    PairIsLonger(loaded[0], loaded[1]);
    assert loaded == [loaded[0], loaded[1]];
    FingerprintsDiffer(cwd, loaded, [SourceOf(cwd, b, files[b])]);
    TabbedPathMisleads(Apart(cwd, loaded), files, p, b);
    MisledBy(cwd, files, [Ask([p, b], true), Ask([b], true)], Apart(cwd, loaded));
  }

  // ----- A path with a line feed -----

  /** The line of a path that holds a line feed is read as the line of what follows it. */
  lemma BrokenLineMemo(x: string, line: Line, broken: Line, hash: string)
    requires IsHex(hash) && Lacks(x, '\t') && Lacks(x, '\n') && GoodLines([line])
    requires broken == line.(path := x + "\n" + line.path)
    ensures ReadMemo(Some(MemoText([broken], hash)))
         == PerFileMemo(Some(hash), map[line.path := (line.mtime, line.size)])
  {
    var head: string := "aggregate\t" + hash;
    var memo := PerFileMemo(Some(hash), map[]);
    assert [line][0] == line;
    HeadLine(hash);
    LineTextClean(line);
    BrokenText(x, line, broken, head);
    LinesOfTerminated([head, x, LineText(line)]);
    DropCrsAt([head, x, LineText(line)]);
    assert DropCrs([head, x, LineText(line)]) == [head, DropCr(x), LineText(line)];
    ReadThree(head, DropCr(x), LineText(line));
    PlainLineSkipped(memo, DropCr(x));
    ReadLineText(memo, line);
  }

  lemma BrokenText(x: string, line: Line, broken: Line, head: string)
    requires broken == line.(path := x + "\n" + line.path)
    ensures Unlines([head] + LineTexts([broken])) == Unlines([head, x, LineText(line)])
  {
    assert LineTexts([broken]) == [LineText(broken)];
    assert LineText(broken) == x + "\n" + LineText(line);
    assert [head] + LineTexts([broken]) == [head] + [LineText(broken)];
    UnlinesSnoc([head], LineText(broken));
    UnlinesSnoc([head] + [x], LineText(line));
    UnlinesSnoc([head], x);
    assert [head, x, LineText(line)] == [head] + [x] + [LineText(line)];
  }

  lemma PlainLineSkipped(memo: PerFileMemo, line: string)
    requires Lacks(line, '\t')
    ensures ReadLine(memo, line) == memo
  {
    TabNowhere(line);
    assert "aggregate\t"[9] == '\t';
    NoTabNoPrefix("aggregate\t", line, 9);
  }

  lemma NoTabNoPrefix(word: string, line: string, i: nat)
    requires i < |word| && word[i] == '\t' && Lacks(line, '\t')
    ensures !(word <= line)
  {
    if |word| <= |line| { assert line[i] != word[i]; }
  }

  /** A memo taken for a path with a line feed answers a query for what follows the line feed,
      when that file shows the same stat. */
  lemma BrokenPathMisleads(ctx: Context, files: map<string, File>, x: string, y: string)
    requires x + "\n" + y in files && y in files && Storable(y) && InBounds(files[y])
    requires Lacks(x, '\t') && Lacks(x, '\n')
    requires files[y].mtime == files[x + "\n" + y].mtime && |files[y].content| == |files[x + "\n" + y].content|
    ensures AnswersFresh(ctx, World(files, None), [Ask([x + "\n" + y], true), Ask([y], true)])
       <==> Recomputed(ctx, files, [x + "\n" + y]) == Recomputed(ctx, files, [y])
  {
    var p := x + "\n" + y;
    var broken, line := LineOf(p, files[p]), LineOf(y, files[y]);
    SortOfOne(p);
    SortOfOne(y);
    StatOne(files, p);
    StatOne(files, y);
    assert [line][0] == line;
    forall hash | IsHex(hash) ensures Answers([broken], hash, [line]) {
      BrokenLineMemo(x, line, broken, hash);
      SingleHit(hash, line);
    }
    TwoAsks(ctx, files, [p], [y], [broken], [line]);
  }

  lemma BrokenPathMisled(cwd: Option<string>, files: map<string, File>, x: string, y: string)
    requires x + "\n" + y in files && y in files && Storable(y) && InBounds(files[y])
    requires Lacks(x, '\t') && Lacks(x, '\n')
    requires files[y].mtime == files[x + "\n" + y].mtime && |files[y].content| == |files[x + "\n" + y].content|
    requires var a, b := SourceOf(cwd, x + "\n" + y, files[x + "\n" + y]), SourceOf(cwd, y, files[y]);
             a != b && NulFree([a]) && NulFree([b])
    ensures Misled(cwd, files, [Ask([x + "\n" + y], true), Ask([y], true)])
  {
    var p := x + "\n" + y;
    var a, b := SourceOf(cwd, p, files[p]), SourceOf(cwd, y, files[y]);
    LoadOne(cwd, files, p);
    LoadOne(cwd, files, y);
    assert [a][0] == a && [b][0] == b;
    StreamInjective([a], [b]);
    FingerprintsDiffer(cwd, [a], [b]);
    BrokenPathMisleads(Apart(cwd, [a]), files, x, y);
    MisledBy(cwd, files, [Ask([p], true), Ask([y], true)], Apart(cwd, [a]));
  }

  // ----- An edit that keeps the stat -----

  lemma OneHit(line: Line, hash: string)
    requires GoodLines([line]) && IsHex(hash)
    ensures Answers([line], hash, [line])
  {
    MemoRoundTrip([line], hash);
    EntriesAre([line]);
    assert [line][0] == line;
    assert Matches(PerFileMemo(Some(hash), Entries([line])), line);
  }

  /** An edit that keeps modification time and size goes unnoticed. */
  lemma SameStatMisleads(ctx: Context, files: map<string, File>, a: string, edited: File)
    requires a in files && Storable(a) && InBounds(files[a])
    requires edited.mtime == files[a].mtime && |edited.content| == |files[a].content|
    ensures AnswersFresh(ctx, World(files, None), [Ask([a], true), Edit(a, edited), Ask([a], true)])
       <==> Recomputed(ctx, files, [a]) == Recomputed(ctx, files[a := edited], [a])
  {
    var line := LineOf(a, files[a]);
    SortOfOne(a);
    StatOne(files, a);
    StatOne(files[a := edited], a);
    FirstAsk(ctx, files, [a], [line]);
    var hash := Recomputed(ctx, files, [a]).value;
    assert [line][0] == line;
    OneHit(line, hash);
    RunOfThree(ctx, World(files, None), Ask([a], true), Edit(a, edited), Ask([a], true));
    AnswerFromMemo(ctx, World(files[a := edited], Some(MemoText([line], hash))), [a], [line]);
  }

  lemma SameStatMisled(cwd: Option<string>, files: map<string, File>, a: string, edited: File)
    requires a in files && Storable(a) && InBounds(files[a])
    requires edited.mtime == files[a].mtime && |edited.content| == |files[a].content|
    requires edited.content != files[a].content
    ensures Misled(cwd, files, [Ask([a], true), Edit(a, edited), Ask([a], true)])
  {
    var x, y := SourceOf(cwd, a, files[a]), SourceOf(cwd, a, edited);
    LoadOne(cwd, files, a);
    LoadOne(cwd, files[a := edited], a);
    SameNameStreams(x.name, x.content, y.content);
    FingerprintsDiffer(cwd, [x], [y]);
    SameStatMisleads(Apart(cwd, [x]), files, a, edited);
    MisledBy(cwd, files, [Ask([a], true), Edit(a, edited), Ask([a], true)], Apart(cwd, [x]));
  }

  lemma SameNameStreams(name: string, a: string, b: string)
    requires a != b
    ensures Stream([Source(name, a)]) != Stream([Source(name, b)])
  {
    var lead := "src\0" + name + "\0";
    StreamOfOne(Source(name, a));
    StreamOfOne(Source(name, b));
    assert Source(name, a).Frame() == lead + a && Source(name, b).Frame() == lead + b;
    assert (lead + a)[|lead|..] == a && (lead + b)[|lead|..] == b;
  }

  lemma StreamOfOne(source: Source)
    ensures Stream([source]) == source.Frame()
  {
    assert [source][1..] == [];
    assert source.Frame() + [] == source.Frame();
  }

  // ----- A file named aggregate -----

  lemma ReadAggregateLine(memo: PerFileMemo, line: Line)
    requires line.path == "aggregate"
    ensures ReadLine(memo, LineText(line)) == memo.(aggregate := Some(Decimal(line.mtime) + "\t" + Decimal(line.size)))
  {
    var rest := Decimal(line.mtime) + "\t" + Decimal(line.size);
    assert LineText(line) == "aggregate\t" + rest;
  }

  /** The memo file of two lines, one of them for a file named `aggregate`. */
  lemma AggregateFileMemo(x: Line, y: Line, b: Line, named: Line, hash: string)
    requires named.path == "aggregate" && Storable(b.path) && IsHex(hash)
    requires b.mtime < U64_LIMIT && b.size < U64_LIMIT
    requires (x == named && y == b) || (x == b && y == named)
    ensures ReadMemo(Some(MemoText([x, y], hash)))
         == PerFileMemo(Some(Decimal(named.mtime) + "\t" + Decimal(named.size)), map[b.path := (b.mtime, b.size)])
  {
    assert Lacks("aggregate", '\n');
    TwoLineMemo(x, y, hash);
    var memo := PerFileMemo(Some(hash), map[]);
    ReadAggregateLine(memo, named);
    ReadLineText(memo, b);
    ReadLineText(ReadLine(memo, LineText(named)), b);
    ReadAggregateLine(ReadLine(memo, LineText(b)), named);
  }

  lemma StatIsNoDigest(m: nat, n: nat)
    ensures !IsHex(Decimal(m) + "\t" + Decimal(n))
  {
    var s := Decimal(m) + "\t" + Decimal(n);
    assert s[|Decimal(m)|] == '\t' && !IsHexDigit('\t');
  }

  /** A source file named `aggregate` overwrites the stored fingerprint with its own stat, and
      the next query for the other file alone answers that stat, whatever the digest. */
  lemma AggregateFileMisleads(ctx: Context, files: map<string, File>, b: string)
    requires "aggregate" in files && b in files && Storable(b) && InBounds(files[b])
    ensures var world := Step(ctx, World(files, None), Ask(["aggregate", b], true));
      Query(ctx, world, [b], true).0
      == Ok(Decimal(files["aggregate"].mtime) + "\t" + Decimal(|files["aggregate"].content|))
    ensures !AnswersFresh(ctx, World(files, None), [Ask(["aggregate", b], true), Ask([b], true)])
  {
    SortOfOne(b);
    StatOne(files, b);
    var current := StatSortedPair(files, "aggregate", b);
    FirstAsk(ctx, files, ["aggregate", b], current);
    FirstAsk(ctx, files, [b], [LineOf(b, files[b])]);
    var hash := Recomputed(ctx, files, ["aggregate", b]).value;
    var named, line := LineOf("aggregate", files["aggregate"]), LineOf(b, files[b]);
    AggregateFileMemo(current[0], current[1], line, named, hash);
    assert current == [current[0], current[1]];
    AnswerFromMemo(ctx, World(files, Some(MemoText(current, hash))), [b], [line]);
    StatIsNoDigest(named.mtime, named.size);
    RunOfTwo(ctx, World(files, None), Ask(["aggregate", b], true), Ask([b], true));
  }
}
