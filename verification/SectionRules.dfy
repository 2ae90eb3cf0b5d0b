/** Which lines and blocks the removal of Rust-only material keeps, one by one. */
module SectionRules {
  import opened Text
  import opened Fences
  import opened Sections

  // ----- Skipped sections -----

  /** A heading of a Rust-only section: `#`, and behind all of them one of four words. */
  predicate RustHeading(line: string) {
    && line != [] && line[0] == '#'
    && Lower(Trim(TrimStartChar(line, '#'))) in ["example", "examples", "arguments", "fields"]
  }

  /** A line that does not end a skipped section: no heading, and blank or a list item. */
  predicate InSection(line: string) {
    && !(line != [] && line[0] == '#')
    && (Trim(line) == [] || Trim(line)[0] in ['*', '-', '+'])
  }

  lemma TrimmedStarts(line: string)
    ensures Trim(line) != [] ==> !IsWhitespace(Trim(line)[0])
  {
    TrimStartFirst(line);
    TrimEndIs(TrimStart(line));
    var t := TrimStart(line);
    if Trim(line) != [] { assert Trim(line)[0] == t[0]; }
  }

  lemma {:induction false} TrimStartFirst(s: string)
    ensures TrimStart(s) != [] ==> !IsWhitespace(TrimStart(s)[0])
  {
    if s != [] && IsWhitespace(s[0]) { TrimStartFirst(s[1..]); }
  }

  lemma StartsInk(t: string)
    requires t != [] && !IsWhitespace(t[0])
    ensures !("  " <= t) && !("\t" <= t)
  {
    assert t[0] != "  "[0] && t[0] != "\t"[0];
  }

  lemma SkipsIs(skip: bool, line: string)
    ensures Skips(skip, line) <==> RustHeading(line) || (skip && InSection(line))
  {
    TrimmedStarts(line);
    if Trim(line) != [] { StartsInk(Trim(line)); }
    assert "#" <= line <==> line != [] && line[0] == '#';
  }

  /** A skipped section reaches position `i`: some heading of one is before it, and every plain
      line in between stays in the section. */
  ghost predicate Skipped(chunks: seq<Chunk>, i: nat)
    requires i <= |chunks|
  {
    exists h: nat :: h < i && Begins(chunks, h, i)
  }

  ghost predicate Begins(chunks: seq<Chunk>, h: nat, i: nat)
    requires h < i <= |chunks|
  {
    && chunks[h].Plain? && RustHeading(chunks[h].line)
    && forall j | h < j < i && chunks[j].Plain? :: InSection(chunks[j].line)
  }

  /** Whether the pass is inside a skipped section after these chunks. */
  function SkipAfter(chunks: seq<Chunk>, skip: bool): bool {
    if chunks == [] then skip
    else
      SkipAfter(chunks[1..], if chunks[0].Plain? then Skips(skip, chunks[0].line) else skip)
  }

  lemma {:induction false} SkipAfterSnoc(chunks: seq<Chunk>, chunk: Chunk, skip: bool)
    ensures var before := SkipAfter(chunks, skip);
      SkipAfter(chunks + [chunk], skip) == if chunk.Plain? then Skips(before, chunk.line) else before
  {
    if chunks == [] {
      assert chunks + [chunk] == [chunk] && [chunk][1..] == [];
    } else {
      assert (chunks + [chunk])[1..] == chunks[1..] + [chunk];
      SkipAfterSnoc(chunks[1..], chunk, if chunks[0].Plain? then Skips(skip, chunks[0].line) else skip);
    }
  }

  lemma {:induction false} SkipAfterIs(chunks: seq<Chunk>, i: nat)
    requires i <= |chunks|
    ensures SkipAfter(chunks[..i], false) <==> Skipped(chunks, i)
  {
    if i > 0 {
      var n, chunk := i - 1, chunks[i - 1];
      SkipAfterIs(chunks, n);
      SkipAfterSnoc(chunks[..n], chunk, false);
      assert chunks[..i] == chunks[..n] + [chunk];
      if chunk.Plain? { SkipsIs(SkipAfter(chunks[..n], false), chunk.line); }
      SkippedNext(chunks, n);
    }
  }

  lemma SkippedNext(chunks: seq<Chunk>, n: nat)
    requires n < |chunks|
    ensures Skipped(chunks, n + 1) <==>
              if chunks[n].Plain? then RustHeading(chunks[n].line) || (Skipped(chunks, n) && InSection(chunks[n].line))
              else Skipped(chunks, n)
  {
    if h: nat :| h < n && Begins(chunks, h, n) {
      if chunks[n].Plain? ==> InSection(chunks[n].line) { assert Begins(chunks, h, n + 1); }
    }
    var i := n + 1;
    if h: nat :| h < i && Begins(chunks, h, i) {
      if h < n { assert Begins(chunks, h, n); }
    }
    if chunks[n].Plain? && RustHeading(chunks[n].line) { assert Begins(chunks, n, n + 1); }
  }

  // ----- What is kept -----

  /** A plain line that is Rust by itself. */
  predicate RustPlain(line: string) {
    var trimmed := Trim(line);
    "# use " <= trimmed || ("use " <= trimmed && trimmed[|trimmed| - 1] == ';')
  }

  const RUST_PATTERNS: seq<string> := [
    "unwrap()", "assert!", "assert_eq!", "Vec::new()", "Default::default()", "::new(", ".collect::<", ".to_string()",
    "async fn ", "-> Result<", "&mut ", "Ok(())", "r#\""]

  ghost predicate RustInBlock(line: string) {
    "use " <= line || exists k | 0 <= k < |RUST_PATTERNS| :: Occurs(line, RUST_PATTERNS[k])
  }

  lemma OccursIn(line: string, k: nat)
    requires k < |RUST_PATTERNS|
    ensures Contains(line, RUST_PATTERNS[k]) <==> Occurs(line, RUST_PATTERNS[k])
  {
    ContainsIs(line, RUST_PATTERNS[k]);
  }

  lemma RustInBlockIs(line: string)
    ensures IsRustCode(line) <==> RustInBlock(line)
  {
    forall k: nat | k < |RUST_PATTERNS| ensures Contains(line, RUST_PATTERNS[k]) <==> Occurs(line, RUST_PATTERNS[k]) {
      OccursIn(line, k);
    }
    PatternsAre(line);
  }

  lemma PatternsAre(line: string)
    ensures IsRustCode(line) <==>
              "use " <= line || exists k | 0 <= k < |RUST_PATTERNS| :: Contains(line, RUST_PATTERNS[k])
  {
    var p := RUST_PATTERNS;
    assert p[0] == "unwrap()" && p[1] == "assert!" && p[2] == "assert_eq!" && p[3] == "Vec::new()";
    assert p[4] == "Default::default()" && p[5] == "::new(" && p[6] == ".collect::<" && p[7] == ".to_string()";
    assert p[8] == "async fn " && p[9] == "-> Result<" && p[10] == "&mut " && p[11] == "Ok(())" && p[12] == "r#\"";
  }

  ghost predicate RustAt(lines: seq<string>, k: nat)
    requires k < |lines|
  {
    RustInBlock(DropCr(lines[k]))
  }

  /** A closed block is Rust when its language is one of three or none, and some line inside
      holds one of the patterns. */
  ghost predicate RustFenced(lines: seq<string>)
    requires |lines| >= 2
  {
    && Lower(Trim(TrimStartChar(DropCr(lines[0]), '`'))) in ["rust", "rust,no_run", "rust,ignore", ""]
    && exists k: nat | 1 <= k < |lines| - 1 :: RustAt(lines, k)
  }

  lemma {:induction false} AnyRustCodeIs(lines: seq<string>)
    ensures AnyRustCode(lines) <==> exists k | 0 <= k < |lines| :: IsRustCode(lines[k])
  {
    if lines != [] {
      AnyRustCodeIs(lines[1..]);
      if k :| 0 <= k < |lines[1..]| && IsRustCode(lines[1..][k]) { assert IsRustCode(lines[k + 1]); }
      if k :| 0 <= k < |lines| && IsRustCode(lines[k]) {
        if k > 0 { assert IsRustCode(lines[1..][k - 1]); }
      }
    }
  }

  lemma RustAtIs(lines: seq<string>, k: nat)
    requires 1 <= k < |lines|
    ensures |DropCrs(lines)| == |lines| && (IsRustCode(DropCrs(lines)[1..][k - 1]) <==> RustAt(lines, k))
  {
    DropCrsAt(lines);
    assert DropCrs(lines)[1..][k - 1] == DropCr(lines[k]);
    RustInBlockIs(DropCr(lines[k]));
  }

  lemma AnyInside(lines: seq<string>)
    requires lines != []
    ensures |DropCrs(lines)| == |lines|
    ensures AnyRustCode(DropCrs(lines)[1..]) <==> exists k: nat | 1 <= k < |lines| :: RustAt(lines, k)
  {
    DropCrsAt(lines);
    var rest := DropCrs(lines)[1..];
    AnyRustCodeIs(rest);
    if k: nat :| k < |rest| && IsRustCode(rest[k]) {
      var i := k + 1;
      RustAtIs(lines, i);
    }
    if k: nat :| 1 <= k < |lines| && RustAt(lines, k) { RustAtIs(lines, k); }
  }

  lemma RustAtFront(lines: seq<string>, front: seq<string>)
    requires |lines| >= 2 && front == lines[..|lines| - 1]
    ensures (exists k: nat | 1 <= k < |front| :: RustAt(front, k))
       <==> exists k: nat | 1 <= k < |lines| - 1 :: RustAt(lines, k)
  {
    forall k: nat | 1 <= k < |front| ensures RustAt(front, k) <==> RustAt(lines, k) { assert front[k] == lines[k]; }
  }

  lemma RustFencedIs(lines: seq<string>)
    requires |lines| >= 2 && NewlineFree(lines)
    ensures IsRustBlock(Unlines(lines[..|lines| - 1])) <==> RustFenced(lines)
  {
    var front := lines[..|lines| - 1];
    LinesOfTerminated(front);
    DropCrsAt(front);
    AnyInside(front);
    RustAtFront(lines, front);
    LanguageIs(front);
  }

  lemma LanguageIs(front: seq<string>)
    requires front != []
    ensures IsRustLanguage(FenceLanguage(DropCrs(front))) <==>
              Lower(Trim(TrimStartChar(DropCr(front[0]), '`'))) in ["rust", "rust,no_run", "rust,ignore", ""]
  {
    DropCrsAt(front);
  }

  /** What stays of a document: outside skipped sections every plain line that is not Rust by
      itself and every closed block that is not Rust; inside one a line that ends it. */
  ghost predicate Stays(chunks: seq<Chunk>, i: nat)
    requires i < |chunks| && Closed(chunks[i])
  {
    match chunks[i]
    case Plain(line) => !RustHeading(line) && !(Skipped(chunks, i) && InSection(line)) && !RustPlain(line)
    case Block(lines) => !Skipped(chunks, i) && !RustFenced(lines)
    case Unclosed(_) => false
  }

  ghost predicate Closed(chunk: Chunk) {
    chunk.Block? ==> |chunk.lines| >= 2 && NewlineFree(chunk.lines)
  }

  lemma KeepsIs(chunks: seq<Chunk>, i: nat)
    requires i < |chunks| && Closed(chunks[i])
    ensures Stays(chunks, i) <==>
              match chunks[i]
              case Plain(line) => Keeps(SkipAfter(chunks[..i], false), line)
              case Block(lines) => KeepsBlock(SkipAfter(chunks[..i], false), lines)
              case Unclosed(_) => false
  {
    SkipAfterIs(chunks, i);
    match chunks[i]
    case Plain(line) =>
      SkipsIs(SkipAfter(chunks[..i], false), line);
      RustPlainIs(line);
    case Block(lines) => RustFencedIs(lines);
    case Unclosed(_) =>
  }

  lemma RustPlainIs(line: string)
    ensures IsRustLine(line) <==> RustPlain(line)
  {
  }

  function KeptOne(chunk: Chunk, skip: bool): seq<Chunk> {
    match chunk
    case Plain(line) => if Keeps(skip, line) then [chunk] else []
    case Block(lines) => if KeepsBlock(skip, lines) then [chunk] else []
    case Unclosed(_) => []
  }

  lemma KeepFirstOf(chunks: seq<Chunk>, skip: bool)
    requires chunks != []
    ensures Keep(chunks, skip)
         == KeptOne(chunks[0], skip) + Keep(chunks[1..], SkipAfter([chunks[0]], skip))
  {
    assert [chunks[0]][1..] == [];
    if chunks[0].Unclosed? { assert [] + Keep(chunks[1..], skip) == Keep(chunks[1..], skip); }
  }

  lemma SkipAfterFirst(chunks: seq<Chunk>, skip: bool)
    requires chunks != []
    ensures SkipAfter(chunks, skip) == SkipAfter(chunks[1..], SkipAfter([chunks[0]], skip))
  {
    assert [chunks[0]][1..] == [];
  }

  lemma {:induction false} KeepSnoc(chunks: seq<Chunk>, chunk: Chunk, skip: bool)
    ensures Keep(chunks + [chunk], skip) == Keep(chunks, skip) + KeptOne(chunk, SkipAfter(chunks, skip))
  {
    var all := chunks + [chunk];
    KeepFirstOf(all, skip);
    if chunks == [] {
      assert all == [chunk] && all[1..] == [];
    } else {
      assert all[1..] == chunks[1..] + [chunk];
      KeepFirstOf(chunks, skip);
      SkipAfterFirst(chunks, skip);
      KeepSnoc(chunks[1..], chunk, SkipAfter([chunks[0]], skip));
    }
  }

  /** The kept chunks of a document are exactly those that stay, in order. */
  lemma KeepIsStays(chunks: seq<Chunk>, i: nat)
    requires i < |chunks| && Closed(chunks[i])
    ensures Keep(chunks[..i + 1], false) == Keep(chunks[..i], false) + if Stays(chunks, i) then [chunks[i]] else []
  {
    assert chunks[..i + 1] == chunks[..i] + [chunks[i]];
    KeepSnoc(chunks[..i], chunks[i], false);
    KeepsIs(chunks, i);
  }

  lemma {:induction false} ChunksAreClosed(lines: seq<string>, open: seq<string>)
    requires NewlineFree(lines) && NewlineFree(open)
    ensures forall i | 0 <= i < |Chunks(lines, open)| :: Closed(Chunks(lines, open)[i])
    decreases |lines|
  {
    if lines != [] {
      if open == [] {
        if IsFence(lines[0]) { ChunksAreClosed(lines[1..], [lines[0]]); } else { ChunksAreClosed(lines[1..], []); }
      } else {
        ChunksAreClosed(lines[1..], if IsFence(lines[0]) then [] else open + [lines[0]]);
      }
    }
  }

  /** The chunks of a text meet the condition. */
  lemma DocumentChunks(doc: string, i: nat)
    requires i < |Chunks(Lines(doc), [])|
    ensures Closed(Chunks(Lines(doc), [])[i])
  {
    LinesNewlineFree(doc);
    ChunksAreClosed(Lines(doc), []);
  }
}
