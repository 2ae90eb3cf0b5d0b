/** What removing Rust-only material promises: the output is made of the input's own plain
    lines and whole fenced blocks, in order, none of them Rust, and is left alone when the
    pass is repeated. */
module SectionsLaws {
  import opened Text
  import opened Fences
  import opened Sections

  // ----- The shape of chunks -----

  /** A fence and the lines of code after it. */
  ghost predicate Begun(lines: seq<string>) {
    lines != [] && IsFence(lines[0]) && forall i | 1 <= i < |lines| :: !IsFence(lines[i])
  }

  ghost predicate Shaped(chunk: Chunk) {
    match chunk
    case Plain(line) => !IsFence(line)
    case Block(lines) => |lines| >= 2 && Begun(lines[..|lines| - 1]) && IsFence(lines[|lines| - 1])
    case Unclosed(lines) => Begun(lines)
  }

  ghost predicate AllShaped(chunks: seq<Chunk>) {
    forall i | 0 <= i < |chunks| :: Shaped(chunks[i])
  }

  lemma AllShapedCons(chunk: Chunk, chunks: seq<Chunk>)
    requires Shaped(chunk) && AllShaped(chunks)
    ensures AllShaped([chunk] + chunks)
  {
  }

  lemma BeginsWith(line: string)
    requires IsFence(line)
    ensures Begun([line])
  {
  }

  lemma BegunGrows(open: seq<string>, line: string)
    requires Begun(open) && !IsFence(line)
    ensures Begun(open + [line])
  {
  }

  lemma BegunCloses(open: seq<string>, line: string)
    requires Begun(open) && IsFence(line)
    ensures Shaped(Block(open + [line]))
  {
    assert (open + [line])[..|open|] == open;
  }

  lemma {:induction false} ChunksShaped(lines: seq<string>, open: seq<string>)
    requires open == [] || Begun(open)
    ensures AllShaped(Chunks(lines, open))
    decreases |lines|
  {
    if lines == [] {
    } else if open == [] {
      if IsFence(lines[0]) {
        BeginsWith(lines[0]);
        ChunksShaped(lines[1..], [lines[0]]);
      } else {
        ChunksShaped(lines[1..], []);
        AllShapedCons(Plain(lines[0]), Chunks(lines[1..], []));
      }
    } else if IsFence(lines[0]) {
      BegunCloses(open, lines[0]);
      ChunksShaped(lines[1..], []);
      AllShapedCons(Block(open + [lines[0]]), Chunks(lines[1..], []));
    } else {
      BegunGrows(open, lines[0]);
      ChunksShaped(lines[1..], open + [lines[0]]);
    }
  }

  lemma FlattenCons(chunk: Chunk, chunks: seq<Chunk>)
    ensures Flatten([chunk] + chunks) == LinesOf(chunk) + Flatten(chunks)
  {
  }

  /** Chunks hold every line of the document, in order. */
  lemma {:induction false} FlattenChunks(lines: seq<string>, open: seq<string>)
    ensures Flatten(Chunks(lines, open)) == open + lines
    decreases |lines|
  {
    if lines == [] {
      FlattenOne(Unclosed(open));
    } else {
      var rest := lines[1..];
      assert lines == [lines[0]] + rest;
      if open == [] && IsFence(lines[0]) {
        FlattenChunks(rest, [lines[0]]);
      } else if open == [] {
        FlattenChunks(rest, []);
        FlattenCons(Plain(lines[0]), Chunks(rest, []));
      } else if IsFence(lines[0]) {
        FlattenChunks(rest, []);
        FlattenCons(Block(open + [lines[0]]), Chunks(rest, []));
        Regroup(open, lines[0], rest);
      } else {
        FlattenChunks(rest, open + [lines[0]]);
        Regroup(open, lines[0], rest);
      }
    }
  }

  lemma Regroup(open: seq<string>, line: string, rest: seq<string>)
    ensures open + [line] + rest == open + ([line] + rest)
  {
  }

  // ----- What is kept -----

  /** A chunk the pass keeps wherever no section is being skipped. */
  ghost predicate Stable(chunk: Chunk) {
    Shaped(chunk) &&
    match chunk
    case Plain(line) => Keeps(false, line)
    case Block(lines) => KeepsBlock(false, lines)
    case Unclosed(_) => false
  }

  ghost predicate AllStable(chunks: seq<Chunk>) {
    forall i | 0 <= i < |chunks| :: Stable(chunks[i])
  }

  lemma AllStableCons(chunk: Chunk, chunks: seq<Chunk>)
    requires Stable(chunk) && AllStable(chunks)
    ensures AllStable([chunk] + chunks)
  {
  }

  lemma {:induction false} KeptIsStable(chunks: seq<Chunk>, skip: bool)
    requires AllShaped(chunks)
    ensures AllStable(Keep(chunks, skip))
  {
    if chunks != [] {
      var rest := chunks[1..];
      match chunks[0]
      case Plain(line) =>
        KeptIsStable(rest, Skips(skip, line));
        if Keeps(skip, line) { AllStableCons(chunks[0], Keep(rest, Skips(skip, line))); }
      case Block(lines) =>
        KeptIsStable(rest, skip);
        if KeepsBlock(skip, lines) { AllStableCons(chunks[0], Keep(rest, skip)); }
      case Unclosed(_) =>
        KeptIsStable(rest, skip);
    }
  }

  lemma KeepsStable(chunk: Chunk, rest: seq<Chunk>)
    requires Stable(chunk)
    ensures Keep([chunk] + rest, false) == [chunk] + Keep(rest, false)
  {
    assert ([chunk] + rest)[1..] == rest;
    if chunk.Plain? { KeepsEndsSkipping(chunk.line); }
  }

  lemma KeepsEndsSkipping(line: string)
    requires Keeps(false, line)
    ensures !Skips(false, line)
  {
  }

  lemma {:induction false} StableIsKept(chunks: seq<Chunk>)
    requires AllStable(chunks)
    ensures Keep(chunks, false) == chunks
  {
    if chunks != [] {
      StableIsKept(chunks[1..]);
      KeepsStable(chunks[0], chunks[1..]);
      assert chunks == [chunks[0]] + chunks[1..];
    }
  }

  /** Reading a block back from its own lines. */
  lemma {:induction false} ReadBlock(block: seq<string>, i: nat, rest: seq<string>)
    requires Shaped(Block(block)) && 1 <= i < |block|
    ensures Chunks(block[i..] + rest, block[..i]) == [Block(block)] + Chunks(rest, [])
    decreases |block| - i
  {
    var lines := block[i..] + rest;
    assert lines[0] == block[i] && lines[1..] == block[i + 1..] + rest;
    assert block[..i + 1] == block[..i] + [block[i]];
    if i < |block| - 1 {
      assert block[i] == block[..|block| - 1][i];
      ReadBlock(block, i + 1, rest);
    } else {
      assert block[..i + 1] == block;
      assert block[i + 1..] + rest == rest;
    }
  }

  lemma ReadChunk(chunk: Chunk, rest: seq<string>)
    requires Shaped(chunk) && !chunk.Unclosed?
    ensures Chunks(LinesOf(chunk) + rest, []) == [chunk] + Chunks(rest, [])
  {
    var lines := LinesOf(chunk) + rest;
    if chunk.Plain? {
      assert lines[1..] == rest;
    } else {
      var block := chunk.lines;
      assert block[0] == block[..|block| - 1][0];
      assert lines[0] == block[0] && lines[1..] == block[1..] + rest;
      assert block[..1] == [block[0]];
      ReadBlock(block, 1, rest);
    }
  }

  ghost predicate Readable(chunks: seq<Chunk>) {
    forall i | 0 <= i < |chunks| :: Shaped(chunks[i]) && !chunks[i].Unclosed?
  }

  lemma StableIsReadable(chunks: seq<Chunk>)
    requires AllStable(chunks)
    ensures Readable(chunks)
  {
    forall i | 0 <= i < |chunks| ensures Shaped(chunks[i]) && !chunks[i].Unclosed? {
      assert Stable(chunks[i]);
    }
  }

  lemma {:induction false} ChunksOfFlatten(chunks: seq<Chunk>)
    requires Readable(chunks)
    ensures Chunks(Flatten(chunks), []) == chunks
  {
    if chunks != [] {
      ChunksOfFlatten(chunks[1..]);
      ReadChunk(chunks[0], Flatten(chunks[1..]));
      assert chunks == [chunks[0]] + chunks[1..];
    }
  }

  /** The output, read as a document, consists of exactly the chunks that were kept: plain
      lines as they were and fenced blocks whole, each with its own fences. */
  lemma ChunksOfStripped(lines: seq<string>)
    ensures Chunks(Stripped(lines), []) == Keep(Chunks(lines, []), false)
    ensures AllStable(Chunks(Stripped(lines), []))
  {
    ChunksShaped(lines, []);
    KeptIsStable(Chunks(lines, []), false);
    StableIsReadable(Keep(Chunks(lines, []), false));
    ChunksOfFlatten(Keep(Chunks(lines, []), false));
  }

  lemma StrippedTwice(lines: seq<string>)
    ensures Stripped(Stripped(lines)) == Stripped(lines)
  {
    ChunksOfStripped(lines);
    StableIsKept(Chunks(Stripped(lines), []));
  }

  // ----- Nothing is added or moved -----

  ghost predicate Subsequence<T>(a: seq<T>, b: seq<T>) {
    a == [] || (b != [] && ((a[0] == b[0] && Subsequence(a[1..], b[1..])) || Subsequence(a, b[1..])))
  }

  lemma {:induction false} SubsequenceLater<T>(a: seq<T>, before: seq<T>, b: seq<T>)
    requires Subsequence(a, b)
    ensures Subsequence(a, before + b)
  {
    if before == [] {
      assert before + b == b;
    } else {
      assert (before + b)[1..] == before[1..] + b;
      SubsequenceLater(a, before[1..], b);
    }
  }

  lemma {:induction false} SubsequenceBoth<T>(same: seq<T>, a: seq<T>, b: seq<T>)
    requires Subsequence(a, b)
    ensures Subsequence(same + a, same + b)
  {
    if same == [] {
      assert same + a == a && same + b == b;
    } else {
      assert (same + a)[1..] == same[1..] + a && (same + b)[1..] == same[1..] + b;
      SubsequenceBoth(same[1..], a, b);
    }
  }

  lemma {:induction false} KeptIsSubsequence(chunks: seq<Chunk>, skip: bool)
    ensures Subsequence(Keep(chunks, skip), chunks)
  {
    if chunks != [] {
      var rest := chunks[1..];
      var next := if chunks[0].Plain? then Skips(skip, chunks[0].line) else skip;
      assert chunks == [chunks[0]] + rest;
      KeptIsSubsequence(rest, next);
      SubsequenceBoth([chunks[0]], Keep(rest, next), rest);
      SubsequenceLater(Keep(rest, next), [chunks[0]], rest);
      assert [] + Keep(rest, next) == Keep(rest, next);
    }
  }

  lemma {:induction false} FlattenSubsequence(a: seq<Chunk>, b: seq<Chunk>)
    requires Subsequence(a, b)
    ensures Subsequence(Flatten(a), Flatten(b))
    decreases |b|
  {
    if a != [] {
      if a[0] == b[0] && Subsequence(a[1..], b[1..]) {
        FlattenSubsequence(a[1..], b[1..]);
        SubsequenceBoth(LinesOf(a[0]), Flatten(a[1..]), Flatten(b[1..]));
      } else {
        FlattenSubsequence(a, b[1..]);
        SubsequenceLater(Flatten(a), LinesOf(b[0]), Flatten(b[1..]));
      }
    }
  }

  /** The lines that stay are lines of the input, in the input's order. */
  lemma StrippedIsSubsequence(lines: seq<string>)
    ensures Subsequence(Stripped(lines), lines)
    ensures Subsequence(Chunks(Stripped(lines), []), Chunks(lines, []))
  {
    KeptIsSubsequence(Chunks(lines, []), false);
    FlattenSubsequence(Keep(Chunks(lines, []), false), Chunks(lines, []));
    FlattenChunks(lines, []);
    assert [] + lines == lines;
    ChunksOfStripped(lines);
  }

  // ----- Whole documents -----

  lemma {:induction false} SubsequenceMember<T>(a: seq<T>, b: seq<T>, x: T)
    requires Subsequence(a, b) && x in a
    ensures x in b
    decreases |b|
  {
    if a[0] == b[0] && Subsequence(a[1..], b[1..]) {
      if x != a[0] { SubsequenceMember(a[1..], b[1..], x); }
    } else {
      SubsequenceMember(a, b[1..], x);
    }
  }

  lemma SubsequenceNewlineFree(a: seq<string>, b: seq<string>)
    requires Subsequence(a, b) && NewlineFree(b)
    ensures NewlineFree(a)
  {
    forall i | 0 <= i < |a| ensures Lacks(a[i], '\n') {
      SubsequenceMember(a, b, a[i]);
    }
  }

  lemma {:induction false} SubsequenceLength(a: seq<string>, b: seq<string>)
    requires Subsequence(a, b)
    ensures |Unlines(a)| <= |Unlines(b)|
    decreases |b|
  {
    if a != [] {
      if a[0] == b[0] && Subsequence(a[1..], b[1..]) {
        SubsequenceLength(a[1..], b[1..]);
      } else {
        SubsequenceLength(a, b[1..]);
      }
    }
  }

  lemma LinesOfStripRust(doc: string)
    ensures Lines(StripRust(doc)) == DropCrs(Stripped(Lines(doc)))
  {
    LinesNewlineFree(doc);
    StrippedIsSubsequence(Lines(doc));
    SubsequenceNewlineFree(Stripped(Lines(doc)), Lines(doc));
    LinesOfTerminated(Stripped(Lines(doc)));
  }

  lemma StripRustShrinks(doc: string)
    ensures |StripRust(doc)| <= |Unlines(Lines(doc))|
  {
    StrippedIsSubsequence(Lines(doc));
    SubsequenceLength(Stripped(Lines(doc)), Lines(doc));
  }

  /** Repeating the pass changes nothing, exactly when no line it keeps still ends in a
      carriage return after `lines()` dropped one. */
  lemma StripRustIdempotent(doc: string)
    ensures StripRust(StripRust(doc)) == StripRust(doc) <==> CleanLines(Stripped(Lines(doc)))
  {
    var kept := Stripped(Lines(doc));
    LinesOfStripRust(doc);
    DropCrsClean(kept);
    StripRustShrinks(StripRust(doc));
    StrippedTwice(Lines(doc));
  }

  /** In particular for every text without stray carriage returns. */
  lemma StripRustCleanIdempotent(doc: string)
    requires CleanText(doc)
    ensures StripRust(StripRust(doc)) == StripRust(doc)
    ensures Lines(StripRust(doc)) == Stripped(Lines(doc))
    ensures Subsequence(Lines(StripRust(doc)), Lines(doc))
  {
    var lines, kept := Lines(doc), Stripped(Lines(doc));
    StrippedIsSubsequence(lines);
    forall i | 0 <= i < |kept| ensures !LastIs(kept[i], '\r') {
      SubsequenceMember(kept, lines, kept[i]);
    }
    StripRustIdempotent(doc);
    LinesOfStripRust(doc);
    DropCrsClean(kept);
  }
}
