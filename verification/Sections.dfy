/** Removing Rust-only material from documentation (src/docs/doc_cleaning.rs). */
module Sections {
  import opened Text
  import opened Fences

  // ----- What counts as Rust -----

  /** The heading text as it is compared. The names compared with are ASCII and none holds a
      letter that a non-ASCII character lowers to, so ASCII lowering is exact here. */
  function HeaderText(line: string): string {
    Lower(Trim(TrimStartChar(line, '#')))
  }

  predicate IsRustOnlyHeader(line: string) {
    && "#" <= line
    && (var text := HeaderText(line);
        text == "example" || text == "examples" || text == "arguments" || text == "fields")
  }

  /** What a skipped section extends over. */
  predicate IsSectionContent(line: string) {
    var trimmed := Trim(line);
    trimmed == [] || "*" <= trimmed || "-" <= trimmed || "+" <= trimmed || "  " <= trimmed || "\t" <= trimmed
  }

  /** `is_rust_specific_line` */
  predicate IsRustLine(line: string) {
    var trimmed := Trim(line);
    "# use " <= trimmed || ("use " <= trimmed && LastIs(trimmed, ';'))
  }

  predicate IsRustCode(line: string) {
    || "use " <= line
    || Contains(line, "unwrap()") || Contains(line, "assert!") || Contains(line, "assert_eq!")
    || Contains(line, "Vec::new()") || Contains(line, "Default::default()") || Contains(line, "::new(")
    || Contains(line, ".collect::<") || Contains(line, ".to_string()") || Contains(line, "async fn ")
    || Contains(line, "-> Result<") || Contains(line, "&mut ") || Contains(line, "Ok(())")
    || Contains(line, "r#\"")
  }

  predicate IsRustLanguage(lang: string) {
    lang == "rust" || lang == "rust,no_run" || lang == "rust,ignore" || lang == ""
  }

  predicate AnyRustCode(lines: seq<string>) {
    lines != [] && (IsRustCode(lines[0]) || AnyRustCode(lines[1..]))
  }

  /** The language of a block: its first line without the fence. */
  function FenceLanguage(lines: seq<string>): string {
    Lower(Trim(TrimStartChar(if lines == [] then "" else lines[0], '`')))
  }

  /** `is_rust_code_block`, on a block's text without its closing fence. */
  predicate IsRustBlock(content: string) {
    var lines := Lines(content);
    IsRustLanguage(FenceLanguage(lines)) && lines != [] && AnyRustCode(lines[1..])
  }

  method IsRustCodeBlock(content: string) returns (b: bool)
    ensures b == IsRustBlock(content)
  {
    var lines := Lines(content);
    var fenceLang := FenceLanguage(lines);
    if IsRustLanguage(fenceLang) {
      var i := 1;
      while i < |lines|
        invariant lines != [] ==> i <= |lines| && AnyRustCode(lines[1..]) == AnyRustCode(lines[i..])
      {
        assert lines[i..][1..] == lines[i + 1..];
        if IsRustCode(lines[i]) {
          return true;
        }
        i := i + 1;
      }
    }
    return false;
  }

  // ----- A document as plain lines and fenced blocks -----

  /** A block holds its fences; an unclosed one reaches the end of the document. */
  datatype Chunk = Plain(line: string) | Block(lines: seq<string>) | Unclosed(lines: seq<string>)

  /** The chunks of `lines` when `open` holds the lines of a block already begun. */
  function Chunks(lines: seq<string>, open: seq<string>): seq<Chunk>
    decreases |lines|
  {
    if lines == [] then (if open == [] then [] else [Unclosed(open)])
    else if open == [] then
      if IsFence(lines[0]) then Chunks(lines[1..], [lines[0]])
      else [Plain(lines[0])] + Chunks(lines[1..], [])
    else
      if IsFence(lines[0]) then [Block(open + [lines[0]])] + Chunks(lines[1..], [])
      else Chunks(lines[1..], open + [lines[0]])
  }

  function LinesOf(chunk: Chunk): seq<string> {
    match chunk
    case Plain(line) => [line]
    case Block(lines) => lines
    case Unclosed(lines) => lines
  }

  function Flatten(chunks: seq<Chunk>): seq<string> {
    if chunks == [] then [] else LinesOf(chunks[0]) + Flatten(chunks[1..])
  }

  // ----- Which chunks stay -----

  /** Whether the pass is inside a skipped section after a plain line. */
  predicate Skips(skip: bool, line: string) {
    IsRustOnlyHeader(line) || (skip && !("#" <= line) && IsSectionContent(line))
  }

  predicate Keeps(skip: bool, line: string) {
    !Skips(skip, line) && !IsRustLine(line)
  }

  predicate KeepsBlock(skip: bool, lines: seq<string>) {
    lines != [] && !skip && !IsRustBlock(Unlines(lines[..|lines| - 1]))
  }

  function Keep(chunks: seq<Chunk>, skip: bool): seq<Chunk> {
    if chunks == [] then []
    else
      match chunks[0]
      case Plain(line) =>
        (if Keeps(skip, line) then [chunks[0]] else []) + Keep(chunks[1..], Skips(skip, line))
      case Block(lines) =>
        (if KeepsBlock(skip, lines) then [chunks[0]] else []) + Keep(chunks[1..], skip)
      case Unclosed(_) => Keep(chunks[1..], skip)
  }

  /** The lines that stay. */
  function Stripped(lines: seq<string>): seq<string> {
    Flatten(Keep(Chunks(lines, []), false))
  }

  /** `strip_rust_sections` */
  function StripRust(doc: string): string {
    Unlines(Stripped(Lines(doc)))
  }

  /** What is still to be written when `open` is the block begun so far. */
  function Rest(lines: seq<string>, open: seq<string>, skip: bool): seq<string> {
    Flatten(Keep(Chunks(lines, open), skip))
  }

  lemma FlattenAppend(a: seq<Chunk>, b: seq<Chunk>)
    ensures Flatten(a + b) == Flatten(a) + Flatten(b)
  {
    if a == [] {
      assert a + b == b;
    } else {
      assert (a + b)[1..] == a[1..] + b;
      FlattenAppend(a[1..], b);
    }
  }

  lemma FlattenOne(chunk: Chunk)
    ensures Flatten([chunk]) == LinesOf(chunk)
  {
    assert LinesOf(chunk) + [] == LinesOf(chunk);
  }

  lemma KeepFirst(chunk: Chunk, rest: seq<Chunk>, skip: bool)
    requires !chunk.Unclosed?
    ensures Flatten(Keep([chunk] + rest, skip))
         == (if chunk.Plain?
             then (if Keeps(skip, chunk.line) then [chunk.line] else []) + Flatten(Keep(rest, Skips(skip, chunk.line)))
             else (if KeepsBlock(skip, chunk.lines) then chunk.lines else []) + Flatten(Keep(rest, skip)))
  {
    assert ([chunk] + rest)[1..] == rest;
    FlattenOne(chunk);
    if chunk.Plain? {
      FlattenAppend(if Keeps(skip, chunk.line) then [chunk] else [], Keep(rest, Skips(skip, chunk.line)));
    } else {
      FlattenAppend(if KeepsBlock(skip, chunk.lines) then [chunk] else [], Keep(rest, skip));
    }
  }

  /** A fence opens a block and any other line lengthens it. */
  lemma RestBuffers(lines: seq<string>, i: nat, open: seq<string>, skip: bool)
    requires i < |lines| && (open == [] <==> IsFence(lines[i]))
    ensures Rest(lines[i..], open, skip) == Rest(lines[i + 1..], open + [lines[i]], skip)
    ensures Unlines(open + [lines[i]]) == Unlines(open) + lines[i] + "\n"
  {
    assert lines[i..][1..] == lines[i + 1..];
    if open == [] { assert open + [lines[i]] == [lines[i]]; }
    UnlinesSnoc(open, lines[i]);
  }

  lemma RestCloses(lines: seq<string>, i: nat, open: seq<string>, skip: bool)
    requires i < |lines| && open != [] && IsFence(lines[i])
    ensures Rest(lines[i..], open, skip)
         == (if !skip && !IsRustBlock(Unlines(open)) then open + [lines[i]] else []) + Rest(lines[i + 1..], [], skip)
  {
    assert lines[i..][1..] == lines[i + 1..];
    var block := open + [lines[i]];
    assert block[..|block| - 1] == open;
    KeepFirst(Block(block), Chunks(lines[i + 1..], []), skip);
  }

  lemma RestPlain(lines: seq<string>, i: nat, skip: bool)
    requires i < |lines| && !IsFence(lines[i])
    ensures Rest(lines[i..], [], skip)
         == (if Keeps(skip, lines[i]) then [lines[i]] else []) + Rest(lines[i + 1..], [], Skips(skip, lines[i]))
  {
    assert lines[i..][1..] == lines[i + 1..];
    KeepFirst(Plain(lines[i]), Chunks(lines[i + 1..], []), skip);
  }

  lemma Written(kept: seq<string>, more: seq<string>, rest: seq<string>)
    ensures kept + (more + rest) == (kept + more) + rest
    ensures Unlines(kept + more) == Unlines(kept) + Unlines(more)
  {
    UnlinesAppend(kept, more);
  }

  lemma RestEnds(open: seq<string>, skip: bool)
    ensures Rest([], open, skip) == []
  {
    if open != [] {
      assert Keep([Unclosed(open)], skip) == Keep([], skip);
    }
  }

  /** A line outside fenced code. */
  method PlainLine(out: string, line: string, skip: bool) returns (written: string, skipSection: bool)
    ensures skipSection == Skips(skip, line)
    ensures written == out + if Keeps(skip, line) then Unlines([line]) else ""
  {
    written := out;
    skipSection := skip;
    if "#" <= line {
      if IsRustOnlyHeader(line) {
        return written, true;
      } else {
        skipSection := false;
      }
    }
    if skipSection {
      if IsSectionContent(line) {
        return;
      }
      skipSection := false;
    }
    if IsRustLine(line) {
      return;
    }
    assert Unlines([line]) == line + "\n" + [];
    written := written + line + "\n";
  }

  /** The closing fence: a block is written whole or not at all. */
  method CloseBlock(out: string, codeBlockBuf: string, line: string, skipSection: bool,
                    ghost open: seq<string>) returns (written: string)
    requires !skipSection ==> codeBlockBuf == Unlines(open)
    ensures written == out + if !skipSection && !IsRustBlock(Unlines(open)) then Unlines(open + [line]) else ""
  {
    written := out;
    if !skipSection {
      var rust := IsRustCodeBlock(codeBlockBuf);
      if !rust {
        UnlinesSnoc(open, line);
        written := written + codeBlockBuf;
        written := written + line + "\n";
      }
    }
  }

  method StripRustSections(doc: string) returns (out: string)
    ensures out == StripRust(doc)
  {
    out := "";
    var skipSection := false;
    var inCodeBlock := false;
    var codeBlockBuf := "";
    var lines := Lines(doc);
    ghost var total := Stripped(lines);
    ghost var kept: seq<string> := [];
    ghost var open: seq<string> := [];
    assert lines[0..] == lines;
    for i := 0 to |lines|
      invariant out == Unlines(kept)
      invariant inCodeBlock == (open != [])
      invariant codeBlockBuf == if skipSection then "" else Unlines(open)
      invariant total == kept + Rest(lines[i..], open, skipSection)
    {
      var line := lines[i];
      if IsFence(line) {
        if inCodeBlock {
          inCodeBlock := false;
          out := CloseBlock(out, codeBlockBuf, line, skipSection, open);
          RestCloses(lines, i, open, skipSection);
          ghost var block := if !skipSection && !IsRustBlock(Unlines(open)) then open + [line] else [];
          Written(kept, block, Rest(lines[i + 1..], [], skipSection));
          kept := kept + block;
          open := [];
          codeBlockBuf := "";
        } else {
          RestBuffers(lines, i, open, skipSection);
          inCodeBlock := true;
          open := open + [line];
          if !skipSection {
            codeBlockBuf := codeBlockBuf + line + "\n";
          }
        }
        continue;
      }
      if inCodeBlock {
        RestBuffers(lines, i, open, skipSection);
        open := open + [line];
        if !skipSection {
          codeBlockBuf := codeBlockBuf + line + "\n";
        }
        continue;
      }
      RestPlain(lines, i, skipSection);
      ghost var more := if Keeps(skipSection, line) then [line] else [];
      Written(kept, more, Rest(lines[i + 1..], [], Skips(skipSection, line)));
      kept := kept + more;
      out, skipSection := PlainLine(out, line, skipSection);
    }
    assert lines[|lines|..] == [];
    RestEnds(open, skipSection);
    assert kept + [] == kept;
  }
}
