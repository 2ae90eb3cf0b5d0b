/** Fenced code blocks, the state every Markdown pass of src/docs/doc_cleaning.rs carries,
    and what rebuilding a text from its lines keeps. */
module Fences {
  import opened Text

  /** `line.trim_start().starts_with("```")` */
  predicate IsFence(line: string) {
    "```" <= TrimStart(line)
  }

  /** `in_code_block` after these lines: each fence toggles it. */
  predicate InCode(lines: seq<string>) {
    lines != [] &&
      (IsFence(lines[|lines| - 1]) != InCode(lines[..|lines| - 1]))
  }

  lemma InCodeSnoc(before: seq<string>, line: string)
    ensures InCode(before + [line]) == (IsFence(line) != InCode(before))
  {
    assert (before + [line])[..|before|] == before;
  }

  lemma TakeNext<T>(s: seq<T>, i: nat)
    requires i < |s|
    ensures s[..i + 1] == s[..i] + [s[i]]
  {
  }

  lemma TakeAll<T>(s: seq<T>)
    ensures s[..|s|] == s
  {
  }

  // ----- Whitespace at the end of a line -----

  lemma {:induction false} FenceBlank(line: string, after: string)
    requires Blank(after)
    ensures IsFence(line + after) == IsFence(line)
  {
    if line == [] {
      assert line + after == after;
      BlankIsNoFence(after);
    } else if IsWhitespace(line[0]) {
      assert (line + after)[1..] == line[1..] + after;
      FenceBlank(line[1..], after);
    } else {
      assert TrimStart(line) == line && TrimStart(line + after) == line + after;
      FenceShort(line, after);
    }
  }

  lemma FenceShort(line: string, after: string)
    requires Blank(after)
    ensures "```" <= line + after <==> "```" <= line
  {
    if "```" <= line + after {
      assert forall i | |line| <= i < |line + after| :: (line + after)[i] == after[i - |line|];
      assert (line + after)[0] == '`' && (line + after)[1] == '`' && (line + after)[2] == '`';
    }
  }

  lemma {:induction false} BlankIsNoFence(s: string)
    requires Blank(s)
    ensures !IsFence(s)
  {
    if s != [] { BlankIsNoFence(s[1..]); }
  }

  lemma SplitTrimmed(line: string) returns (after: string)
    ensures Blank(after) && line == TrimEnd(line) + after
    ensures TrimEnd(line) != [] ==> !IsWhitespace(TrimEnd(line)[|TrimEnd(line)| - 1])
  {
    TrimEndIs(line);
    after := line[|TrimEnd(line)|..];
  }

  lemma SplitCr(line: string) returns (after: string)
    ensures Blank(after) && line == DropCr(line) + after
    ensures after != [] <==> LastIs(line, '\r')
  {
    after := line[|DropCr(line)|..];
  }

  // ----- `trim_end` of a rebuilt text, by lines -----

  /** The lines left when trailing whitespace is cut from a text. */
  function TrimLines(lines: seq<string>): seq<string> {
    if lines == [] then []
    else
      var front := lines[..|lines| - 1];
      var last := TrimEnd(lines[|lines| - 1]);
      if last == [] then TrimLines(front) else front + [last]
  }

  /** Every line followed by a line feed, but for the last. */
  function JoinLines(lines: seq<string>): string {
    if lines == [] then [] else Unlines(lines[..|lines| - 1]) + lines[|lines| - 1]
  }

  lemma {:induction false} TrimEndBlank(s: string, after: string)
    requires Blank(after)
    ensures TrimEnd(s + after) == TrimEnd(s)
  {
    var w := SplitTrimmed(s);
    assert s + after == TrimEnd(s) + (w + after);
    assert Blank(w + after);
    TrimEndAppend(TrimEnd(s), w + after);
  }

  lemma TrimEndJoin(front: string, line: string)
    requires TrimEnd(line) != []
    ensures TrimEnd(front + line + "\n") == front + TrimEnd(line)
  {
    var w := SplitTrimmed(line);
    assert front + line + "\n" == (front + TrimEnd(line)) + (w + "\n");
    assert Blank(w + "\n");
    TrimEndAppend(front + TrimEnd(line), w + "\n");
  }

  lemma BlankTrimsToNothing(line: string)
    requires TrimEnd(line) == []
    ensures Blank(line + "\n")
  {
    TrimEndIs(line);
  }

  lemma {:induction false} TrimEndOfUnlines(lines: seq<string>)
    ensures TrimEnd(Unlines(lines)) == JoinLines(TrimLines(lines))
  {
    if lines != [] {
      var front, last := lines[..|lines| - 1], lines[|lines| - 1];
      assert lines == front + [last];
      UnlinesSnoc(front, last);
      if TrimEnd(last) == [] {
        BlankTrimsToNothing(last);
        assert Unlines(front) + last + "\n" == Unlines(front) + (last + "\n");
        TrimEndBlank(Unlines(front), last + "\n");
        TrimEndOfUnlines(front);
      } else {
        TrimEndJoin(Unlines(front), last);
        assert TrimLines(lines) == front + [TrimEnd(last)];
        assert (front + [TrimEnd(last)])[..|front|] == front;
      }
    }
  }

  /** Lines as they are read back: one carriage return is lost on each terminated line. */
  function Reread(lines: seq<string>): seq<string> {
    if lines == [] then [] else DropCrs(lines[..|lines| - 1]) + [lines[|lines| - 1]]
  }

  /** Only the last line is read back with a carriage return at its end. */
  function AsReread(lines: seq<string>, i: nat, line: string): string {
    if i + 1 < |lines| then DropCr(line) else line
  }

  lemma RereadAt(lines: seq<string>, i: nat)
    requires i < |lines|
    ensures |Reread(lines)| == |lines| && Reread(lines)[i] == AsReread(lines, i, lines[i])
  {
    DropCrsAt(lines[..|lines| - 1]);
  }

  ghost predicate LastNonempty(lines: seq<string>) {
    lines != [] ==> lines[|lines| - 1] != []
  }

  lemma LinesOfJoinLines(lines: seq<string>)
    requires NewlineFree(lines) && LastNonempty(lines)
    ensures Lines(JoinLines(lines)) == Reread(lines)
  {
    if lines != [] {
      LinesOfUnlines(lines[..|lines| - 1], lines[|lines| - 1]);
      LinesSingle(lines[|lines| - 1]);
    }
  }

  lemma {:induction false} TrimLinesIs(lines: seq<string>)
    ensures |TrimLines(lines)| <= |lines|
    ensures LastNonempty(TrimLines(lines))
    ensures NewlineFree(lines) ==> NewlineFree(TrimLines(lines))
    ensures CleanLines(lines) ==> CleanLines(TrimLines(lines))
  {
    if lines != [] {
      TrimLinesIs(lines[..|lines| - 1]);
      TrimEndIs(lines[|lines| - 1]);
    }
  }

  /** The lines up to the last that is not blank, and that one without the whitespace at its end. */
  lemma {:induction false} TrimLinesShape(lines: seq<string>)
    ensures var n := |TrimLines(lines)|;
      && n <= |lines| && (forall i | n <= i < |lines| :: TrimEnd(lines[i]) == [])
      && (n > 0 ==> TrimLines(lines) == lines[..n - 1] + [TrimEnd(lines[n - 1])] && TrimEnd(lines[n - 1]) != [])
  {
    if lines != [] {
      var front := lines[..|lines| - 1];
      TrimLinesShape(front);
      if TrimEnd(lines[|lines| - 1]) == [] && TrimLines(front) != [] {
        assert front[..|TrimLines(front)| - 1] == lines[..|TrimLines(front)| - 1];
      }
    }
  }

  lemma {:induction false} DropCrsClean(lines: seq<string>)
    ensures CleanLines(lines) ==> DropCrs(lines) == lines
    ensures |Unlines(DropCrs(lines))| <= |Unlines(lines)|
    ensures !CleanLines(lines) ==> |Unlines(DropCrs(lines))| < |Unlines(lines)|
  {
    if lines != [] {
      DropCrsClean(lines[1..]);
      assert lines == [lines[0]] + lines[1..];
      assert CleanLines(lines) <==> !LastIs(lines[0], '\r') && CleanLines(lines[1..]);
    }
  }

  /** Rereading loses nothing exactly when no terminated line ends in a carriage return. */
  lemma RereadKeeps(lines: seq<string>)
    requires lines != []
    ensures JoinLines(Reread(lines)) == JoinLines(lines) <==> CleanLines(lines[..|lines| - 1])
  {
    var front, last := lines[..|lines| - 1], lines[|lines| - 1];
    DropCrsAt(front);
    assert (DropCrs(front) + [last])[..|front|] == DropCrs(front);
    DropCrsClean(front);
  }

  lemma {:induction false} DropCrsSnoc(lines: seq<string>, line: string)
    ensures DropCrs(lines + [line]) == DropCrs(lines) + [DropCr(line)]
  {
    if lines == [] {
      assert lines + [line] == [line];
      assert DropCrs([line]) == [DropCr(line)] + [];
    } else {
      assert (lines + [line])[1..] == lines[1..] + [line];
      DropCrsSnoc(lines[1..], line);
    }
  }

  lemma CleanSnoc(lines: seq<string>, line: string)
    ensures CleanLines(lines + [line]) <==> CleanLines(lines) && !LastIs(line, '\r')
  {
    assert (lines + [line])[|lines|] == line;
    assert forall i | 0 <= i < |lines| :: (lines + [line])[i] == lines[i];
  }
}
