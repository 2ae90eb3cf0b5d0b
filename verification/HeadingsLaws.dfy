/** What heading demotion promises: it composes, leaves fenced code alone, shifts every
    level alike and so keeps documents monotonic. */
module HeadingsLaws {
  import opened Text
  import opened Fences
  import opened Headings

  // ----- One line -----

  lemma {:induction false} HashIs(line: string, n: nat)
    requires n <= |line| && forall i | 0 <= i < n :: line[i] == '#'
    requires n < |line| ==> line[n] != '#'
    ensures HashCount(line) == n
  {
    if n > 0 { HashIs(line[1..], n - 1); }
  }

  lemma HashBlank(line: string, after: string)
    requires Blank(after)
    ensures HashCount(line + after) == HashCount(line)
  {
    HashIs(line + after, HashCount(line));
  }

  lemma DemoteLineBlank(line: string, after: string, levels: nat)
    requires Blank(after)
    ensures DemoteLine(line + after, levels) == DemoteLine(line, levels) + after
  {
    HashBlank(line, after);
    var n := HashCount(line);
    assert (line + after)[n..] == line[n..] + after;
    assert Hashes(Min(n + levels, 6)) + (line[n..] + after) == Hashes(Min(n + levels, 6)) + line[n..] + after;
  }

  lemma HashesThen(n: nat, rest: string)
    requires rest == [] || rest[0] != '#'
    ensures HashCount(Hashes(n) + rest) == n
  {
    HashIs(Hashes(n) + rest, n);
  }

  lemma DemoteLineLevel(line: string, levels: nat)
    requires 1 <= HashCount(line) <= 6
    ensures HashCount(DemoteLine(line, levels)) == Min(HashCount(line) + levels, 6)
  {
    var n := HashCount(line);
    HashesThen(Min(n + levels, 6), line[n..]);
  }

  lemma DemoteLineTwice(line: string, a: nat, b: nat, sum: nat)
    requires sum == a + b
    ensures DemoteLine(DemoteLine(line, a), b) == DemoteLine(line, sum)
  {
    var n := HashCount(line);
    if 1 <= n <= 6 {
      DemoteLineLevel(line, a);
      assert DemoteLine(line, a)[Min(n + a, 6)..] == line[n..];
    }
  }

  lemma HashIsNoFence(line: string)
    requires HashCount(line) > 0
    ensures !IsFence(line)
  {
    if IsFence(line) { FenceHasNoHash(line); }
  }

  lemma DemoteNextFence(before: seq<string>, line: string, levels: nat)
    ensures IsFence(DemoteNext(before, line, levels)) == IsFence(line)
  {
    if !IsFence(line) && !InCode(before) && 1 <= HashCount(line) <= 6 {
      DemoteLineLevel(line, levels);
      HashIsNoFence(DemoteLine(line, levels));
    }
  }

  // ----- All lines -----

  lemma {:induction false} DemotedInCode(lines: seq<string>, levels: nat)
    ensures InCode(DemoteLines(lines, levels)) == InCode(lines)
  {
    if lines != [] {
      var front, line := lines[..|lines| - 1], lines[|lines| - 1];
      DemotedInCode(front, levels);
      DemoteNextFence(front, line, levels);
      InCodeSnoc(DemoteLines(front, levels), DemoteNext(front, line, levels));
    }
  }

  lemma {:induction false} DemoteLinesTwice(lines: seq<string>, a: nat, b: nat, sum: nat)
    requires sum == a + b
    ensures DemoteLines(DemoteLines(lines, a), b) == DemoteLines(lines, sum)
  {
    if lines != [] {
      var front, line := lines[..|lines| - 1], lines[|lines| - 1];
      var next := DemoteNext(front, line, a);
      DemoteLinesTwice(front, a, b, sum);
      DemoteLinesSnoc(DemoteLines(front, a), next, b);
      DemotedInCode(front, a);
      DemoteNextFence(front, line, a);
      DemoteLineTwice(line, a, b, sum);
    }
  }

  /** A fence or a line of fenced code. */
  predicate Coded(lines: seq<string>, i: nat)
    requires i < |lines|
  {
    InCode(lines[..i]) || IsFence(lines[i])
  }

  /** The line map, position by position. */
  lemma {:induction false} DemotedLineAt(lines: seq<string>, levels: nat, i: nat)
    requires i < |lines|
    ensures |DemoteLines(lines, levels)| == |lines|
    ensures DemoteLines(lines, levels)[i]
         == if Coded(lines, i) then lines[i] else DemoteLine(lines[i], levels)
  {
    var front := lines[..|lines| - 1];
    DemotedLength(lines, levels);
    DemotedLength(front, levels);
    if i < |front| {
      DemotedLineAt(front, levels, i);
      assert front[..i] == lines[..i];
    }
  }

  lemma {:induction false} DemotedLength(lines: seq<string>, levels: nat)
    ensures |DemoteLines(lines, levels)| == |lines|
  {
    if lines != [] { DemotedLength(lines[..|lines| - 1], levels); }
  }

  lemma DemoteLineNewline(line: string, levels: nat)
    requires Lacks(line, '\n')
    ensures Lacks(DemoteLine(line, levels), '\n')
  {
  }

  lemma {:induction false} DemotedNewlineFree(lines: seq<string>, levels: nat)
    requires NewlineFree(lines)
    ensures NewlineFree(DemoteLines(lines, levels))
  {
    if lines != [] {
      DemotedNewlineFree(lines[..|lines| - 1], levels);
      DemoteLineNewline(lines[|lines| - 1], levels);
    }
  }

  // ----- Demotion against trimming and rereading -----

  lemma DemoteNextBlank(before: seq<string>, line: string, after: string, levels: nat)
    requires Blank(after)
    ensures DemoteNext(before, line + after, levels) == DemoteNext(before, line, levels) + after
    ensures LevelOf(InCode(before), line + after) == LevelOf(InCode(before), line)
  {
    FenceBlank(line, after);
    DemoteLineBlank(line, after, levels);
    HashBlank(line, after);
  }

  lemma DemoteNextEnd(before: seq<string>, line: string, levels: nat)
    requires line != [] && !IsWhitespace(line[|line| - 1])
    ensures var d := DemoteNext(before, line, levels); d != [] && !IsWhitespace(d[|d| - 1])
  {
    var n := HashCount(line);
    if 1 <= n <= 6 && n < |line| {
      var d := DemoteLine(line, levels);
      assert d[|d| - 1] == line[n..][|line| - n - 1];
    }
  }

  lemma DemoteNextEmpty(before: seq<string>, levels: nat)
    ensures DemoteNext(before, [], levels) == []
  {
  }

  lemma TrimDemoted(before: seq<string>, line: string, levels: nat)
    ensures TrimEnd(DemoteNext(before, line, levels)) == DemoteNext(before, TrimEnd(line), levels)
    ensures LevelOf(InCode(before), TrimEnd(line)) == LevelOf(InCode(before), line)
    ensures DemoteNext(before, TrimEnd(line), levels) == [] <==> TrimEnd(line) == []
  {
    var t := TrimEnd(line);
    var w := SplitTrimmed(line);
    assert line == t + w;
    DemoteNextBlank(before, t, w, levels);
    TrimDemotedCore(before, t, w, levels);
  }

  lemma TrimDemotedCore(before: seq<string>, line: string, after: string, levels: nat)
    requires line != [] ==> !IsWhitespace(line[|line| - 1])
    requires Blank(after)
    ensures TrimEnd(DemoteNext(before, line, levels) + after) == DemoteNext(before, line, levels)
    ensures DemoteNext(before, line, levels) == [] <==> line == []
  {
    if line == [] {
      DemoteNextEmpty(before, levels);
    } else {
      DemoteNextEnd(before, line, levels);
    }
    TrimEndAppend(DemoteNext(before, line, levels), after);
  }

  lemma {:induction false} TrimDemotedLines(lines: seq<string>, levels: nat)
    ensures TrimLines(DemoteLines(lines, levels)) == DemoteLines(TrimLines(lines), levels)
  {
    if lines != [] {
      var front, line := lines[..|lines| - 1], lines[|lines| - 1];
      TrimDemoted(front, line, levels);
      assert (DemoteLines(front, levels) + [DemoteNext(front, line, levels)])[..|DemoteLines(front, levels)|]
          == DemoteLines(front, levels);
      if TrimEnd(line) == [] {
        TrimDemotedLines(front, levels);
      } else {
        DemoteLinesSnoc(front, TrimEnd(line), levels);
      }
    }
  }

  lemma DemoteNextDropCr(before: seq<string>, line: string, levels: nat)
    ensures DropCr(DemoteNext(before, line, levels)) == DemoteNext(before, DropCr(line), levels)
    ensures LevelOf(InCode(before), DropCr(line)) == LevelOf(InCode(before), line)
    ensures LastIs(DemoteNext(before, line, levels), '\r') <==> LastIs(line, '\r')
    ensures IsFence(DropCr(line)) == IsFence(line)
  {
    var w := SplitCr(line);
    FenceBlank(DropCr(line), w);
    DemoteNextBlank(before, DropCr(line), w, levels);
    var d := DemoteNext(before, DropCr(line), levels);
    if w == [] {
      assert line == DropCr(line);
      LastKept(before, line, levels);
    } else {
      assert w == "\r" && d + "\r" == DemoteNext(before, line, levels);
    }
  }

  lemma LastKept(before: seq<string>, line: string, levels: nat)
    requires !LastIs(line, '\r')
    ensures !LastIs(DemoteNext(before, line, levels), '\r')
  {
    var n := HashCount(line);
    if 1 <= n <= 6 && n < |line| {
      var d := DemoteLine(line, levels);
      assert d[|d| - 1] == line[n..][|line| - n - 1];
    }
  }

  lemma {:induction false} DropCrsLevels(lines: seq<string>, levels: nat)
    ensures InCode(DropCrs(lines)) == InCode(lines)
    ensures Levels(DropCrs(lines)) == Levels(lines)
    ensures DemoteLines(DropCrs(lines), levels) == DropCrs(DemoteLines(lines, levels))
  {
    if lines != [] {
      var front, line := lines[..|lines| - 1], lines[|lines| - 1];
      assert lines == front + [line];
      DropCrsLevels(front, levels);
      DropCrsSnoc(front, line);
      DemoteNextDropCr(front, line, levels);
      InCodeSnoc(DropCrs(front), DropCr(line));
      LevelsSnoc(DropCrs(front), DropCr(line));
      DemoteLinesSnoc(DropCrs(front), DropCr(line), levels);
      DropCrsSnoc(DemoteLines(front, levels), DemoteNext(front, line, levels));
    }
  }

  lemma RereadDemoted(lines: seq<string>, levels: nat)
    ensures DemoteLines(Reread(lines), levels) == Reread(DemoteLines(lines, levels))
    ensures Levels(Reread(lines)) == Levels(lines)
  {
    if lines != [] {
      var front, line := lines[..|lines| - 1], lines[|lines| - 1];
      DropCrsLevels(front, levels);
      DemoteLinesSnoc(DropCrs(front), line, levels);
      LevelsSnoc(DropCrs(front), line);
      assert (DemoteLines(front, levels) + [DemoteNext(front, line, levels)])[..|DemoteLines(front, levels)|]
          == DemoteLines(front, levels);
    }
  }

  lemma {:induction false} TrimLinesLevels(lines: seq<string>)
    ensures Levels(TrimLines(lines)) == Levels(lines)
  {
    if lines != [] {
      var front, line := lines[..|lines| - 1], lines[|lines| - 1];
      TrimDemoted(front, line, 0);
      if TrimEnd(line) == [] {
        TrimLinesLevels(front);
        assert LevelOf(InCode(front), []) == [];
      } else {
        LevelsSnoc(front, TrimEnd(line));
      }
    }
  }

  // ----- Whole documents -----

  lemma DemotedText(doc: string, levels: nat)
    requires levels >= 1
    ensures Demote(doc, levels) == JoinLines(DemoteLines(TrimLines(Lines(doc)), levels))
  {
    TrimDemotedLines(Lines(doc), levels);
    TrimEndOfUnlines(DemoteLines(Lines(doc), levels));
  }

  lemma TrimmedReadable(doc: string, levels: nat)
    ensures var trimmed := DemoteLines(TrimLines(Lines(doc)), levels);
            NewlineFree(trimmed) && LastNonempty(trimmed)
  {
    LinesNewlineFree(doc);
    DemotedNewlineFree(Lines(doc), levels);
    TrimLinesIs(DemoteLines(Lines(doc), levels));
    TrimDemotedLines(Lines(doc), levels);
  }

  lemma LinesOfDemoted(doc: string, levels: nat)
    requires levels >= 1
    ensures Lines(Demote(doc, levels)) == Reread(DemoteLines(TrimLines(Lines(doc)), levels))
  {
    DemotedText(doc, levels);
    TrimmedReadable(doc, levels);
    LinesOfJoinLines(DemoteLines(TrimLines(Lines(doc)), levels));
  }

  lemma TrimmedCoded(lines: seq<string>, i: nat)
    requires i < |TrimLines(lines)|
    ensures i < |lines| && Coded(TrimLines(lines), i) == Coded(lines, i)
  {
    var t := TrimLines(lines);
    TrimLinesShape(lines);
    assert t[..i] == lines[..i];
    if i + 1 == |t| {
      var w := SplitTrimmed(lines[i]);
      FenceBlank(TrimEnd(lines[i]), w);
    }
  }

  /** Every line of a demoted document: the trimmed document's own line when it is a fence or
      fenced code, that line demoted otherwise; terminated lines are read without the carriage
      return at their end. */
  lemma DemotedLine(doc: string, levels: nat, i: nat)
    requires levels >= 1 && i < |TrimLines(Lines(doc))|
    ensures var trimmed, demoted := TrimLines(Lines(doc)), Lines(Demote(doc, levels));
      && |demoted| == |trimmed|
      && demoted[i] == AsReread(trimmed, i, if Coded(trimmed, i) then trimmed[i] else DemoteLine(trimmed[i], levels))
  {
    var trimmed := TrimLines(Lines(doc));
    LinesOfDemoted(doc, levels);
    DemotedLineAt(trimmed, levels, i);
    RereadAt(DemoteLines(trimmed, levels), i);
  }

  /** Every fence and every line of fenced code is still in its place. */
  ghost predicate KeepsCode(lines: seq<string>, demoted: seq<string>) {
    forall i: nat | i < |lines| && Coded(lines, i) :: i < |demoted| && demoted[i] == lines[i]
  }

  /** What is asked of a line of code when `n` lines come before the blank ones at the end: to
      be one of them, and to have no whitespace at its end if it is the last of them, no
      carriage return otherwise. */
  predicate CodeLineStays(lines: seq<string>, n: nat, i: nat)
    requires i < |lines|
  {
    i < n && if i + 1 < n then !LastIs(lines[i], '\r') else TrimEnd(lines[i]) == lines[i]
  }

  ghost predicate CodeStays(lines: seq<string>) {
    forall i: nat | i < |lines| && Coded(lines, i) :: CodeLineStays(lines, |TrimLines(lines)|, i)
  }

  lemma DropCrKeeps(line: string)
    ensures DropCr(line) == line <==> !LastIs(line, '\r')
  {
  }

  /** What happens to one line of code. */
  lemma CodeLineKept(doc: string, levels: nat, i: nat)
    requires levels >= 1 && i < |TrimLines(Lines(doc))| && i < |Lines(doc)| && Coded(Lines(doc), i)
    ensures i < |Lines(Demote(doc, levels))|
    ensures Lines(Demote(doc, levels))[i] == Lines(doc)[i] <==> CodeLineStays(Lines(doc), |TrimLines(Lines(doc))|, i)
  {
    TrimLinesShape(Lines(doc));
    TrimmedCoded(Lines(doc), i);
    DemotedLine(doc, levels, i);
    DropCrKeeps(Lines(doc)[i]);
  }

  lemma DemotedLineCount(doc: string, levels: nat)
    requires levels >= 1
    ensures |Lines(Demote(doc, levels))| == |TrimLines(Lines(doc))|
  {
    var trimmed := TrimLines(Lines(doc));
    LinesOfDemoted(doc, levels);
    DemotedLength(trimmed, levels);
    if trimmed != [] { RereadAt(DemoteLines(trimmed, levels), 0); }
  }

  /** Demotion keeps every line of code exactly in these documents. */
  lemma DemoteKeepsCode(doc: string, levels: nat)
    requires levels >= 1
    ensures KeepsCode(Lines(doc), Lines(Demote(doc, levels))) <==> CodeStays(Lines(doc))
  {
    var lines, demoted := Lines(doc), Lines(Demote(doc, levels));
    var n := |TrimLines(lines)|;
    DemotedLineCount(doc, levels);
    forall i: nat | i < |lines| && Coded(lines, i)
      ensures i < |demoted| && demoted[i] == lines[i] <==> CodeLineStays(lines, n, i) {
      if i < n { CodeLineKept(doc, levels, i); }
    }
  }

  /** It keeps the number of lines exactly in those that end in no blank line. */
  lemma DemoteKeepsLength(doc: string, levels: nat)
    requires levels >= 1
    ensures |Lines(Demote(doc, levels))| == |Lines(doc)|
       <==> Lines(doc) == [] || TrimEnd(Lines(doc)[|Lines(doc)| - 1]) != []
  {
    DemotedLineCount(doc, levels);
    TrimKeepsLength(Lines(doc));
  }

  lemma TrimKeepsLength(lines: seq<string>)
    ensures |TrimLines(lines)| == |lines| <==> lines == [] || TrimEnd(lines[|lines| - 1]) != []
  {
    TrimLinesShape(lines);
  }

  /** For instance unclosed code with a blank at its end loses the blank. */
  lemma CodeLosesBlank(levels: nat)
    requires levels >= 1
    ensures !KeepsCode(Lines("```\nx "), Lines(Demote("```\nx ", levels)))
  {
    var lines := ["```", "x "];
    TwoLines("```", "x ");
    assert "```" + "\n" + "x " == "```\nx ";
    TrimLinesShape(lines);
    assert lines[..1] == ["```"];
    FenceOpens();
    assert Coded(lines, 1) && TrimEnd(lines[1]) != lines[1];
    DemoteKeepsCode("```\nx ", levels);
  }

  lemma TwoLines(first: string, last: string)
    requires Lacks(first, '\n') && Lacks(last, '\n') && last != []
    ensures Lines(first + "\n" + last) == [DropCr(first), last]
  {
    LinesCons(first, last);
    LinesSingle(last);
  }

  lemma FenceOpens()
    ensures InCode(["```"])
  {
    InCodeSnoc([], "```");
    assert [] + ["```"] == ["```"];
  }

  lemma {:induction false} DemotedClean(lines: seq<string>, levels: nat)
    ensures CleanLines(DemoteLines(lines, levels)) <==> CleanLines(lines)
  {
    if lines != [] {
      var front, line := lines[..|lines| - 1], lines[|lines| - 1];
      DemotedClean(front, levels);
      DemoteNextDropCr(front, line, levels);
      CleanSnoc(front, line);
      CleanSnoc(DemoteLines(front, levels), DemoteNext(front, line, levels));
    }
  }

  lemma {:induction false} TrimmedLastIsClean(lines: seq<string>)
    ensures var t := TrimLines(lines);
            t != [] ==> t[|t| - 1] != [] && !IsWhitespace(t[|t| - 1][|t[|t| - 1]| - 1])
  {
    if lines != [] {
      TrimmedLastIsClean(lines[..|lines| - 1]);
      TrimEndIs(lines[|lines| - 1]);
    }
  }

  lemma CleanFront(lines: seq<string>)
    requires lines != [] && !LastIs(lines[|lines| - 1], '\r')
    ensures CleanLines(lines) <==> CleanLines(lines[..|lines| - 1])
  {
    assert lines == lines[..|lines| - 1] + [lines[|lines| - 1]];
    CleanSnoc(lines[..|lines| - 1], lines[|lines| - 1]);
  }

  /** Rereading keeps the last line, so nothing is left to trim. */
  lemma TrimRereadFixed(doc: string, levels: nat)
    ensures var lines := DemoteLines(TrimLines(Lines(doc)), levels);
            TrimLines(Reread(lines)) == Reread(lines)
  {
    var trimmed := TrimLines(Lines(doc));
    var lines := DemoteLines(trimmed, levels);
    DemotedLength(trimmed, levels);
    if trimmed != [] {
      TrimmedLastIsClean(Lines(doc));
      var front, last := trimmed[..|trimmed| - 1], trimmed[|trimmed| - 1];
      DemoteNextEnd(front, last, levels);
      TrimEndAppend(DemoteNext(front, last, levels), []);
      assert DemoteNext(front, last, levels) + [] == DemoteNext(front, last, levels);
    }
  }

  lemma DemoteTwice(doc: string, a: nat, b: nat, sum: nat)
    requires a >= 1 && b >= 1 && sum == a + b
    ensures Demote(Demote(doc, a), b) == JoinLines(Reread(DemoteLines(TrimLines(Lines(doc)), sum)))
  {
    var trimmed := TrimLines(Lines(doc));
    var once := DemoteLines(trimmed, a);
    LinesOfDemoted(doc, a);
    DemotedText(Demote(doc, a), b);
    TrimRereadFixed(doc, a);
    RereadDemoted(once, b);
    DemoteLinesTwice(trimmed, a, b, sum);
  }

  lemma TrimmedKeeps(trimmed: seq<string>, levels: nat)
    requires trimmed != [] ==> trimmed[|trimmed| - 1] != []
    requires trimmed != [] ==> !IsWhitespace(trimmed[|trimmed| - 1][|trimmed[|trimmed| - 1]| - 1])
    ensures JoinLines(Reread(DemoteLines(trimmed, levels))) == JoinLines(DemoteLines(trimmed, levels))
       <==> CleanLines(trimmed)
  {
    var both := DemoteLines(trimmed, levels);
    DemotedClean(trimmed, levels);
    if trimmed != [] {
      var front, last := trimmed[..|trimmed| - 1], trimmed[|trimmed| - 1];
      DemoteNextEnd(front, last, levels);
      CleanFront(both);
      RereadKeeps(both);
    }
  }

  /** What a trimmed document loses when it is demoted and read again. */
  lemma RereadDemotedKeeps(doc: string, levels: nat)
    ensures var both := DemoteLines(TrimLines(Lines(doc)), levels);
            JoinLines(Reread(both)) == JoinLines(both) <==> CleanLines(TrimLines(Lines(doc)))
  {
    TrimmedLastIsClean(Lines(doc));
    TrimmedKeeps(TrimLines(Lines(doc)), levels);
  }

  /** Demoting twice is demoting by the sum, exactly when no line of the trimmed document
      still ends in a carriage return after `lines()` dropped one. */
  lemma DemoteComposes(doc: string, a: nat, b: nat, sum: nat)
    requires a >= 1 && b >= 1 && sum == a + b
    ensures Demote(Demote(doc, a), b) == Demote(doc, sum) <==> CleanLines(TrimLines(Lines(doc)))
  {
    DemoteTwice(doc, a, b, sum);
    DemotedText(doc, sum);
    RereadDemotedKeeps(doc, sum);
  }

  // ----- Levels -----

  function Shift(levels: seq<nat>, k: nat): (r: seq<nat>)
    ensures |r| == |levels| && forall i | 0 <= i < |r| :: r[i] == Min(levels[i] + k, 6)
  {
    if levels == [] then []
    else Shift(levels[..|levels| - 1], k) + [Min(levels[|levels| - 1] + k, 6)]
  }

  lemma ShiftAppend(a: seq<nat>, b: seq<nat>, k: nat)
    ensures Shift(a + b, k) == Shift(a, k) + Shift(b, k)
  {
  }

  lemma ShiftOne(n: nat, k: nat)
    ensures Shift([n], k) == [Min(n + k, 6)]
  {
  }

  lemma LevelOfDemoted(before: seq<string>, line: string, levels: nat)
    ensures LevelOf(InCode(DemoteLines(before, levels)), DemoteNext(before, line, levels))
         == Shift(LevelOf(InCode(before), line), levels)
  {
    DemotedInCode(before, levels);
    DemoteNextFence(before, line, levels);
    if LevelOf(InCode(before), line) != [] {
      DemoteLineLevel(line, levels);
      ShiftOne(HashCount(line), levels);
    }
  }

  lemma {:induction false} DemotedLevels(lines: seq<string>, levels: nat)
    ensures Levels(DemoteLines(lines, levels)) == Shift(Levels(lines), levels)
  {
    if lines != [] {
      var front, line := lines[..|lines| - 1], lines[|lines| - 1];
      DemotedLevels(front, levels);
      LevelsSnoc(DemoteLines(front, levels), DemoteNext(front, line, levels));
      LevelOfDemoted(front, line, levels);
      ShiftAppend(Levels(front), LevelOf(InCode(front), line), levels);
    }
  }

  lemma {:induction false} LevelsBounded(lines: seq<string>)
    ensures forall i | 0 <= i < |Levels(lines)| :: 1 <= Levels(lines)[i] <= 6
  {
    if lines != [] { LevelsBounded(lines[..|lines| - 1]); }
  }

  /** Demotion raises every heading of the document by the same amount, capped at six, and
      adds or loses none. */
  lemma DemoteShiftsLevels(doc: string, levels: nat)
    ensures Levels(Lines(Demote(doc, levels))) == Shift(Levels(Lines(doc)), levels)
  {
    var lines := Lines(doc);
    if levels >= 1 {
      LinesOfDemoted(doc, levels);
      RereadDemoted(DemoteLines(TrimLines(lines), levels), 0);
      DemotedLevels(TrimLines(lines), levels);
      TrimLinesLevels(lines);
    } else {
      LevelsBounded(lines);
    }
  }

  ghost predicate Monotonic(levels: seq<nat>) {
    forall i, j | 0 <= i < j < |levels| && j == i + 1 :: levels[j] <= levels[i] + 1
  }

  ghost predicate FirstSkip(levels: seq<nat>, v: Violation, i: nat) {
    0 < i < |levels| && Monotonic(levels[..i])
    && v.previous == levels[i - 1] && v.level == levels[i] && v.level > v.previous + 1
  }

  lemma MonotonicSnoc(levels: seq<nat>, n: nat)
    ensures Monotonic(levels + [n])
       <==> Monotonic(levels) && (levels != [] ==> n <= levels[|levels| - 1] + 1)
  {
    var all := levels + [n];
    assert forall i | 0 <= i < |levels| :: all[i] == levels[i];
    if Monotonic(all) {
      forall i, j | 0 <= i < j < |levels| && j == i + 1 ensures levels[j] <= levels[i] + 1 {
        assert all[j] <= all[i] + 1;
      }
      if levels != [] { assert all[|levels|] == n; }
    }
  }

  /** The check accepts exactly the documents whose levels never rise by more than one, and
      otherwise reports the first place they do. */
  lemma {:induction false} CheckIsMonotonic(lines: seq<string>)
    ensures Check(lines) == None <==> Monotonic(Levels(lines))
    ensures Check(lines).Some? ==> exists i: nat :: FirstSkip(Levels(lines), Check(lines).value, i)
  {
    if lines != [] {
      var front, line := lines[..|lines| - 1], lines[|lines| - 1];
      CheckIsMonotonic(front);
      var before, here := Levels(front), LevelOf(InCode(front), line);
      if here == [] {
        assert Levels(lines) == before;
      } else {
        MonotonicSnoc(before, here[0]);
        assert here == [here[0]];
        if Check(front).Some? {
          var i: nat :| FirstSkip(before, Check(front).value, i);
          SkipStays(before, here, Check(front).value, i);
        } else if Check(lines).Some? {
          assert (before + here)[..|before|] == before;
          assert FirstSkip(Levels(lines), Check(lines).value, |before|);
        }
      }
    }
  }

  lemma SkipStays(levels: seq<nat>, more: seq<nat>, v: Violation, i: nat)
    requires FirstSkip(levels, v, i)
    ensures FirstSkip(levels + more, v, i)
  {
    assert (levels + more)[..i] == levels[..i];
  }

  /** Demotion turns no accepted document into a rejected one. */
  lemma DemoteKeepsMonotonic(doc: string, levels: nat)
    requires Check(Lines(doc)) == None
    ensures Check(Lines(Demote(doc, levels))) == None
  {
    CheckIsMonotonic(Lines(doc));
    CheckIsMonotonic(Lines(Demote(doc, levels)));
    DemoteShiftsLevels(doc, levels);
  }

  lemma RaisedLevel(levels: seq<nat>, k: nat, target: nat)
    requires levels != [] && levels[0] <= 6
    requires k == if levels[0] >= Clamp(target) then 0 else Clamp(target) - levels[0]
    ensures Shift(levels, k) != [] && Shift(levels, k)[0] == Max(levels[0], Clamp(target))
  {
  }

  lemma RaisedFirst(lines: seq<string>, after: seq<string>, target: nat)
    requires Levels(after) == Shift(Levels(lines), Raise(lines, target))
    ensures FirstLevel(after)
         == match FirstLevel(lines)
            case None => None
            case Some(first) => Some(Max(first, Clamp(target)))
  {
    var levels := Levels(lines);
    LevelsBounded(lines);
    if levels != [] { RaisedLevel(levels, Raise(lines, target), target); }
  }

  /** The first heading ends at its own level or the clamped target, whichever is deeper. */
  lemma StartAtSetsFirstLevel(doc: string, target: nat)
    ensures FirstLevel(Lines(StartAt(doc, target)))
         == match FirstLevel(Lines(doc))
            case None => None
            case Some(first) => Some(Max(first, Clamp(target)))
  {
    DemoteShiftsLevels(doc, Raise(Lines(doc), target));
    RaisedFirst(Lines(doc), Lines(StartAt(doc, target)), target);
  }

  lemma StartAtIdempotent(doc: string, target: nat)
    ensures StartAt(StartAt(doc, target), target) == StartAt(doc, target)
  {
    StartAtSetsFirstLevel(doc, target);
  }
}
