/** What demotion does to each line, what counts as a heading and as code, and which heading a
    failed check names, written on the characters of the lines. */
module HeadingLines {
  import opened Text
  import opened Fences
  import opened Headings
  import opened HeadingsLaws

  // ----- Headings -----

  /** The line without the `#` it starts with. */
  function Tail(line: string): string { TrimStartChar(line, '#') }

  /** How many `#` a line starts with. */
  function Rank(line: string): nat { |line| - |Tail(line)| }

  lemma {:induction false} RankIs(line: string)
    ensures HashCount(line) == Rank(line) && line[Rank(line)..] == Tail(line)
  {
    if line != [] && line[0] == '#' {
      RankIs(line[1..]);
      assert line[1..][Rank(line[1..])..] == line[Rank(line)..];
    }
  }

  lemma HashesAre(n: nat)
    ensures Hashes(n) == seq(n, i => '#')
  {
  }

  /** A demoted line: of a heading the number of `#` changes and nothing else, every other line
      stays. */
  lemma DemotedLineIs(line: string, levels: nat)
    ensures DemoteLine(line, levels)
         == if 1 <= Rank(line) <= 6 then seq(Min(Rank(line) + levels, 6), i => '#') + Tail(line) else line
  {
    RankIs(line);
    HashesAre(Min(Rank(line) + levels, 6));
  }

  /** Every line of a demoted document, from the trimmed one: code and lines with no `#` or more
      than six at their start stay, a heading keeps its text and gets `levels` more `#`, at most
      six; terminated lines are read without the carriage return at their end. */
  lemma DemotedLineText(doc: string, levels: nat, i: nat)
    requires levels >= 1 && i < |TrimLines(Lines(doc))|
    ensures var trimmed, demoted := TrimLines(Lines(doc)), Lines(Demote(doc, levels));
      var line := trimmed[i];
      && |demoted| == |trimmed|
      && demoted[i] == AsReread(trimmed, i,
                                if Coded(trimmed, i) || !(1 <= Rank(line) <= 6) then line
                                else seq(Min(Rank(line) + levels, 6), k => '#') + Tail(line))
  {
    DemotedLine(doc, levels, i);
    DemotedLineIs(TrimLines(Lines(doc))[i], levels);
  }

  lemma {:induction false} TailOfHashes(n: nat, rest: string)
    requires rest != [] ==> rest[0] != '#'
    ensures Tail(seq(n, i => '#') + rest) == rest
  {
    var s := seq(n, i => '#') + rest;
    if n == 0 {
      assert s == rest;
    } else {
      assert s[0] == '#' && s[1..] == seq(n - 1, i => '#') + rest;
      TailOfHashes(n - 1, rest);
    }
  }

  lemma {:induction false} TailDropCr(line: string)
    ensures Tail(DropCr(line)) == DropCr(Tail(line))
  {
    if line != [] && line[0] == '#' {
      TailDropCr(line[1..]);
      if LastIs(line, '\r') {
        assert DropCr(line)[1..] == DropCr(line[1..]);
      }
    }
  }

  lemma TailOfDemoted(line: string, levels: nat)
    ensures Tail(if 1 <= Rank(line) <= 6 then seq(Min(Rank(line) + levels, 6), k => '#') + Tail(line) else line)
         == Tail(line)
  {
    TrimStartCharIs(line, '#');
    TailOfHashes(Min(Rank(line) + levels, 6), Tail(line));
  }

  lemma TailReread(lines: seq<string>, i: nat, line: string)
    ensures Tail(AsReread(lines, i, line)) == AsReread(lines, i, Tail(line))
  {
    TailDropCr(line);
  }

  /** So no line of the document loses or changes anything behind its `#`. */
  lemma DemotionKeepsText(doc: string, levels: nat, i: nat)
    requires levels >= 1 && i < |TrimLines(Lines(doc))|
    ensures var trimmed, demoted := TrimLines(Lines(doc)), Lines(Demote(doc, levels));
      i < |demoted| && Tail(demoted[i]) == AsReread(trimmed, i, Tail(trimmed[i]))
  {
    var trimmed := TrimLines(Lines(doc));
    var line := trimmed[i];
    DemotedLine(doc, levels, i);
    DemotedLineIs(line, levels);
    TailOfDemoted(line, levels);
    TailReread(trimmed, i, if Coded(trimmed, i) then line else DemoteLine(line, levels));
  }

  /** Demoting by nothing returns the document, and so does starting at a level that its first
      heading, if it has one, reaches already. */
  lemma NothingToDemote(doc: string, target: nat)
    requires var levels := Levels(Lines(doc)); levels == [] || levels[0] >= Min(Max(target, 1), 6)
    ensures Demote(doc, 0) == doc && StartAt(doc, target) == doc
  {
  }

  /** The level a document is made to start at: the target, but at least one and at most six,
      and not above that of its first heading. */
  lemma StartLevel(doc: string, target: nat)
    ensures var before, after := Levels(Lines(doc)), Levels(Lines(StartAt(doc, target)));
      var least := if target < 1 then 1 else if target > 6 then 6 else target;
      && (before == [] <==> after == [])
      && (before != [] ==> after[0] == if before[0] >= least then before[0] else least)
  {
    StartAtSetsFirstLevel(doc, target);
  }

  /** A line outside code is a heading exactly when it starts with one to six `#`, and that
      many are its level. */
  lemma LevelOfIs(inCode: bool, line: string)
    ensures LevelOf(inCode, line)
         == if !inCode && !IsFence(line) && 1 <= Rank(line) <= 6 then [Rank(line)] else []
  {
    RankIs(line);
  }

  // ----- Code -----

  lemma {:induction false} TrimStartCut(s: string) returns (n: nat)
    ensures n <= |s| && TrimStart(s) == s[n..] && (n < |s| ==> !IsWhitespace(s[n]))
    ensures forall i | 0 <= i < n :: IsWhitespace(s[i])
  {
    n := 0;
    if s != [] && IsWhitespace(s[0]) {
      var k := TrimStartCut(s[1..]);
      assert s[1..][k..] == s[k + 1..];
      assert forall i | 1 <= i < k + 1 :: s[i] == s[1..][i - 1];
      n := k + 1;
    }
  }

  /** Three backticks behind `n` characters of whitespace. */
  ghost predicate FenceBehind(line: string, n: nat) {
    n + 3 <= |line| && line[n..n + 3] == "```" && forall i | 0 <= i < n :: IsWhitespace(line[i])
  }

  /** A fence is a line with three backticks behind its leading whitespace. */
  lemma FenceIs(line: string)
    ensures IsFence(line) <==> exists n: nat :: FenceBehind(line, n)
  {
    var n := TrimStartCut(line);
    if IsFence(line) { assert line[n..][..3] == line[n..n + 3] && FenceBehind(line, n); }
    if m: nat :| FenceBehind(line, m) {
      assert line[m] == line[m..m + 3][0] == '`';
      assert m == n;
      assert line[n..][..3] == line[n..n + 3];
    }
  }

  function FenceCount(lines: seq<string>): nat {
    if lines == [] then 0 else FenceCount(lines[1..]) + if IsFence(lines[0]) then 1 else 0
  }

  lemma {:induction false} FenceCountSnoc(lines: seq<string>, line: string)
    ensures FenceCount(lines + [line]) == FenceCount(lines) + if IsFence(line) then 1 else 0
  {
    if lines == [] {
      assert lines + [line] == [line] && [line][1..] == [];
    } else {
      assert (lines + [line])[1..] == lines[1..] + [line];
      FenceCountSnoc(lines[1..], line);
    }
  }

  /** What follows an odd number of fences is code. */
  lemma {:induction false} InCodeIs(lines: seq<string>)
    ensures InCode(lines) <==> FenceCount(lines) % 2 == 1
  {
    if lines != [] {
      var front, line := lines[..|lines| - 1], lines[|lines| - 1];
      assert lines == front + [line];
      InCodeIs(front);
      FenceCountSnoc(front, line);
    }
  }

  // ----- The heading a failed check names -----

  /** The line at which the check fails: a heading more than one level below the one before,
      named by its text. */
  ghost predicate FailsAt(lines: seq<string>, i: nat, v: Violation) {
    && i < |lines| && Check(lines[..i]) == None
    && Levels(lines[..i]) != [] && Levels(lines[..i])[|Levels(lines[..i])| - 1] == v.previous
    && !Coded(lines, i) && Rank(lines[i]) == v.level && v.previous + 1 < v.level <= 6
    && v.heading == Trim(Tail(lines[i]))
  }

  lemma FailsLater(front: seq<string>, line: string, i: nat, v: Violation)
    requires FailsAt(front, i, v)
    ensures FailsAt(front + [line], i, v)
  {
    assert (front + [line])[..i] == front[..i];
  }

  lemma {:induction false} CheckNamesHeading(lines: seq<string>)
    ensures Check(lines).Some? ==> exists i: nat :: FailsAt(lines, i, Check(lines).value)
  {
    if lines != [] {
      var front, line := lines[..|lines| - 1], lines[|lines| - 1];
      assert lines == front + [line];
      CheckNamesHeading(front);
      if Check(front).Some? {
        var i: nat :| FailsAt(front, i, Check(front).value);
        FailsLater(front, line, i, Check(front).value);
      } else if Check(lines).Some? {
        LevelOfIs(InCode(front), line);
        assert lines[..|front|] == front;
        assert FailsAt(lines, |front|, Check(lines).value);
      }
    }
  }
}
