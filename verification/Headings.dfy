/** Heading levels and their demotion (src/docs/doc_cleaning.rs). */
module Headings {
  import opened Text
  import opened Fences

  /** `line.chars().take_while(|&c| c == '#').count()` */
  function HashCount(line: string): (n: nat)
    ensures n <= |line| && (n < |line| ==> line[n] != '#')
    ensures forall i | 0 <= i < n :: line[i] == '#'
  {
    if line != [] && line[0] == '#' then HashCount(line[1..]) + 1 else 0
  }

  /** `"#".repeat(n)` */
  function Hashes(n: nat): (r: string)
    ensures |r| == n && forall i | 0 <= i < n :: r[i] == '#'
  {
    if n == 0 then [] else "#" + Hashes(n - 1)
  }

  /** `usize::clamp(1, 6)` */
  function Clamp(t: nat): nat { Min(Max(t, 1), 6) }

  /** A line outside fenced code, its heading level raised and capped at six. */
  function DemoteLine(line: string, levels: nat): string {
    var n := HashCount(line);
    if 1 <= n <= 6 then Hashes(Min(n + levels, 6)) + line[n..] else line
  }

  function DemoteNext(before: seq<string>, line: string, levels: nat): string {
    if InCode(before) || IsFence(line) then line else DemoteLine(line, levels)
  }

  function DemoteLines(lines: seq<string>, levels: nat): seq<string> {
    if lines == [] then []
    else
      var front, line := lines[..|lines| - 1], lines[|lines| - 1];
      DemoteLines(front, levels) + [DemoteNext(front, line, levels)]
  }

  /** `demote_headings` */
  function Demote(doc: string, levels: nat): string {
    if levels == 0 || doc == [] then doc
    else TrimEnd(Unlines(DemoteLines(Lines(doc), levels)))
  }

  /** The heading level a line contributes, if it is one of the six levels outside code. */
  function LevelOf(inCode: bool, line: string): seq<nat> {
    var n := HashCount(line);
    if inCode || IsFence(line) || !(1 <= n <= 6) then [] else [n]
  }

  /** The heading levels of a document, in order. */
  function Levels(lines: seq<string>): seq<nat> {
    if lines == [] then []
    else
      var front, line := lines[..|lines| - 1], lines[|lines| - 1];
      Levels(front) + LevelOf(InCode(front), line)
  }

  function FirstLevel(lines: seq<string>): Option<nat> {
    if Levels(lines) == [] then None else Some(Levels(lines)[0])
  }

  /** How far the first heading is above the clamped target. */
  function Raise(lines: seq<string>, target: nat): nat {
    match FirstLevel(lines)
    case None => 0
    case Some(first) => if first >= Clamp(target) then 0 else Clamp(target) - first
  }

  /** `demote_headings_to_start_at` */
  function StartAt(doc: string, target: nat): string {
    Demote(doc, Raise(Lines(doc), target))
  }

  datatype Violation = Violation(previous: nat, level: nat, heading: string)

  function LastLevel(levels: seq<nat>): Option<nat> {
    if levels == [] then None else Some(levels[|levels| - 1])
  }

  /** What one line adds to a check that found nothing so far. */
  function CheckNext(previous: Option<nat>, inCode: bool, line: string): Option<Violation> {
    var here := LevelOf(inCode, line);
    if previous.Some? && here != [] && here[0] > previous.value + 1
    then Some(Violation(previous.value, here[0], Trim(TrimStartChar(line, '#'))))
    else None
  }

  /** The first heading that skips a level. */
  function Check(lines: seq<string>): Option<Violation> {
    if lines == [] then None
    else
      var front, line := lines[..|lines| - 1], lines[|lines| - 1];
      if Check(front).Some? then Check(front) else CheckNext(LastLevel(Levels(front)), InCode(front), line)
  }

  // ----- The loops -----

  lemma DemoteLinesSnoc(before: seq<string>, line: string, levels: nat)
    ensures DemoteLines(before + [line], levels) == DemoteLines(before, levels) + [DemoteNext(before, line, levels)]
  {
    assert (before + [line])[..|before|] == before;
  }

  lemma LevelsSnoc(before: seq<string>, line: string)
    ensures Levels(before + [line]) == Levels(before) + LevelOf(InCode(before), line)
  {
    assert (before + [line])[..|before|] == before;
  }

  lemma CheckSnoc(before: seq<string>, line: string)
    ensures Check(before + [line])
         == if Check(before).Some? then Check(before) else CheckNext(LastLevel(Levels(before)), InCode(before), line)
  {
    assert (before + [line])[..|before|] == before;
  }

  lemma FenceHasNoHash(line: string)
    requires IsFence(line)
    ensures HashCount(line) == 0
  {
    TrimStartSuffix(line);
  }

  lemma {:induction false} LevelsOfPrefix(lines: seq<string>, i: nat)
    requires i <= |lines|
    ensures Levels(lines[..i]) <= Levels(lines)
    decreases |lines|
  {
    if i < |lines| {
      assert lines[..|lines| - 1][..i] == lines[..i];
      LevelsOfPrefix(lines[..|lines| - 1], i);
    } else {
      TakeAll(lines);
    }
  }

  lemma {:induction false} CheckOfPrefix(lines: seq<string>, i: nat)
    requires i <= |lines| && Check(lines[..i]).Some?
    ensures Check(lines) == Check(lines[..i])
    decreases |lines|
  {
    if i < |lines| {
      assert lines[..|lines| - 1][..i] == lines[..i];
      CheckOfPrefix(lines[..|lines| - 1], i);
    } else {
      TakeAll(lines);
    }
  }

  /** The loop body: the violation a line shows, and what the loop remembers of it. */
  method CheckLine(line: string, inCode: bool, previous: Option<nat>)
    returns (violation: Option<Violation>, inCodeBlock: bool, previousLevel: Option<nat>)
    ensures violation == CheckNext(previous, inCode, line)
    ensures inCodeBlock == (IsFence(line) != inCode)
    ensures previousLevel == if LevelOf(inCode, line) == [] then previous else LastLevel(LevelOf(inCode, line))
  {
    violation, inCodeBlock, previousLevel := None, inCode, previous;
    if IsFence(line) {
      inCodeBlock := !inCodeBlock;
      return;
    }
    if inCodeBlock || !("#" <= line) {
      return;
    }
    var headingLevel := HashCount(line);
    if headingLevel == 0 || headingLevel > 6 {
      return;
    }
    if previous.Some? {
      var increment := if headingLevel > previous.value then headingLevel - previous.value else 0;
      if increment > 1 {
        violation := Some(Violation(previous.value, headingLevel, Trim(TrimStartChar(line, '#'))));
      }
    }
    previousLevel := Some(headingLevel);
  }

  /** What one turn of the loop has to establish. */
  lemma CheckStep(lines: seq<string>, i: nat)
    requires i < |lines| && Check(lines[..i]).None?
    ensures InCode(lines[..i + 1]) == (IsFence(lines[i]) != InCode(lines[..i]))
    ensures LastLevel(Levels(lines[..i + 1]))
         == if LevelOf(InCode(lines[..i]), lines[i]) == [] then LastLevel(Levels(lines[..i]))
            else LastLevel(LevelOf(InCode(lines[..i]), lines[i]))
    ensures Check(lines[..i + 1]) == CheckNext(LastLevel(Levels(lines[..i])), InCode(lines[..i]), lines[i])
  {
    TakeNext(lines, i);
    InCodeSnoc(lines[..i], lines[i]);
    LevelsSnoc(lines[..i], lines[i]);
    CheckSnoc(lines[..i], lines[i]);
  }

  method CheckMonotonicHeadings(doc: string) returns (violation: Option<Violation>)
    ensures violation == Check(Lines(doc))
  {
    var lines := Lines(doc);
    var previousLevel: Option<nat> := None;
    var inCodeBlock := false;
    for i := 0 to |lines|
      invariant inCodeBlock == InCode(lines[..i])
      invariant Check(lines[..i]) == None
      invariant previousLevel == LastLevel(Levels(lines[..i]))
    {
      CheckStep(lines, i);
      violation, inCodeBlock, previousLevel := CheckLine(lines[i], inCodeBlock, previousLevel);
      if violation.Some? {
        CheckOfPrefix(lines, i + 1);
        return;
      }
    }
    TakeAll(lines);
    return None;
  }

  method DemoteHeadings(doc: string, levels: nat) returns (out: string)
    ensures out == Demote(doc, levels)
  {
    if levels == 0 || doc == [] {
      return doc;
    }
    var lines := Lines(doc);
    var inCodeBlock := false;
    out := "";
    for i := 0 to |lines|
      invariant inCodeBlock == InCode(lines[..i])
      invariant out == Unlines(DemoteLines(lines[..i], levels))
    {
      var line := lines[i];
      TakeNext(lines, i);
      InCodeSnoc(lines[..i], line);
      DemoteLinesSnoc(lines[..i], line, levels);
      UnlinesSnoc(DemoteLines(lines[..i], levels), DemoteNext(lines[..i], line, levels));
      if IsFence(line) {
        inCodeBlock := !inCodeBlock;
        out := out + line + "\n";
        continue;
      }
      if inCodeBlock || !("#" <= line) {
        out := out + line + "\n";
        continue;
      }
      var headingLevel := HashCount(line);
      if headingLevel > 0 && headingLevel <= 6 {
        var newLevel := Min(headingLevel + levels, 6);
        var demotedHashes := Hashes(newLevel);
        var rest := line[headingLevel..];
        out := out + (demotedHashes + rest) + "\n";
      } else {
        out := out + line + "\n";
      }
    }
    TakeAll(lines);
    out := TrimEnd(out);
  }

  method FirstHeadingLevel(doc: string) returns (level: Option<nat>)
    ensures level == FirstLevel(Lines(doc))
  {
    var lines := Lines(doc);
    var inCodeBlock := false;
    for i := 0 to |lines|
      invariant inCodeBlock == InCode(lines[..i])
      invariant Levels(lines[..i]) == []
    {
      var line := lines[i];
      TakeNext(lines, i);
      InCodeSnoc(lines[..i], line);
      LevelsSnoc(lines[..i], line);
      if IsFence(line) {
        inCodeBlock := !inCodeBlock;
        continue;
      }
      if inCodeBlock || !("#" <= line) {
        continue;
      }
      var headingLevel := HashCount(line);
      if headingLevel > 0 && headingLevel <= 6 {
        LevelsOfPrefix(lines, i + 1);
        return Some(headingLevel);
      }
    }
    TakeAll(lines);
    return None;
  }

  method DemoteHeadingsToStartAt(doc: string, target: nat) returns (out: string)
    ensures out == StartAt(doc, target)
  {
    var first := FirstHeadingLevel(doc);
    if first.None? {
      return doc;
    }
    var targetLevel := Clamp(target);
    if first.value >= targetLevel {
      return doc;
    }
    out := DemoteHeadings(doc, targetLevel - first.value);
  }
}
