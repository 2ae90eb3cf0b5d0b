/** Blank lines before Markdown lists (src/docs/doc_cleaning.rs). */
module Lists {
  import opened Text
  import opened Fences

  predicate IsGap(c: char) { c == ' ' || c == '\t' }

  /** The number of digits at the start of a text. */
  function DigitCount(t: string): (n: nat)
    ensures n <= |t| && (n < |t| ==> !IsDigit(t[n]))
    ensures forall i | 0 <= i < n :: IsDigit(t[i])
  {
    if t != [] && IsDigit(t[0]) then DigitCount(t[1..]) + 1 else 0
  }

  predicate IsMarker(t: string) {
    if t == [] then false
    else if t[0] == '-' || t[0] == '*' || t[0] == '+' then |t| > 1 && IsGap(t[1])
    else
      var n := DigitCount(t);
      n > 0 && n + 1 < |t| && (t[n] == '.' || t[n] == ')') && IsGap(t[n + 1])
  }

  /** A list item: at most three spaces, a bullet or a number, and a gap. */
  predicate IsListItem(line: string) {
    var t := TrimStartChar(line, ' ');
    |line| - |t| <= 3 && IsMarker(t)
  }

  lemma {:induction false} DigitCountIs(t: string, n: nat)
    requires n <= |t| && forall i | 0 <= i < n :: IsDigit(t[i])
    requires n < |t| ==> !IsDigit(t[n])
    ensures DigitCount(t) == n
  {
    if n > 0 { DigitCountIs(t[1..], n - 1); }
  }

  method DigitRun(t: string) returns (idx: nat)
    ensures idx == DigitCount(t)
  {
    idx := 0;
    while idx < |t| && IsDigit(t[idx])
      invariant idx <= |t|
      invariant forall i | 0 <= i < idx :: IsDigit(t[i])
    {
      idx := idx + 1;
    }
    DigitCountIs(t, idx);
  }

  method IsListItemStart(line: string) returns (b: bool)
    ensures b == IsListItem(line)
  {
    var trimmedLeft := TrimStartChar(line, ' ');
    var leadingSpaces := |line| - |trimmedLeft|;
    if leadingSpaces > 3 || trimmedLeft == [] {
      return false;
    }
    if trimmedLeft[0] == '-' || trimmedLeft[0] == '*' || trimmedLeft[0] == '+' {
      return |trimmedLeft| > 1 && IsGap(trimmedLeft[1]);
    }
    if !IsDigit(trimmedLeft[0]) {
      return false;
    }
    var idx := DigitRun(trimmedLeft);
    return idx + 1 < |trimmedLeft|
        && (trimmedLeft[idx] == '.' || trimmedLeft[idx] == ')') && IsGap(trimmedLeft[idx + 1]);
  }

  // ----- The pass over the lines -----

  predicate IsBlankLine(line: string) {
    Trim(line) == []
  }

  /** What the loop remembers: `prev_non_empty` and `prev_was_blank`. */
  datatype Seen = Seen(previous: Option<string>, blank: bool)

  function SeenNext(inCode: bool, seen: Seen, line: string): Seen {
    if IsFence(line) then Seen(Some(line), false)
    else if inCode then seen
    else if IsBlankLine(line) then Seen(seen.previous, true)
    else Seen(Some(line), false)
  }

  function SeenAfter(lines: seq<string>): Seen {
    if lines == [] then Seen(None, true)
    else
      var front := lines[..|lines| - 1];
      SeenNext(InCode(front), SeenAfter(front), lines[|lines| - 1])
  }

  /** A list item that follows neither a blank line nor another item. */
  predicate StartsList(seen: Seen, line: string) {
    IsListItem(line) && !seen.blank && !(seen.previous.Some? && IsListItem(seen.previous.value))
  }

  /** Such an item outside code. */
  predicate BreaksList(inCode: bool, seen: Seen, line: string) {
    !IsFence(line) && !inCode && !IsBlankLine(line) && StartsList(seen, line)
  }

  predicate NeedsBlank(before: seq<string>, line: string) {
    BreaksList(InCode(before), SeenAfter(before), line)
  }

  function Piece(before: seq<string>, line: string): seq<string> {
    if NeedsBlank(before, line) then ["", line] else [line]
  }

  function Spaced(lines: seq<string>): seq<string> {
    if lines == [] then []
    else
      var front, line := lines[..|lines| - 1], lines[|lines| - 1];
      Spaced(front) + Piece(front, line)
  }

  /** `ensure_blank_before_lists` */
  function SpaceLists(doc: string): string {
    Unlines(Spaced(Lines(doc)))
  }

  lemma SeenSnoc(before: seq<string>, line: string)
    ensures SeenAfter(before + [line]) == SeenNext(InCode(before), SeenAfter(before), line)
  {
    assert (before + [line])[..|before|] == before;
  }

  lemma SpacedSnoc(before: seq<string>, line: string)
    ensures Spaced(before + [line]) == Spaced(before) + Piece(before, line)
  {
    assert (before + [line])[..|before|] == before;
  }

  function Gap(needed: bool): string { if needed then "\n" else "" }

  lemma UnlinesPiece(lines: seq<string>, before: seq<string>, line: string)
    ensures Unlines(lines + Piece(before, line))
         == Unlines(lines) + (Gap(NeedsBlank(before, line)) + line + "\n")
  {
    if NeedsBlank(before, line) {
      assert lines + ["", line] == lines + [""] + [line];
      UnlinesSnoc(lines + [""], line);
      UnlinesSnoc(lines, "");
      assert Unlines(lines) + "" + "\n" + line + "\n" == Unlines(lines) + ("\n" + line + "\n");
    } else {
      UnlinesSnoc(lines, line);
      assert "" + line + "\n" == line + "\n";
    }
  }

  /** `starts_list && !prev_was_blank && !prev_was_list` */
  method IsListStart(line: string, prevNonEmpty: Option<string>, prevWasBlank: bool) returns (b: bool)
    ensures b == StartsList(Seen(prevNonEmpty, prevWasBlank), line)
  {
    var startsList := IsListItemStart(line);
    var prevWasList := false;
    if prevNonEmpty.Some? {
      prevWasList := IsListItemStart(prevNonEmpty.value);
    }
    return startsList && !prevWasBlank && !prevWasList;
  }

  /** What one turn of the loop has to establish. */
  lemma SpaceStep(lines: seq<string>, i: nat)
    requires i < |lines|
    ensures InCode(lines[..i + 1]) == (IsFence(lines[i]) != InCode(lines[..i]))
    ensures SeenAfter(lines[..i + 1]) == SeenNext(InCode(lines[..i]), SeenAfter(lines[..i]), lines[i])
    ensures Unlines(Spaced(lines[..i + 1]))
         == Unlines(Spaced(lines[..i]))
            + (Gap(BreaksList(InCode(lines[..i]), SeenAfter(lines[..i]), lines[i])) + lines[i] + "\n")
  {
    TakeNext(lines, i);
    InCodeSnoc(lines[..i], lines[i]);
    SeenSnoc(lines[..i], lines[i]);
    SpacedSnoc(lines[..i], lines[i]);
    UnlinesPiece(Spaced(lines[..i]), lines[..i], lines[i]);
  }

  /** The loop body: what is written before a line and what the loop remembers of it. */
  method SpaceLine(line: string, inCode: bool, previous: Option<string>, wasBlank: bool)
    returns (gap: string, inCodeBlock: bool, prevNonEmpty: Option<string>, prevWasBlank: bool)
    ensures gap == Gap(BreaksList(inCode, Seen(previous, wasBlank), line))
    ensures inCodeBlock == (IsFence(line) != inCode)
    ensures Seen(prevNonEmpty, prevWasBlank) == SeenNext(inCode, Seen(previous, wasBlank), line)
  {
    if IsFence(line) {
      return "", !inCode, Some(line), false;
    }
    if inCode {
      return "", inCode, previous, wasBlank;
    }
    if IsBlankLine(line) {
      return "", inCode, previous, true;
    }
    var startsList := IsListStart(line, previous, wasBlank);
    return Gap(startsList), inCode, Some(line), false;
  }

  method EnsureBlankBeforeLists(doc: string) returns (out: string)
    ensures out == SpaceLists(doc)
  {
    out := "";
    var inCodeBlock := false;
    var prevNonEmpty: Option<string> := None;
    var prevWasBlank := true;
    var lines := Lines(doc);
    for i := 0 to |lines|
      invariant inCodeBlock == InCode(lines[..i])
      invariant SeenAfter(lines[..i]) == Seen(prevNonEmpty, prevWasBlank)
      invariant out == Unlines(Spaced(lines[..i]))
    {
      var gap;
      SpaceStep(lines, i);
      gap, inCodeBlock, prevNonEmpty, prevWasBlank :=
        SpaceLine(lines[i], inCodeBlock, prevNonEmpty, prevWasBlank);
      out := out + (gap + lines[i] + "\n");
    }
    TakeAll(lines);
  }
}
