/** What spacing lists promises: it only adds blank lines, leaves every list item outside
    code after a blank line or another item, and changes nothing more when repeated. */
module ListsLaws {
  import opened Text
  import opened Fences
  import opened Lists

  lemma ListItemIsPlain(line: string)
    requires IsListItem(line)
    ensures !IsFence(line) && !IsBlankLine(line)
  {
    var t := TrimStartChar(line, ' ');
    SpacesTrim(line);
    assert !IsWhitespace(t[0]);
    assert TrimStart(t) == t;
    TrimKeeps(t);
  }

  lemma {:induction false} SpacesTrim(line: string)
    ensures TrimStart(line) == TrimStart(TrimStartChar(line, ' '))
  {
    if line != [] && line[0] == ' ' { SpacesTrim(line[1..]); }
  }

  lemma {:induction false} TrimKeeps(t: string)
    requires t != [] && !IsWhitespace(t[0])
    ensures TrimEnd(t) != []
    decreases |t|
  {
    if |t| > 1 && IsWhitespace(t[|t| - 1]) { TrimKeeps(t[..|t| - 1]); }
  }

  // ----- What one spaced piece leaves behind -----

  lemma BlankLineSeen(before: seq<string>)
    requires !InCode(before)
    ensures SeenAfter(before + [""]) == Seen(SeenAfter(before).previous, true)
    ensures !InCode(before + [""])
  {
    SeenSnoc(before, "");
    InCodeSnoc(before, "");
  }

  predicate SameState(a: seq<string>, b: seq<string>) {
    InCode(a) == InCode(b) && SeenAfter(a) == SeenAfter(b)
  }

  lemma LineAgain(before: seq<string>, spaced: seq<string>, line: string, next: seq<string>)
    requires SameState(before, spaced) && Spaced(spaced) == spaced && next == spaced + [line]
    ensures SameState(before + [line], next)
    ensures !NeedsBlank(before, line) ==> Spaced(next) == next
  {
    SeenSnoc(before, line);
    InCodeSnoc(before, line);
    SeenSnoc(spaced, line);
    InCodeSnoc(spaced, line);
    SpacedSnoc(spaced, line);
  }

  /** An inserted blank line is left alone, and after it every line is. */
  lemma BlankAgain(spaced: seq<string>, next: seq<string>, line: string)
    requires !InCode(spaced) && Spaced(spaced) == spaced && next == spaced + [""]
    ensures !InCode(next) && SeenAfter(next) == Seen(SeenAfter(spaced).previous, true)
    ensures Spaced(next) == next && Spaced(next + [line]) == next + [line]
  {
    BlankLineSeen(spaced);
    SpacedSnoc(spaced, "");
    SpacedSnoc(next, line);
  }

  lemma ItemAgain(before: seq<string>, spaced: seq<string>, line: string, next: seq<string>)
    requires SameState(before, spaced) && Spaced(spaced) == spaced && next == spaced + ["", line]
    requires NeedsBlank(before, line)
    ensures SameState(before + [line], next) && Spaced(next) == next
  {
    var gap := spaced + [""];
    assert next == gap + [line];
    BlankAgain(spaced, gap, line);
    SeenSnoc(before, line);
    InCodeSnoc(before, line);
    SeenSnoc(gap, line);
    InCodeSnoc(gap, line);
  }

  lemma PieceIs(before: seq<string>, line: string)
    ensures NeedsBlank(before, line) ==> Piece(before, line) == ["", line]
    ensures !NeedsBlank(before, line) ==> Piece(before, line) == [line]
  {
  }

  /** A piece is spaced after anything that has seen the same as before it. */
  lemma PieceAgain(before: seq<string>, spaced: seq<string>, line: string, next: seq<string>)
    requires SameState(before, spaced) && Spaced(spaced) == spaced && next == spaced + Piece(before, line)
    ensures SameState(before + [line], next) && Spaced(next) == next
  {
    PieceIs(before, line);
    if NeedsBlank(before, line) {
      ItemAgain(before, spaced, line, next);
    } else {
      LineAgain(before, spaced, line, next);
    }
  }

  ghost predicate StaysSpaced(lines: seq<string>) {
    SameState(lines, Spaced(lines)) && Spaced(Spaced(lines)) == Spaced(lines)
  }

  lemma StaysSpacedSnoc(front: seq<string>, line: string)
    requires StaysSpaced(front)
    ensures StaysSpaced(front + [line])
  {
    SpacedSnoc(front, line);
    PieceAgain(front, Spaced(front), line, Spaced(front + [line]));
  }

  lemma NothingStaysSpaced()
    ensures StaysSpaced([])
  {
  }

  lemma StaysSpacedStep(lines: seq<string>, front: seq<string>)
    requires lines != [] && front == lines[..|lines| - 1] && StaysSpaced(front)
    ensures StaysSpaced(lines)
  {
    assert lines == front + [lines[|lines| - 1]];
    StaysSpacedSnoc(front, lines[|lines| - 1]);
  }

  /** What was spaced is spaced already, and leaves the loop in the same state. */
  lemma {:induction false} SpacedAgain(lines: seq<string>)
    ensures StaysSpaced(lines)
  {
    if lines == [] {
      NothingStaysSpaced();
    } else {
      var front := lines[..|lines| - 1];
      SpacedAgain(front);
      StaysSpacedStep(lines, front);
    }
  }

  // ----- Separation -----

  /** Every list item outside code follows a blank line or another item, or comes first. */
  ghost predicate Separated(lines: seq<string>) {
    forall i, j | 0 <= i < j < |lines| && j == i + 1 && IsListItem(lines[j]) && !InCode(lines[..j]) ::
      IsSeparator(lines[i])
  }

  predicate IsSeparator(line: string) {
    IsBlankLine(line) || IsListItem(line)
  }

  lemma NeedsBlankIs(before: seq<string>, line: string)
    ensures NeedsBlank(before, line)
       <==> IsListItem(line) && !InCode(before) && before != [] && !IsSeparator(before[|before| - 1])
  {
    if IsListItem(line) { ListItemIsPlain(line); }
    if before != [] {
      if IsFence(before[|before| - 1]) { FenceIsNoSeparator(before[|before| - 1]); }
    }
  }

  lemma FenceIsNoSeparator(line: string)
    requires IsFence(line)
    ensures !IsSeparator(line)
  {
    if IsListItem(line) { ListItemIsPlain(line); }
    TrimKeeps(TrimStart(line));
  }

  lemma SeparatedSnoc(before: seq<string>, line: string)
    ensures Separated(before + [line]) <==> Separated(before) && !NeedsBlank(before, line)
  {
    NeedsBlankIs(before, line);
    var all := before + [line];
    assert all[..|before|] == before;
    assert forall i | 0 <= i < |before| :: all[i] == before[i] && all[..i] == before[..i];
    if Separated(all) {
      forall i, j | 0 <= i < j < |before| && j == i + 1 && IsListItem(before[j]) && !InCode(before[..j])
        ensures IsSeparator(before[i])
      {
        assert IsListItem(all[j]) && !InCode(all[..j]);
        assert IsSeparator(all[i]);
      }
      if before != [] && IsListItem(line) && !InCode(before) {
        assert IsSeparator(all[|before| - 1]);
      }
    }
  }

  lemma {:induction false} SpacedLength(lines: seq<string>)
    ensures |Spaced(lines)| >= |lines|
  {
    if lines != [] { SpacedLength(lines[..|lines| - 1]); }
  }

  /** The pass changes nothing exactly when the lists are already separated. */
  lemma {:induction false} UnchangedIffSeparated(lines: seq<string>)
    ensures Spaced(lines) == lines <==> Separated(lines)
  {
    if lines != [] {
      var front, line := lines[..|lines| - 1], lines[|lines| - 1];
      assert front + [line] == lines;
      UnchangedIffSeparated(front);
      SeparatedSnoc(front, line);
      SpacedLength(front);
      if !NeedsBlank(front, line) && Spaced(lines) == lines {
        assert Spaced(front) == (Spaced(front) + [line])[..|Spaced(front)|];
      }
    }
  }

  // ----- Conservation -----

  function Kept(line: string): seq<string> {
    if IsBlankLine(line) then [] else [line]
  }

  function NonBlank(lines: seq<string>): seq<string> {
    if lines == [] then []
    else
      var front, line := lines[..|lines| - 1], lines[|lines| - 1];
      NonBlank(front) + Kept(line)
  }

  lemma NonBlankSnoc(before: seq<string>, line: string)
    ensures NonBlank(before + [line]) == NonBlank(before) + Kept(line)
  {
    assert (before + [line])[..|before|] == before;
  }

  lemma EmptyLineIsNotKept(lines: seq<string>)
    ensures NonBlank(lines + [""]) == NonBlank(lines)
  {
    NonBlankSnoc(lines, "");
    assert Kept("") == [] && NonBlank(lines) + [] == NonBlank(lines);
  }

  lemma PieceKeepsNonBlank(spaced: seq<string>, piece: seq<string>, line: string)
    requires piece == [line] || piece == ["", line]
    ensures NonBlank(spaced + piece) == NonBlank(spaced) + Kept(line)
  {
    if piece == [line] {
      NonBlankSnoc(spaced, line);
    } else {
      EmptyLineIsNotKept(spaced);
      NonBlankSnoc(spaced + [""], line);
      assert spaced + ["", line] == spaced + [""] + [line];
    }
  }

  lemma {:induction false} SpacedKeepsNonBlank(lines: seq<string>)
    ensures NonBlank(Spaced(lines)) == NonBlank(lines)
  {
    if lines != [] {
      var front, line := lines[..|lines| - 1], lines[|lines| - 1];
      SpacedKeepsNonBlank(front);
      PieceIs(front, line);
      PieceKeepsNonBlank(Spaced(front), Piece(front, line), line);
    }
  }

  /** `spaced` is `lines` with at most one empty line put before each of them. */
  ghost predicate InsertsBlanks(lines: seq<string>, spaced: seq<string>) {
    if lines == [] then spaced == []
    else
      var front, line := lines[..|lines| - 1], lines[|lines| - 1];
      spaced != [] && spaced[|spaced| - 1] == line
      && (InsertsBlanks(front, spaced[..|spaced| - 1])
          || (|spaced| > 1 && spaced[|spaced| - 2] == "" && InsertsBlanks(front, spaced[..|spaced| - 2])))
  }

  lemma {:induction false} SpacedInsertsBlanks(lines: seq<string>)
    ensures InsertsBlanks(lines, Spaced(lines))
  {
    if lines != [] {
      var front, line := lines[..|lines| - 1], lines[|lines| - 1];
      SpacedInsertsBlanks(front);
      var spaced := Spaced(lines);
      if NeedsBlank(front, line) {
        assert spaced[..|spaced| - 2] == Spaced(front);
      } else {
        assert spaced[..|spaced| - 1] == Spaced(front);
      }
    }
  }

  // ----- Carriage returns -----

  lemma {:induction false} SpacesCr(line: string)
    ensures TrimStartChar(line + "\r", ' ') == TrimStartChar(line, ' ') + "\r"
  {
    if line == [] {
      assert line + "\r" == "\r";
    } else {
      assert (line + "\r")[1..] == line[1..] + "\r";
      if line[0] == ' ' { SpacesCr(line[1..]); }
    }
  }

  lemma MarkerCr(t: string)
    ensures IsMarker(t + "\r") == IsMarker(t)
  {
    if t != [] {
      DigitCountIs(t + "\r", DigitCount(t));
    }
  }

  lemma BlankCr(line: string)
    ensures IsBlankLine(line + "\r") == IsBlankLine(line)
  {
    if Blank(line) {
      TrimBlank(line);
      TrimBlank(line + "\r");
    } else {
      var i :| 0 <= i < |line| && !IsWhitespace(line[i]);
      NonBlankTrims(line, i);
      assert (line + "\r")[i] == line[i];
      NonBlankTrims(line + "\r", i);
    }
  }

  lemma {:induction false} NonBlankTrims(line: string, i: nat)
    requires i < |line| && !IsWhitespace(line[i])
    ensures !IsBlankLine(line)
  {
    if IsWhitespace(line[0]) {
      NonBlankTrims(line[1..], i - 1);
    } else {
      TrimKeeps(line);
    }
  }

  lemma BlankOfDropCr(line: string)
    ensures IsBlankLine(DropCr(line)) == IsBlankLine(line)
  {
    var w := SplitCr(line);
    if w != [] {
      assert w == "\r";
      BlankCr(DropCr(line));
    }
  }

  lemma KindOfDropCr(line: string)
    ensures IsFence(DropCr(line)) == IsFence(line)
    ensures IsListItem(DropCr(line)) == IsListItem(line)
    ensures IsBlankLine(DropCr(line)) == IsBlankLine(line)
  {
    var w := SplitCr(line);
    if w != [] {
      assert w == "\r";
      FenceBlank(DropCr(line), w);
      SpacesCr(DropCr(line));
      MarkerCr(TrimStartChar(DropCr(line), ' '));
      BlankCr(DropCr(line));
    }
  }

  lemma {:induction false} InCodeDropCrs(lines: seq<string>)
    ensures InCode(DropCrs(lines)) == InCode(lines)
  {
    if lines != [] {
      var front, line := lines[..|lines| - 1], lines[|lines| - 1];
      assert front + [line] == lines;
      InCodeDropCrs(front);
      DropCrsSnoc(front, line);
      KindOfDropCr(line);
      InCodeSnoc(DropCrs(front), DropCr(line));
    }
  }

  lemma {:induction false} SeparatedDropCrs(lines: seq<string>)
    ensures Separated(DropCrs(lines)) <==> Separated(lines)
  {
    if lines != [] {
      var front, line := lines[..|lines| - 1], lines[|lines| - 1];
      assert front + [line] == lines;
      SeparatedDropCrs(front);
      DropCrsSnoc(front, line);
      SeparatedSnoc(front, line);
      SeparatedSnoc(DropCrs(front), DropCr(line));
      NeedsBlankDropCrs(front, line);
    }
  }

  lemma NeedsBlankDropCrs(before: seq<string>, line: string)
    ensures NeedsBlank(DropCrs(before), DropCr(line)) <==> NeedsBlank(before, line)
  {
    NeedsBlankIs(before, line);
    NeedsBlankIs(DropCrs(before), DropCr(line));
    InCodeDropCrs(before);
    KindOfDropCr(line);
    if before != [] {
      var front, last := before[..|before| - 1], before[|before| - 1];
      assert before == front + [last];
      DropCrsSnoc(front, last);
      KindOfDropCr(last);
    }
  }

  lemma NonBlankSnocDropCrs(before: seq<string>, line: string)
    requires NonBlank(DropCrs(before)) == DropCrs(NonBlank(before))
    ensures NonBlank(DropCrs(before) + [DropCr(line)]) == DropCrs(NonBlank(before + [line]))
  {
    NonBlankSnoc(before, line);
    NonBlankSnoc(DropCrs(before), DropCr(line));
    KeptDropCr(NonBlank(before), line);
  }

  lemma KeptDropCr(kept: seq<string>, line: string)
    ensures DropCrs(kept + Kept(line)) == DropCrs(kept) + Kept(DropCr(line))
  {
    BlankOfDropCr(line);
    if IsBlankLine(line) {
      assert kept + [] == kept && DropCrs(kept) + [] == DropCrs(kept);
    } else {
      assert Kept(line) == [line] && Kept(DropCr(line)) == [DropCr(line)];
      DropCrsSnoc(kept, line);
    }
  }

  lemma {:induction false} NonBlankDropCrs(lines: seq<string>)
    ensures NonBlank(DropCrs(lines)) == DropCrs(NonBlank(lines))
  {
    if lines != [] {
      var front, line := lines[..|lines| - 1], lines[|lines| - 1];
      assert front + [line] == lines;
      NonBlankDropCrs(front);
      DropCrsSnoc(front, line);
      NonBlankSnocDropCrs(front, line);
    }
  }

  // ----- Whole documents -----

  lemma {:induction false} SpacedNewlineFree(lines: seq<string>)
    requires NewlineFree(lines)
    ensures NewlineFree(Spaced(lines))
  {
    if lines != [] { SpacedNewlineFree(lines[..|lines| - 1]); }
  }

  lemma LinesOfSpaced(doc: string)
    ensures Lines(SpaceLists(doc)) == DropCrs(Spaced(Lines(doc)))
  {
    LinesNewlineFree(doc);
    SpacedNewlineFree(Lines(doc));
    LinesOfTerminated(Spaced(Lines(doc)));
  }

  /** After the pass no list item outside a fence directly follows a line of other text. */
  lemma SpaceListsSeparates(doc: string)
    ensures Separated(Lines(SpaceLists(doc)))
  {
    var lines := Lines(doc);
    LinesOfSpaced(doc);
    SpacedAgain(lines);
    UnchangedIffSeparated(Spaced(lines));
    SeparatedDropCrs(Spaced(lines));
  }

  /** The pass keeps the non-blank lines in order; a second reading costs each at most the
      carriage return that `lines()` drops. */
  lemma SpaceListsConserves(doc: string)
    ensures NonBlank(Lines(SpaceLists(doc))) == DropCrs(NonBlank(Lines(doc)))
  {
    LinesOfSpaced(doc);
    SpacedKeepsNonBlank(Lines(doc));
    NonBlankDropCrs(Spaced(Lines(doc)));
  }

  lemma {:induction false} SpacedClean(lines: seq<string>)
    ensures CleanLines(Spaced(lines)) <==> CleanLines(lines)
  {
    if lines != [] {
      var front, line := lines[..|lines| - 1], lines[|lines| - 1];
      assert front + [line] == lines;
      SpacedClean(front);
      CleanSnoc(front, line);
      if NeedsBlank(front, line) {
        CleanSnoc(Spaced(front), "");
        CleanSnoc(Spaced(front) + [""], line);
        assert Spaced(front) + ["", line] == Spaced(front) + [""] + [line];
      } else {
        CleanSnoc(Spaced(front), line);
      }
    }
  }

  lemma SpacedTwice(doc: string)
    ensures SpaceLists(SpaceLists(doc)) == Unlines(DropCrs(Spaced(Lines(doc))))
  {
    LinesOfSpaced(doc);
    SpaceListsSeparates(doc);
    UnchangedIffSeparated(Lines(SpaceLists(doc)));
  }

  /** Repeating the pass changes nothing, exactly when no line of the document still ends in
      a carriage return after `lines()` dropped one. */
  lemma SpaceListsIdempotent(doc: string)
    ensures SpaceLists(SpaceLists(doc)) == SpaceLists(doc) <==> CleanText(doc)
  {
    SpacedTwice(doc);
    DropCrsClean(Spaced(Lines(doc)));
    SpacedClean(Lines(doc));
  }

  // ----- List items, written on their characters -----

  /** A bullet at `n`, or a number from `n` on with its dot or parenthesis at `m - 1`. */
  ghost predicate MarkerAt(line: string, n: nat, m: nat) {
    n < m <= |line| &&
    ((m == n + 1 && line[n] in ['-', '*', '+'])
     || (m > n + 1 && (forall i | n <= i < m - 1 :: '0' <= line[i] <= '9') && line[m - 1] in ['.', ')']))
  }

  /** At most three spaces, a marker, then a space or a tab. */
  ghost predicate ItemAt(line: string, n: nat, m: nat) {
    && n <= 3 && n <= |line| && (forall i | 0 <= i < n :: line[i] == ' ')
    && MarkerAt(line, n, m) && m < |line| && line[m] in [' ', '\t']
  }

  lemma ItemIsAt(line: string, n: nat, m: nat)
    requires ItemAt(line, n, m)
    ensures IsListItem(line)
  {
    var t := TrimStartChar(line, ' ');
    TrimStartCharIs(line, ' ');
    assert line[n] != ' ';
    assert |line| - |t| == n && t == line[n..];
    if m > n + 1 {
      assert forall i | 0 <= i < m - 1 - n :: t[i] == line[n + i];
      DigitCountIs(t, m - 1 - n);
    }
  }

  /** A list item is a line of this shape. */
  lemma ListItemIs(line: string)
    ensures IsListItem(line) <==> exists n: nat, m: nat :: ItemAt(line, n, m)
  {
    if IsListItem(line) {
      var t := TrimStartChar(line, ' ');
      TrimStartCharIs(line, ' ');
      var n: nat := |line| - |t|;
      var k := DigitCount(t);
      var m: nat := if t[0] in ['-', '*', '+'] then n + 1 else n + k + 1;
      assert t == line[n..];
      assert forall i | n <= i < |line| :: line[i] == t[i - n];
      assert ItemAt(line, n, m);
    }
    if n: nat, m: nat :| ItemAt(line, n, m) { ItemIsAt(line, n, m); }
  }

  /** A blank line is one of nothing but whitespace. */
  lemma BlankLineIs(line: string)
    ensures IsBlankLine(line) <==> Blank(line)
  {
    if Blank(line) {
      TrimBlank(line);
    } else {
      InkStays(line);
    }
  }

  lemma {:induction false} InkStays(line: string)
    requires !Blank(line)
    ensures Trim(line) != []
  {
    if IsWhitespace(line[0]) {
      assert forall i | 1 <= i < |line| :: line[i] == line[1..][i - 1];
      InkStays(line[1..]);
    } else {
      TrimKeeps(line);
    }
  }

  /** What the pass writes for one more line: an empty one in front of it exactly when it is a
      list item outside code right behind a line that is neither blank nor an item. */
  lemma SpacedNext(before: seq<string>, line: string)
    ensures var breaks := IsListItem(line) && !InCode(before) && before != []
                          && !Blank(before[|before| - 1]) && !IsListItem(before[|before| - 1]);
            Spaced(before + [line]) == Spaced(before) + if breaks then ["", line] else [line]
  {
    SpacedSnoc(before, line);
    NeedsBlankIs(before, line);
    if before != [] { BlankLineIs(before[|before| - 1]); }
  }
}
