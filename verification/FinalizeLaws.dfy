/** What stamping the written files a second time changes, and what a stamped file shows. */
module FinalizeLaws {
  import opened Text
  import opened Digest
  import Fences
  import opened Stamp
  import opened StampLaws
  import opened Finalize

  // ----- Markers do not depend on a carriage return at the end -----

  lemma TrimOfDropCr(line: string)
    ensures Trim(DropCr(line)) == Trim(line)
  {
    if LastIs(line, '\r') {
      assert line == DropCr(line) + ['\r'];
      TrimSnoc(DropCr(line), '\r');
    }
  }

  lemma HashLineOfDropCr(marker: string, hash: string)
    ensures HashLine(DropCr(marker), hash) == HashLine(marker, hash)
  {
    TrimOfDropCr(marker);
  }

  lemma UnlinesInserted(lines: seq<string>, m: nat, line: string)
    requires m < |lines|
    ensures |Unlines(InsertAfter(lines, m, line))| == |Unlines(lines)| + |line| + 1
  {
    var front, rest := lines[..m + 1], lines[m + 1..];
    UnlinesSnoc(front, line);
    UnlinesAppend(front + [line], rest);
    UnlinesAppend(front, rest);
    assert lines == front + rest;
  }

  /** Stamping adds as much to the same lines with carriage returns dropped. */
  lemma InjectedNear(a: seq<string>, b: seq<string>, hash: string)
    requires Near(a, b)
    ensures |Unlines(Injected(a, hash))| - |Unlines(a)| == |Unlines(Injected(b, hash))| - |Unlines(b)|
  {
    MarkerNear(a, b, 10);
    var marker := MarkerWithin(a, 10);
    if marker.Some? {
      var m := marker.value;
      HashLineOfDropCr(a[m], hash);
      UnlinesInserted(a, m, HashLine(a[m], hash));
      UnlinesInserted(b, m, HashLine(b[m], hash));
    }
  }

  lemma StillMarked(lines: seq<string>, hash: string)
    requires MarkerWithin(lines, 10).Some?
    ensures MarkerWithin(Injected(lines, hash), 10).Some?
  {
    var m := MarkerWithin(lines, 10).value;
    MarkerWithinIs(lines, 10);
    MarkerWithinIs(Injected(lines, hash), 10);
    assert Injected(lines, hash)[m] == lines[m];
  }

  // ----- The lines of a text that was put together again -----

  lemma LinesAgain(content: string, lines: seq<string>)
    requires Rebuildable(content, lines)
    ensures var text := MatchEnding(content, Unlines(lines));
            Lines(text) == ReadBack(content, lines) && LastIs(text, '\n') == LastIs(content, '\n')
  {
    if Ended(content) {
      LinesOfTerminated(lines);
      UnlinesEndsWithNewline(lines);
    } else {
      var front, last := lines[..|lines| - 1], lines[|lines| - 1];
      assert lines == front + [last];
      LinesOfOpen(content, front, last);
    }
  }

  lemma ReadBackNear(content: string, lines: seq<string>)
    ensures Near(lines, ReadBack(content, lines))
    ensures |Unlines(ReadBack(content, lines))| <= |Unlines(lines)|
  {
    if Ended(content) || lines == [] {
      DropCrsNear(lines);
      Fences.DropCrsClean(lines);
    } else {
      var front, last := lines[..|lines| - 1], lines[|lines| - 1];
      assert lines == front + [last];
      DropCrsNear(front);
      Fences.DropCrsClean(front);
      UnlinesSnoc(front, last);
      UnlinesSnoc(DropCrs(front), last);
    }
  }

  // ----- A stripped text, stamped and stripped again -----

  ghost predicate Unmarkable(lines: seq<string>) {
    forall i | 0 <= i < |lines| :: !IsStamp(lines[i])
  }

  lemma StrippedLeftOver(s: string)
    requires Unmarkable(Lines(s))
    ensures LeftOver(s) == DropCrs(EndedLines(s)) + OpenLines(s) && Lines(s) == EndedLines(s) + OpenLines(s)
  {
    NothingStamped(EndedLines(s));
    NothingStamped(OpenLines(s));
  }

  lemma LeftOverNear(s: string)
    requires Unmarkable(Lines(s))
    ensures Near(Lines(s), LeftOver(s))
    ensures CleanLines(EndedLines(s)) ==> LeftOver(s) == Lines(s)
    ensures !CleanLines(EndedLines(s)) ==> |Unlines(LeftOver(s))| < |Unlines(Lines(s))|
  {
    var ended, open := EndedLines(s), OpenLines(s);
    StrippedLeftOver(s);
    DropCrsNear(ended);
    Fences.DropCrsClean(ended);
    UnlinesAppend(ended, open);
    UnlinesAppend(DropCrs(ended), open);
  }

  lemma MarkerLineStays(line: string)
    requires IsMarker(line)
    ensures DropCr(line) != []
  {
    MarkerOfDropCr(line);
    assert !IsMarker([]);
  }

  /** The last line left when the stamp comes after an unended last line. */
  lemma MarkerLeftLast(s: string)
    requires Unmarkable(Lines(s)) && StampedAtEnd(Lines(s))
    ensures LeftOver(s) != [] && LeftOver(s)[|LeftOver(s)| - 1] != []
  {
    var lines := Lines(s);
    AllEnded(s);
    NothingStamped(lines);
    DropCrsAt(lines);
    MarkerWithinIs(lines, 10);
    MarkerLineStays(lines[|lines| - 1]);
  }

  lemma LeftOverLast(s: string)
    requires Unmarkable(Lines(s)) && !Ended(s)
    ensures LeftOver(s) != [] && LeftOver(s)[|LeftOver(s)| - 1] != []
  {
    LinesLast(s);
    var lines := Lines(s);
    if StampedAtEnd(lines) {
      MarkerLeftLast(s);
    } else {
      var n := |lines| - 1;
      assert lines == lines[..n] + [lines[n]];
      LastIsOpen(s, lines[..n], lines[n]);
      NothingStamped([lines[n]]);
    }
  }

  lemma LeftOverRebuildable(s: string)
    requires Unmarkable(Lines(s))
    ensures Rebuildable(s, LeftOver(s))
  {
    LinesNewlineFree(s);
    LinesLast(s);
    LeftOverNear(s);
    NearNewlineFree(Lines(s), LeftOver(s));
    if !Ended(s) { LeftOverLast(s); }
  }

  lemma NearNewlineFree(a: seq<string>, b: seq<string>)
    requires Near(a, b) && NewlineFree(a)
    ensures NewlineFree(b)
  {
  }

  /** Stripping a stamped text, for a text that carries no stamp. */
  lemma Restripped(s: string, hash: string)
    requires IsHex(hash) && Unmarkable(Lines(s))
    ensures var x := Strip(Inject(s, hash));
            Lines(x) == ReadBack(s, LeftOver(s)) && LastIs(x, '\n') == LastIs(s, '\n')
  {
    InjectedShape(s, hash);
    StripOfRebuilt(s, Injected(Lines(s), hash));
    UnstampedReadBack(s, hash);
    LeftOverRebuildable(s);
    LinesAgain(s, LeftOver(s));
  }

  lemma InjectByLines(x: string, y: string, hash: string)
    requires Lines(x) == Lines(y) && LastIs(x, '\n') == LastIs(y, '\n')
    ensures Inject(x, hash) == Inject(y, hash)
  {
  }

  lemma RereadClean(front: seq<string>, last: string)
    requires CleanLines(front)
    ensures Fences.Reread(front + [last]) == front + [last]
  {
    assert (front + [last])[..|front|] == front;
    Fences.DropCrsClean(front);
  }

  lemma ReadBackClean(s: string)
    requires CleanLines(EndedLines(s))
    ensures ReadBack(s, Lines(s)) == Lines(s)
  {
    LinesLast(s);
    var lines := Lines(s);
    if Ended(s) || lines == [] {
      Fences.DropCrsClean(lines);
    } else {
      var n := |lines| - 1;
      FrontIsEnded(s, n);
      RereadClean(lines[..n], lines[n]);
      assert lines == lines[..n] + [lines[n]];
    }
  }

  lemma FrontIsEnded(s: string, n: nat)
    requires n == |Lines(s)| - 1 && CleanLines(EndedLines(s))
    ensures CleanLines(Lines(s)[..n])
  {
    forall i | 0 <= i < n ensures !LastIs(Lines(s)[..n][i], '\r') {
      assert Lines(s)[..n][i] == EndedLines(s)[i];
    }
  }

  lemma InjectLength(x: string, hash: string)
    requires IsHex(hash)
    ensures |Inject(x, hash)| == |Unlines(Injected(Lines(x), hash))| - (if Ended(x) then 0 else 1)
  {
    InjectedShape(x, hash);
    UnlinesEndsWithNewline(Injected(Lines(x), hash));
  }

  lemma ShorterTwice(s: string, first: string, second: string)
    requires IsHex(first) && IsHex(second) && Unmarkable(Lines(s)) && !CleanLines(EndedLines(s))
    ensures |Inject(Strip(Inject(s, first)), second)| < |Inject(s, second)|
  {
    var x := Strip(Inject(s, first));
    Restripped(s, first);
    LeftOverNear(s);
    ReadBackNear(s, LeftOver(s));
    InjectedNear(Lines(s), LeftOver(s), second);
    InjectedNear(LeftOver(s), Lines(x), second);
    LinesLast(x);
    LinesLast(s);
    InjectLength(x, second);
    InjectLength(s, second);
  }

  lemma StampedAnew(s: string, first: string, second: string)
    requires IsHex(first) && IsHex(second) && Unmarkable(Lines(s))
    ensures Inject(Strip(Inject(s, first)), second) == Inject(s, second) <==> CleanLines(EndedLines(s))
  {
    if CleanLines(EndedLines(s)) {
      Restripped(s, first);
      LeftOverNear(s);
      ReadBackClean(s);
      InjectByLines(Strip(Inject(s, first)), s, second);
    } else {
      ShorterTwice(s, first, second);
    }
  }

  lemma MarkedOfInject(s: string, hash: string)
    requires IsHex(hash)
    ensures Marked(Inject(s, hash)) <==> Marked(s)
  {
    var lines := Lines(s);
    InjectedShape(s, hash);
    LinesAgain(s, Injected(lines, hash));
    ReadBackNear(s, Injected(lines, hash));
    MarkerNear(Injected(lines, hash), Lines(Inject(s, hash)), 10);
    if Marked(s) { StillMarked(lines, hash); }
  }

  // ----- Finalising twice -----

  /** No kept line of a text that is stamped still ends in a carriage return, unless it is the
      last one and stays unended. */
  ghost predicate Settles(content: string) {
    Marked(content) && Marked(Strip(content)) ==> CleanLines(EndedLines(Strip(content)))
  }

  /** Finalising again with another hash gives what finalising with that hash alone gives,
      exactly for these texts. In particular a second run with one hash rewrites nothing. */
  lemma FinalizeTwice(content: string, first: string, second: string)
    requires IsHex(first) && IsHex(second)
    ensures Finalized(Finalized(content, first), second) == Finalized(content, second) <==> Settles(content)
  {
    if Marked(content) {
      var s := Strip(content);
      StripLeavesNoStamp(content);
      MarkedOfInject(s, first);
      if Marked(s) { StampedAnew(s, first, second); }
    }
  }

  // ----- Finalising and the body -----

  /** Neither a line ending of a text that is stamped nor its last line before the stamp holds
      a carriage return, once the stamps are gone. */
  ghost predicate BodyStays(content: string) {
    Marked(content) ==> !HasCrLf(Strip(content)) && CleanLines(EndedLines(Strip(content)))
  }

  lemma StripStays(s: string, hash: string)
    requires IsHex(hash) && Unmarkable(Lines(s))
    ensures Strip(Inject(s, hash)) == s <==> !HasCrLf(s) && CleanLines(EndedLines(s))
  {
    NothingStamped(Lines(s));
    NothingStamped(EndedLines(s));
    StripOfInject(s, hash);
    RebuiltUnchanged(s);
    Restripped(s, hash);
    LeftOverNear(s);
    ReadBackNear(s, LeftOver(s));
  }

  /** The file that was stamped counts as unchanged when the same content is generated again,
      exactly for these texts. */
  lemma FinalizedBodyStays(content: string, hash: string)
    requires IsHex(hash)
    ensures Strip(Finalized(content, hash)) == Strip(content) <==> BodyStays(content)
  {
    if Marked(content) {
      StripLeavesNoStamp(content);
      StripStays(Strip(content), hash);
    }
  }

  // ----- What a finalised file shows -----

  lemma StampableStripped(content: string)
    ensures Stampable(Strip(content)) <==> MarkerWithin(Lines(Strip(content)), 9).Some?
  {
    var lines := Lines(Strip(content));
    StripLeavesNoStamp(content);
    var marker := MarkerWithin(lines, 9);
    if marker.Some? { NoStampNoHash(lines[..marker.value + 1]); }
  }

  /** Every file with a marker ends up showing the hash of the run exactly when a marker is on
      one of its first nine lines without stamps. */
  lemma FinalizedShows(content: string)
    requires Marked(content)
    ensures (forall hash | IsHex(hash) :: Extract(Finalized(content, hash)) == Some(hash))
       <==> MarkerWithin(Lines(Strip(content)), 9).Some?
  {
    StampReadsBack(Strip(content));
    StampableStripped(content);
    assert forall hash :: Finalized(content, hash) == Inject(Strip(content), hash);
  }

  lemma StripKeepsLines(content: string)
    requires Unmarkable(Lines(content)) && CleanText(content) && LastIs(content, '\n')
    ensures Lines(Strip(content)) == Lines(content)
  {
    LinesNewlineFree(content);
    NothingStamped(Lines(content));
    LinesOfTerminated(Lines(content));
  }

  lemma LateLines(lines: seq<string>, marker: string)
    requires Late(lines, marker) && !IsStamp(marker) && !LastIs(marker, '\r')
    ensures Unmarkable(lines) && CleanLines(lines)
  {
    assert !IsStamp("");
  }

  /** The text whose stamp is read by nobody is finalised all the same. */
  lemma LateMarkerFinalized(hash: string)
    requires IsHex(hash)
    ensures Marked(LATE_TEXT) && Extract(Finalized(LATE_TEXT, hash)).None?
  {
    LateText();
    MarkerIsNoStamp();
    LateLines(Lines(LATE_TEXT), HEADER_MARKER);
    StripKeepsLines(LATE_TEXT);
    LateMarker(Lines(LATE_TEXT), HEADER_MARKER);
    ExtractOfInject(Strip(LATE_TEXT), hash);
  }
}
