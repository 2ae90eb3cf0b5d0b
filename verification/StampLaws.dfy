/** What stamping, reading a stamp and stripping it mean for each other. */
module StampLaws {
  import opened Text
  import opened Digest
  import opened Stamp
  import Fences

  // ----- Reading a stamp line -----

  lemma {:induction false} IndexOfAfter(lead: string, pattern: string, rest: string)
    requires pattern != [] && Lacks(lead, pattern[0])
    ensures IndexOf(lead + pattern + rest, pattern) == Some(|lead|)
  {
    var s := lead + pattern + rest;
    if lead == [] {
      assert s[..|pattern|] == pattern;
    } else {
      assert s[0] == lead[0] != pattern[0];
      assert s[1..] == lead[1..] + pattern + rest;
      IndexOfAfter(lead[1..], pattern, rest);
    }
  }

  lemma HexEnds(hash: string)
    requires IsHex(hash)
    ensures !IsWhitespace(hash[0]) && !IsWhitespace(hash[|hash| - 1])
    ensures hash[|hash| - 1] != '/' && hash[|hash| - 1] != '>'
    ensures Lacks(hash, '\n') && Lacks(hash, '\r')
  {
    assert IsHexDigit(hash[0]) && IsHexDigit(hash[|hash| - 1]);
  }

  lemma CleanHexPlain(hash: string)
    requires IsHex(hash)
    ensures CleanHex(hash) == hash
  {
    HexEnds(hash);
    TrimFixed(hash);
    assert !EndsWith(hash, "*/") by { assert "*/"[1] == '/'; }
    assert !EndsWith(hash, "-->") by { assert "-->"[2] == '>'; }
  }

  lemma LastOfSuffix(s: string, pattern: string)
    requires s != [] && pattern != []
    ensures EndsWith(s, pattern) ==> s[|s| - 1] == pattern[|pattern| - 1]
  {
    if |pattern| <= |s| {
      assert s[|s| - |pattern|..][|pattern| - 1] == s[|s| - 1];
    }
  }

  lemma CleanHexHtml(hash: string)
    requires IsHex(hash)
    ensures CleanHex(hash + " -->") == hash
  {
    HexEnds(hash);
    var spaced := hash + " ";
    var rest := spaced + "-->";
    assert hash + " -->" == rest;
    assert rest[|rest| - 1] == '>' && rest[0] == hash[0];
    TrimFixed(rest);
    LastOfSuffix(rest, "*/");
    assert TrimEndMatches(rest, "*/") == rest;
    LastOfSuffix(spaced, "-->");
    TrimEndMatchesOnce(spaced, "-->");
    TrimAround([], hash, " ");
    assert [] + hash + " " == spaced;
  }

  /** The stamp line reads back as the stamped hash, in every comment style. */
  lemma HashLineReadsBack(marker: string, hash: string)
    requires IsHex(hash)
    ensures ExtractFromLine(HashLine(marker, hash)) == Some(hash)
  {
    var style := StyleOf(marker);
    var rest := hash + Tail(style);
    assert CleanHex(rest) == hash by {
      CleanHexPlain(hash);
      CleanHexHtml(hash);
      assert hash + "" == hash;
    }
    LeadLacks(style);
    IndexOfAfter(Lead(style), HASH_PREFIX, rest);
    assert HashLine(marker, hash)[|Lead(style)| + |HASH_PREFIX|..] == rest;
  }

  lemma LeadLacks(style: LineStyle)
    ensures Lacks(Lead(style), 'a')
  {
  }

  lemma HashLineShape(marker: string, hash: string)
    requires IsHex(hash)
    ensures Lacks(HashLine(marker, hash), '\n') && !LastIs(HashLine(marker, hash), '\r')
    ensures HashLine(marker, hash) != [] && IsStamp(HashLine(marker, hash))
  {
    HexEnds(hash);
    var style := StyleOf(marker);
    var line := HashLine(marker, hash);
    var rest := hash + Tail(style);
    assert line == Lead(style) + HASH_PREFIX + rest;
    assert Lacks(Lead(style), '\n') && Lacks(HASH_PREFIX, '\n') && Lacks(rest, '\n') && !LastIs(rest, '\r');
    assert line[|line| - 1] == rest[|rest| - 1];
    assert line[|Lead(style)|..|Lead(style)| + |HASH_PREFIX|] == HASH_PREFIX;
    ContainsAt(line, HASH_PREFIX, |Lead(style)|);
  }

  // ----- A carriage return at the end of a line is never part of a hash -----

  lemma {:induction false} IndexOfSnoc(s: string, c: char, pattern: string)
    requires pattern != [] && pattern[|pattern| - 1] != c
    ensures IndexOf(s + [c], pattern) == IndexOf(s, pattern)
  {
    var t := s + [c];
    if pattern <= t {
      assert pattern[|pattern| - 1] == t[|pattern| - 1];
      assert |pattern| <= |s|;
    }
    if s != [] {
      assert t[1..] == s[1..] + [c];
      IndexOfSnoc(s[1..], c, pattern);
    } else {
      assert t[1..] == [];
    }
  }

  lemma {:induction false} TrimStartSnoc(s: string, c: char)
    requires IsWhitespace(c)
    ensures TrimStart(s + [c]) == if TrimStart(s) == [] then [] else TrimStart(s) + [c]
  {
    if s == [] {
      assert (s + [c])[1..] == [];
    } else if IsWhitespace(s[0]) {
      assert (s + [c])[1..] == s[1..] + [c];
      TrimStartSnoc(s[1..], c);
    }
  }

  lemma TrimSnoc(s: string, c: char)
    requires IsWhitespace(c)
    ensures Trim(s + [c]) == Trim(s)
  {
    TrimStartSnoc(s, c);
    assert (TrimStart(s) + [c])[..|TrimStart(s)|] == TrimStart(s);
  }

  lemma HashInSnoc(rest: string)
    ensures HashIn(rest + ['\r']) == HashIn(rest)
  {
    TrimSnoc(rest, '\r');
  }

  lemma ExtractSnoc(line: string, prefix: string)
    requires IndexOf(line + ['\r'], prefix) == IndexOf(line, prefix)
    ensures ExtractAfter(line + ['\r'], prefix) == ExtractAfter(line, prefix)
  {
    if IndexOf(line, prefix).Some? {
      var n := IndexOf(line, prefix).value + |prefix|;
      assert (line + ['\r'])[n..] == line[n..] + ['\r'];
      HashInSnoc(line[n..]);
    }
  }

  lemma ExtractDropCr(line: string)
    ensures ExtractFromLine(DropCr(line)) == ExtractFromLine(line)
  {
    if LastIs(line, '\r') {
      var l := DropCr(line);
      assert line == l + ['\r'];
      IndexOfSnoc(l, '\r', HASH_PREFIX);
      ExtractSnoc(l, HASH_PREFIX);
    }
  }

  /** The same lines, up to a dropped carriage return at the end of some. */
  ghost predicate Near(a: seq<string>, b: seq<string>) {
    |a| == |b| && forall i | 0 <= i < |a| :: b[i] == a[i] || b[i] == DropCr(a[i])
  }

  lemma {:induction false} FirstHashNear(a: seq<string>, b: seq<string>)
    requires Near(a, b)
    ensures FirstHash(a) == FirstHash(b)
  {
    if a != [] {
      ExtractDropCr(a[0]);
      FirstHashNear(a[1..], b[1..]);
    }
  }

  lemma MarkerOfDropCr(line: string)
    ensures IsMarker(DropCr(line)) == IsMarker(line)
  {
    if LastIs(line, '\r') {
      assert line == DropCr(line) + ['\r'];
      IndexOfSnoc(DropCr(line), '\r', HEADER_MARKER);
      IndexOfSnoc(DropCr(line), '\r', ALT_HEADER_MARKER);
    }
  }

  lemma {:induction false} MarkerNear(a: seq<string>, b: seq<string>, limit: nat)
    requires Near(a, b)
    ensures MarkerWithin(a, limit) == MarkerWithin(b, limit)
  {
    if limit > 0 && a != [] {
      MarkerOfDropCr(a[0]);
      MarkerNear(a[1..], b[1..], limit - 1);
    }
  }

  lemma {:induction false} NoStampNoHash(lines: seq<string>)
    requires forall i | 0 <= i < |lines| :: !IsStamp(lines[i])
    ensures FirstHash(lines).None?
  {
    if lines != [] { NoStampNoHash(lines[1..]); }
  }

  // ----- The lines of a rebuilt text -----

  lemma DropCrsNear(lines: seq<string>)
    ensures Near(lines, DropCrs(lines))
    ensures CleanLines(lines) ==> DropCrs(lines) == lines
  {
    DropCrsAt(lines);
  }

  ghost predicate Rebuilds(original: string, lines: seq<string>, rebuilt: string) {
    && Near(lines, Lines(rebuilt))
    && (CleanLines(lines) ==> Lines(rebuilt) == lines)
    && (rebuilt == [] <==> original == [])
    && (LastIs(rebuilt, '\n') <==> LastIs(original, '\n'))
  }

  lemma RebuiltOpen(original: string, lines: seq<string>, last: string)
    requires NewlineFree(lines) && Lacks(last, '\n') && last != []
    requires original != [] && !LastIs(original, '\n')
    ensures Rebuilds(original, lines + [last], MatchEnding(original, Unlines(lines + [last])))
  {
    LinesOfOpen(original, lines, last);
    DropCrsNear(lines);
    assert Near(lines + [last], DropCrs(lines) + [last]);
    if CleanLines(lines + [last]) {
      assert forall i | 0 <= i < |lines| :: (lines + [last])[i] == lines[i];
      assert CleanLines(lines);
    }
  }

  /** A text rebuilt from lines with the ending of `original`. */
  lemma LinesOfRebuilt(original: string, lines: seq<string>)
    requires NewlineFree(lines) && (lines == [] <==> original == [])
    requires original != [] && !LastIs(original, '\n') ==> lines[|lines| - 1] != []
    ensures Rebuilds(original, lines, MatchEnding(original, Unlines(lines)))
  {
    if original == [] {
    } else if LastIs(original, '\n') {
      LinesOfTerminated(lines);
      DropCrsNear(lines);
      UnlinesEndsWithNewline(lines);
    } else {
      var n := |lines| - 1;
      assert lines == lines[..n] + [lines[n]];
      RebuiltOpen(original, lines[..n], lines[n]);
    }
  }

  ghost predicate Rebuildable(content: string, lines: seq<string>) {
    && NewlineFree(lines) && (lines == [] <==> content == [])
    && (content != [] && !LastIs(content, '\n') ==> lines[|lines| - 1] != [])
  }

  lemma InsertAfterShape(content: string, lines: seq<string>, m: nat, line: string)
    requires m < |lines| && Rebuildable(content, lines)
    requires Lacks(line, '\n') && !LastIs(line, '\r') && line != []
    ensures Rebuildable(content, InsertAfter(lines, m, line))
    ensures CleanLines(lines) ==> CleanLines(InsertAfter(lines, m, line))
  {
  }

  lemma InjectedShape(content: string, hash: string)
    requires IsHex(hash)
    ensures Rebuildable(content, Injected(Lines(content), hash))
    ensures CleanText(content) ==> CleanLines(Injected(Lines(content), hash))
  {
    var lines := Lines(content);
    LinesNewlineFree(content);
    LinesLast(content);
    var marker := MarkerWithin(lines, 10);
    if marker.Some? {
      HashLineShape(lines[marker.value], hash);
      InsertAfterShape(content, lines, marker.value, HashLine(lines[marker.value], hash));
    }
  }

  lemma {:induction false} FirstHashAppend(a: seq<string>, b: seq<string>)
    ensures FirstHash(a + b) == if FirstHash(a).Some? then FirstHash(a) else FirstHash(b)
  {
    if a == [] {
      assert a + b == b;
    } else {
      assert (a + b)[1..] == a[1..] + b;
      FirstHashAppend(a[1..], b);
    }
  }

  // ----- Stamp, then read -----

  lemma FirstHashInserted(lines: seq<string>, m: nat, line: string, hash: string)
    requires m < |lines| && m <= 8 && ExtractFromLine(line) == Some(hash)
    ensures FirstHash(FirstTen(InsertAfter(lines, m, line)))
         == if FirstHash(lines[..m + 1]).Some? then FirstHash(lines[..m + 1]) else Some(hash)
  {
    var ten := FirstTen(InsertAfter(lines, m, line));
    assert ten == lines[..m + 1] + ([line] + ten[m + 2..]);
    FirstHashAppend(lines[..m + 1], [line] + ten[m + 2..]);
  }

  /** The hash that a stamped text shows. A marker on one of the first nine lines makes it the
      new one unless a stamp up to the marker comes first; otherwise the new stamp went nowhere
      or past the ten lines that are searched. */
  function ShownHash(content: string, hash: string): Option<string> {
    var lines := Lines(content);
    var marker := MarkerWithin(lines, 10);
    if marker.Some? && marker.value <= 8 then
      var earlier := FirstHash(lines[..marker.value + 1]);
      if earlier.Some? then earlier else Some(hash)
    else Extract(content)
  }

  lemma ShownAfterMarker(lines: seq<string>, m: nat, hash: string)
    requires IsHex(hash) && m < |lines| && m < 10
    ensures FirstHash(FirstTen(InsertAfter(lines, m, HashLine(lines[m], hash))))
         == if m > 8 then FirstHash(FirstTen(lines))
            else if FirstHash(lines[..m + 1]).Some? then FirstHash(lines[..m + 1])
            else Some(hash)
  {
    var line := HashLine(lines[m], hash);
    if m <= 8 {
      HashLineReadsBack(lines[m], hash);
      FirstHashInserted(lines, m, line, hash);
    } else {
      assert FirstTen(InsertAfter(lines, m, line)) == FirstTen(lines);
    }
  }

  lemma ExtractOfInject(content: string, hash: string)
    requires IsHex(hash)
    ensures Extract(Inject(content, hash)) == ShownHash(content, hash)
  {
    var lines := Lines(content);
    InjectedShape(content, hash);
    LinesOfRebuilt(content, Injected(lines, hash));
    NearFirstTen(Injected(lines, hash), Lines(Inject(content, hash)));
    var marker := MarkerWithin(lines, 10);
    if marker.Some? {
      ShownAfterMarker(lines, marker.value, hash);
    }
  }

  lemma NearFirstTen(a: seq<string>, b: seq<string>)
    requires Near(a, b)
    ensures FirstHash(FirstTen(a)) == FirstHash(FirstTen(b))
  {
    FirstHashNear(FirstTen(a), FirstTen(b));
  }

  /** A marker is on one of the first nine lines and no stamp is read up to it. */
  predicate StampShows(lines: seq<string>) {
    var marker := MarkerWithin(lines, 9);
    marker.Some? && FirstHash(lines[..marker.value + 1]).None?
  }

  predicate Stampable(content: string) { StampShows(Lines(content)) }

  lemma {:induction false} MarkerSooner(lines: seq<string>, limit: nat)
    ensures var marker := MarkerWithin(lines, limit + 1);
            MarkerWithin(lines, limit) == if marker.Some? && marker.value < limit then marker else None
  {
    if limit > 0 && lines != [] { MarkerSooner(lines[1..], limit - 1); }
  }

  lemma ShownOnlyIfStampable(content: string, a: string, b: string)
    ensures Stampable(content) ==> ShownHash(content, a) == Some(a)
    ensures !Stampable(content) ==> ShownHash(content, a) == ShownHash(content, b)
  {
    MarkerSooner(Lines(content), 9);
  }

  lemma StampableReadsBack(content: string, hash: string)
    requires IsHex(hash) && Stampable(content)
    ensures Extract(Inject(content, hash)) == Some(hash)
  {
    ExtractOfInject(content, hash);
    ShownOnlyIfStampable(content, hash, hash);
  }

  lemma OthersReadAlike(content: string, a: string, b: string)
    requires IsHex(a) && IsHex(b) && !Stampable(content)
    ensures Extract(Inject(content, a)) == Extract(Inject(content, b))
  {
    ExtractOfInject(content, a);
    ExtractOfInject(content, b);
    ShownOnlyIfStampable(content, a, b);
  }

  /** Every stamp reads back exactly for these texts. */
  lemma StampReadsBack(content: string)
    ensures (forall hash | IsHex(hash) :: Extract(Inject(content, hash)) == Some(hash)) <==> Stampable(content)
  {
    if Stampable(content) {
      forall hash | IsHex(hash) ensures Extract(Inject(content, hash)) == Some(hash) {
        StampableReadsBack(content, hash);
      }
    } else {
      var a, b := "0", "1";
      assert a[0] != b[0];
      OthersReadAlike(content, a, b);
      assert !(Extract(Inject(content, a)) == Some(a) && Extract(Inject(content, b)) == Some(b));
    }
  }

  lemma {:induction false} IndexOfLacking(s: string, pattern: string, j: nat)
    requires j < |pattern| && Lacks(s, pattern[j])
    ensures IndexOf(s, pattern).None?
  {
    assert |pattern| <= |s| ==> s[j] != pattern[j];
    if s != [] { IndexOfLacking(s[1..], pattern, j); }
  }

  lemma NoColonNoStamp(line: string)
    requires Lacks(line, ':')
    ensures !IsStamp(line)
  {
    assert HASH_PREFIX[4] == ':';
    IndexOfLacking(line, HASH_PREFIX, 4);
  }

  lemma ContainsItself(s: string)
    ensures Contains(s, s)
  {
    assert s <= s;
  }

  lemma NoColonInMarker()
    ensures Lacks(HEADER_MARKER, ':')
  {
  }

  lemma MarkerIsNoStamp()
    ensures IsMarker(HEADER_MARKER) && !IsStamp(HEADER_MARKER)
  {
    ContainsItself(HEADER_MARKER);
    NoColonInMarker();
    NoColonNoStamp(HEADER_MARKER);
  }

  /** Nine empty lines and another one. */
  ghost predicate Late(lines: seq<string>, last: string) {
    |lines| == 10 && lines[9] == last && forall i | 0 <= i < 9 :: lines[i] == ""
  }

  lemma LateMarker(lines: seq<string>, marker: string)
    requires Late(lines, marker) && IsMarker(marker) && !IsStamp(marker)
    ensures MarkerWithin(lines, 10) == Some(9) && MarkerWithin(lines, 9).None?
    ensures FirstHash(FirstTen(lines)).None?
  {
    assert !IsMarker("") && !IsStamp("");
    MarkerWithinIs(lines, 10);
    MarkerSooner(lines, 9);
    NoStampNoHash(lines);
  }

  lemma {:induction false} LinesOfBlank(n: nat, last: string)
    requires Lacks(last, '\n') && !LastIs(last, '\r')
    ensures var lines := Lines(seq(n, i => '\n') + (last + "\n"));
      |lines| == n + 1 && lines[n] == last && forall i | 0 <= i < n :: lines[i] == ""
  {
    var rest := last + "\n";
    if n == 0 {
      LinesCons(last, []);
      assert last + "\n" + [] == rest && seq(n, i => '\n') + rest == rest;
    } else {
      var tail := seq(n - 1, i => '\n') + rest;
      LinesOfBlank(n - 1, last);
      LinesCons("", tail);
      assert seq(n, i => '\n') + rest == "" + "\n" + tail;
    }
  }

  const LATE_TEXT := "\n\n\n\n\n\n\n\n\n" + HEADER_MARKER + "\n"

  lemma LateText()
    ensures Late(Lines(LATE_TEXT), HEADER_MARKER)
  {
    LinesOfBlank(9, HEADER_MARKER);
    assert LATE_TEXT == "\n\n\n\n\n\n\n\n\n" + (HEADER_MARKER + "\n");
    assert seq(9, i => '\n') == "\n\n\n\n\n\n\n\n\n";
  }

  /** A text with a marker, on its tenth line, whose stamp is read by nobody. */
  lemma LateMarkerUnread(hash: string)
    requires IsHex(hash)
    ensures MarkerWithin(Lines(LATE_TEXT), 10).Some? && Extract(Inject(LATE_TEXT, hash)).None?
  {
    LateText();
    MarkerIsNoStamp();
    LateMarker(Lines(LATE_TEXT), HEADER_MARKER);
    ExtractOfInject(LATE_TEXT, hash);
  }

  // ----- Stamp, then strip -----

  lemma {:induction false} UnstampedAppend(a: seq<string>, b: seq<string>)
    ensures Unstamped(a + b) == Unstamped(a) + Unstamped(b)
  {
    if a == [] {
      assert a + b == b;
    } else {
      assert (a + b)[1..] == a[1..] + b;
      UnstampedAppend(a[1..], b);
    }
  }

  lemma UnstampedInserted(lines: seq<string>, m: nat, line: string)
    requires m < |lines| && IsStamp(line)
    ensures Unstamped(InsertAfter(lines, m, line)) == Unstamped(lines)
  {
    UnstampedAround(lines[..m + 1], line, lines[m + 1..]);
    assert lines == lines[..m + 1] + lines[m + 1..];
  }

  lemma UnstampedAround(before: seq<string>, line: string, after: seq<string>)
    requires IsStamp(line)
    ensures Unstamped(before + [line] + after) == Unstamped(before + after)
  {
    UnstampedAppend(before + [line], after);
    UnstampedAppend(before, [line]);
    UnstampedAppend(before, after);
    UnstampedOne(line);
  }

  lemma UnstampedOne(line: string)
    requires IsStamp(line)
    ensures Unstamped([line]) == []
  {
    assert [line][1..] == [];
  }

  lemma StampOfDropCr(line: string)
    ensures IsStamp(DropCr(line)) == IsStamp(line)
  {
    if LastIs(line, '\r') {
      assert line == DropCr(line) + ['\r'];
      IndexOfSnoc(DropCr(line), '\r', HASH_PREFIX);
    }
  }

  lemma {:induction false} UnstampedDropCrs(lines: seq<string>)
    ensures Unstamped(DropCrs(lines)) == DropCrs(Unstamped(lines))
  {
    if lines != [] {
      StampOfDropCr(lines[0]);
      UnstampedDropCrs(lines[1..]);
    }
  }

  predicate Ended(content: string) { content == [] || LastIs(content, '\n') }

  /** How rebuilt lines are read back: only a last line without a line feed keeps its carriage
      return. */
  function ReadBack(content: string, lines: seq<string>): seq<string> {
    if Ended(content) then DropCrs(lines) else Fences.Reread(lines)
  }

  lemma OpenText(content: string, front: seq<string>, last: string)
    requires last != [] && Lacks(last, '\n') && !Ended(content)
    ensures MatchEnding(content, Unlines(front + [last])) == Unlines(front) + last
    ensures !Ended(Unlines(front) + last)
  {
    var rebuilt := Unlines(front) + last;
    UnlinesSnoc(front, last);
    assert MatchEnding(content, rebuilt + "\n") == rebuilt;
    assert rebuilt[|rebuilt| - 1] == last[|last| - 1];
  }

  lemma LinesOfOpen(content: string, front: seq<string>, last: string)
    requires NewlineFree(front) && Lacks(last, '\n') && last != [] && !Ended(content)
    ensures Lines(MatchEnding(content, Unlines(front + [last]))) == DropCrs(front) + [last]
    ensures !Ended(MatchEnding(content, Unlines(front + [last])))
  {
    OpenText(content, front, last);
    LinesOfUnlines(front, last);
    LinesSingle(last);
  }

  lemma StripOfOpen(content: string, front: seq<string>, last: string)
    requires NewlineFree(front) && Lacks(last, '\n') && last != [] && !Ended(content)
    ensures Strip(MatchEnding(content, Unlines(front + [last])))
         == MatchEnding(content, Unlines(Unstamped(DropCrs(front) + [last])))
  {
    LinesOfOpen(content, front, last);
  }

  lemma StripOfRebuilt(content: string, lines: seq<string>)
    requires Rebuildable(content, lines)
    ensures Strip(MatchEnding(content, Unlines(lines)))
         == MatchEnding(content, Unlines(Unstamped(ReadBack(content, lines))))
  {
    if Ended(content) {
      LinesOfTerminated(lines);
      UnlinesEndsWithNewline(lines);
    } else {
      var front, last := lines[..|lines| - 1], lines[|lines| - 1];
      assert lines == front + [last];
      StripOfOpen(content, front, last);
    }
  }

  /** The lines that stamping leaves ended by a line feed: all but an unended last one, and
      that one too when the stamp comes after it. */
  function EndedLines(content: string): seq<string> {
    var lines := Lines(content);
    if lines == [] || Ended(content) || StampedAtEnd(lines) then lines else lines[..|lines| - 1]
  }

  predicate StampedAtEnd(lines: seq<string>) {
    lines != [] && MarkerWithin(lines, 10) == Some(|lines| - 1)
  }

  function OpenLines(content: string): seq<string> {
    Lines(content)[|EndedLines(content)|..]
  }

  lemma EndedAndOpen(content: string)
    ensures Unstamped(Lines(content)) == Unstamped(EndedLines(content)) + Unstamped(OpenLines(content))
  {
    var ended, open := EndedLines(content), OpenLines(content);
    assert Lines(content) == ended + open;
    UnstampedAppend(ended, open);
  }

  lemma InsertedFront(lines: seq<string>, m: nat, line: string)
    requires m + 1 < |lines|
    ensures var all := InsertAfter(lines, m, line); var n := |lines| - 1;
            all[..|all| - 1] == InsertAfter(lines[..n], m, line) && all[|all| - 1] == lines[n]
  {
    var n := |lines| - 1;
    assert lines[m + 1..] == lines[..n][m + 1..] + [lines[n]];
    assert lines[..m + 1] == lines[..n][..m + 1];
  }

  lemma OpenReadBack(content: string, lines: seq<string>, front: seq<string>, last: string)
    requires !Ended(content) && lines == front + [last]
    ensures Unstamped(ReadBack(content, lines)) == DropCrs(Unstamped(front)) + Unstamped([last])
  {
    assert lines[..|lines| - 1] == front;
    UnstampedAppend(DropCrs(front), [last]);
    UnstampedDropCrs(front);
  }

  /** What stripping leaves of the text once it was stamped. */
  function LeftOver(content: string): seq<string> {
    DropCrs(Unstamped(EndedLines(content))) + Unstamped(OpenLines(content))
  }

  lemma AllEnded(content: string)
    requires var lines := Lines(content); lines == [] || Ended(content) || StampedAtEnd(lines)
    ensures LeftOver(content) == DropCrs(Unstamped(Lines(content)))
  {
    assert EndedLines(content) == Lines(content) && OpenLines(content) == [];
    assert DropCrs(Unstamped(Lines(content))) + [] == DropCrs(Unstamped(Lines(content)));
  }

  lemma LastIsOpen(content: string, front: seq<string>, last: string)
    requires Lines(content) == front + [last] && !Ended(content) && !StampedAtEnd(Lines(content))
    ensures LeftOver(content) == DropCrs(Unstamped(front)) + Unstamped([last])
  {
    assert EndedLines(content) == front && OpenLines(content) == [last];
  }

  lemma UnstampedInjected(lines: seq<string>, hash: string)
    requires IsHex(hash)
    ensures Unstamped(Injected(lines, hash)) == Unstamped(lines)
  {
    var marker := MarkerWithin(lines, 10);
    if marker.Some? {
      HashLineShape(lines[marker.value], hash);
      UnstampedInserted(lines, marker.value, HashLine(lines[marker.value], hash));
    }
  }

  /** A stamp that is not put at the very end leaves the last line in its place. */
  lemma InjectedBefore(lines: seq<string>, front: seq<string>, last: string, hash: string)
    returns (stamped: seq<string>)
    requires IsHex(hash) && lines == front + [last] && !StampedAtEnd(lines)
    ensures Injected(lines, hash) == stamped + [last] && Unstamped(stamped) == Unstamped(front)
  {
    var marker := MarkerWithin(lines, 10);
    assert lines[..|lines| - 1] == front;
    if marker.None? {
      stamped := front;
    } else {
      var line := HashLine(lines[marker.value], hash);
      stamped := InsertAfter(front, marker.value, line);
      HashLineShape(lines[marker.value], hash);
      InsertedFront(lines, marker.value, line);
      UnstampedInserted(front, marker.value, line);
    }
  }

  lemma InjectedLast(lines: seq<string>, hash: string) returns (line: string)
    requires IsHex(hash) && StampedAtEnd(lines)
    ensures Injected(lines, hash) == lines + [line] && IsStamp(line)
  {
    line := HashLine(lines[|lines| - 1], hash);
    HashLineShape(lines[|lines| - 1], hash);
  }

  lemma ReadBackEnded(content: string, hash: string)
    requires IsHex(hash) && (Lines(content) == [] || Ended(content))
    ensures Unstamped(ReadBack(content, Injected(Lines(content), hash))) == LeftOver(content)
  {
    var stamped := Injected(Lines(content), hash);
    LinesLast(content);
    AllEnded(content);
    UnstampedInjected(Lines(content), hash);
    UnstampedDropCrs(stamped);
    assert ReadBack(content, stamped) == DropCrs(stamped);
  }

  lemma ReadBackLast(content: string, hash: string)
    requires IsHex(hash) && !Ended(content) && StampedAtEnd(Lines(content))
    ensures Unstamped(ReadBack(content, Injected(Lines(content), hash))) == LeftOver(content)
  {
    var line := InjectedLast(Lines(content), hash);
    AllEnded(content);
    OpenReadBack(content, Injected(Lines(content), hash), Lines(content), line);
    UnstampedOne(line);
  }

  lemma ReadBackOpen(content: string, lines: seq<string>, hash: string)
    requires IsHex(hash) && !Ended(content) && lines == Lines(content) && lines != [] && !StampedAtEnd(lines)
    ensures Unstamped(ReadBack(content, Injected(lines, hash))) == LeftOver(content)
  {
    var front, last := lines[..|lines| - 1], lines[|lines| - 1];
    assert lines == front + [last];
    var stamped := InjectedBefore(lines, front, last, hash);
    LastIsOpen(content, front, last);
    OpenReadBack(content, Injected(lines, hash), stamped, last);
  }

  lemma UnstampedReadBack(content: string, hash: string)
    requires IsHex(hash)
    ensures Unstamped(ReadBack(content, Injected(Lines(content), hash))) == LeftOver(content)
  {
    var lines := Lines(content);
    if lines == [] || Ended(content) {
      ReadBackEnded(content, hash);
    } else if StampedAtEnd(lines) {
      ReadBackLast(content, hash);
    } else {
      ReadBackOpen(content, lines, hash);
    }
  }

  lemma EndingCancels(content: string, a: string, b: string)
    requires a == [] <==> b == []
    requires a != [] ==> LastIs(a, '\n') && LastIs(b, '\n')
    ensures MatchEnding(content, a) == MatchEnding(content, b) <==> a == b
  {
    if a != [] {
      assert a == a[..|a| - 1] + "\n" && b == b[..|b| - 1] + "\n";
    }
  }

  /** Dropping carriage returns from the first lines shows, unless there are none. */
  lemma DropShows(content: string, first: seq<string>, rest: seq<string>)
    ensures MatchEnding(content, Unlines(DropCrs(first) + rest)) == MatchEnding(content, Unlines(first + rest))
       <==> CleanLines(first)
  {
    var a, b := DropCrs(first) + rest, first + rest;
    DropCrsAt(first);
    UnlinesEndsWithNewline(a);
    UnlinesEndsWithNewline(b);
    EndingCancels(content, Unlines(a), Unlines(b));
    UnlinesAppend(DropCrs(first), rest);
    UnlinesAppend(first, rest);
    Fences.DropCrsClean(first);
  }

  /** Stripping a stamped text gives what stripping the text itself gives exactly when no kept
      line among those that stamping leaves ended still ends in a carriage return. */
  lemma StripOfInject(content: string, hash: string)
    requires IsHex(hash)
    ensures Strip(Inject(content, hash)) == Strip(content) <==> CleanLines(Unstamped(EndedLines(content)))
  {
    InjectedShape(content, hash);
    StripOfRebuilt(content, Injected(Lines(content), hash));
    UnstampedReadBack(content, hash);
    EndedAndOpen(content);
    DropShows(content, Unstamped(EndedLines(content)), Unstamped(OpenLines(content)));
  }

  function HashStream(sourcesHash: string, stripped: string): string {
    "sources\0" + sourcesHash + "\0content\0" + stripped
  }

  lemma HashStreamInjective(sourcesHash: string, a: string, b: string)
    ensures HashStream(sourcesHash, a) == HashStream(sourcesHash, b) <==> a == b
  {
    var lead := "sources\0" + sourcesHash + "\0content\0";
    assert (lead + a)[|lead|..] == a && (lead + b)[|lead|..] == b;
  }

  ghost predicate StampUnseen(content: string, hash: string) {
    forall blake3: string -> nat, sourcesHash: string ::
      FileHash(blake3, sourcesHash, Inject(content, hash)) == FileHash(blake3, sourcesHash, content)
  }

  lemma StampSeen(content: string, hash: string)
    requires Strip(Inject(content, hash)) != Strip(content)
    ensures !StampUnseen(content, hash)
  {
    var stream := HashStream("", Strip(Inject(content, hash)));
    HashStreamInjective("", Strip(Inject(content, hash)), Strip(content));
    SomeDigestDiffers(stream, HashStream("", Strip(content)));
    assert FileHash(SinglingOut(stream), "", Inject(content, hash)) != FileHash(SinglingOut(stream), "", content);
  }

  /** Hence no digest makes the file hash see a stamp, exactly for those texts. */
  lemma FileHashIgnoresStamp(content: string, hash: string)
    requires IsHex(hash)
    ensures StampUnseen(content, hash) <==> CleanLines(Unstamped(EndedLines(content)))
  {
    StripOfInject(content, hash);
    if Strip(Inject(content, hash)) != Strip(content) { StampSeen(content, hash); }
  }

  // ----- A file that carries its own hash -----

  /** The file shows the hash that hashing it gives. */
  predicate Verifies(blake3: string -> nat, sourcesHash: string, file: string) {
    Extract(file) == Some(FileHash(blake3, sourcesHash, file))
  }

  /** A file stamped with its own hash verifies, whatever the digest and the sources. */
  ghost predicate SelfVerifies(content: string) {
    forall blake3: string -> nat, sourcesHash: string ::
      Verifies(blake3, sourcesHash, Inject(content, FileHash(blake3, sourcesHash, content)))
  }

  lemma SealedVerifies(blake3: string -> nat, sourcesHash: string, content: string)
    requires Stampable(content) && CleanLines(Unstamped(EndedLines(content)))
    ensures Verifies(blake3, sourcesHash, Inject(content, FileHash(blake3, sourcesHash, content)))
  {
    var hash := FileHash(blake3, sourcesHash, content);
    StampableReadsBack(content, hash);
    StripOfInject(content, hash);
  }

  lemma UnstampableFails(content: string)
    requires !Stampable(content)
    ensures !SelfVerifies(content)
  {
    var one: string -> nat, zero: string -> nat := s => 1, s => 0;
    SomeDigestDiffers("a", "b");
    OthersReadAlike(content, Hex(1), Hex(0));
    assert FileHash(one, "", content) == Hex(1) == FileHash(one, "", Inject(content, Hex(1)));
    assert FileHash(zero, "", content) == Hex(0) == FileHash(zero, "", Inject(content, Hex(0)));
    assert !(Verifies(one, "", Inject(content, Hex(1))) && Verifies(zero, "", Inject(content, Hex(0))));
  }

  lemma UncleanFails(content: string)
    requires Stampable(content) && !CleanLines(Unstamped(EndedLines(content)))
    ensures !SelfVerifies(content)
  {
    var stream := HashStream("", Strip(content));
    var blake3 := SinglingOut(stream);
    var hash := FileHash(blake3, "", content);
    StampableReadsBack(content, hash);
    StripOfInject(content, hash);
    var after := HashStream("", Strip(Inject(content, hash)));
    HashStreamInjective("", Strip(Inject(content, hash)), Strip(content));
    SomeDigestDiffers(stream, after);
    assert FileHash(blake3, "", content) == Hex(blake3(stream));
    assert FileHash(blake3, "", Inject(content, hash)) == Hex(blake3(after));
    assert !Verifies(blake3, "", Inject(content, hash));
  }

  /** It does so exactly for the texts whose stamp is read back and goes unseen by the hash. */
  lemma StampedFileVerifies(content: string)
    ensures SelfVerifies(content) <==> Stampable(content) && CleanLines(Unstamped(EndedLines(content)))
  {
    if !Stampable(content) {
      UnstampableFails(content);
    } else if !CleanLines(Unstamped(EndedLines(content))) {
      UncleanFails(content);
    } else {
      forall blake3: string -> nat, sourcesHash: string
        ensures Verifies(blake3, sourcesHash, Inject(content, FileHash(blake3, sourcesHash, content))) {
        SealedVerifies(blake3, sourcesHash, content);
      }
    }
  }

  // ----- When rebuilding a text from its lines changes nothing -----

  ghost predicate HasCrLf(s: string) {
    exists i | 0 < i < |s| :: s[i - 1] == '\r' && s[i] == '\n'
  }

  function Rebuilt(s: string): string { MatchEnding(s, Unlines(Lines(s))) }

  lemma RebuiltStep(line: string, rest: string)
    requires Lacks(line, '\n')
    ensures Rebuilt(line + "\n" + rest) == DropCr(line) + "\n" + Rebuilt(rest)
  {
    var s := line + "\n" + rest;
    LinesCons(line, rest);
    UnlinesEndsWithNewline(Lines(rest));
    LinesLast(rest);
    assert LastIs(s, '\n') <==> rest == [] || LastIs(rest, '\n');
    MatchEndingAfter(s, DropCr(line) + "\n", rest, Unlines(Lines(rest)));
    assert Unlines(Lines(s)) == DropCr(line) + "\n" + Unlines(Lines(rest));
  }

  lemma MatchEndingAfter(s: string, lead: string, rest: string, u: string)
    requires LastIs(s, '\n') <==> rest == [] || LastIs(rest, '\n')
    requires LastIs(lead, '\n') && (rest == [] <==> u == []) && (u != [] ==> LastIs(u, '\n'))
    ensures MatchEnding(s, lead + u) == lead + MatchEnding(rest, u)
  {
    if u != [] {
      assert (lead + u)[|lead + u| - 1] == u[|u| - 1];
      assert (lead + u)[..|lead + u| - 1] == lead + u[..|u| - 1];
    }
  }

  lemma CrLfStep(line: string, rest: string)
    requires Lacks(line, '\n')
    ensures HasCrLf(line + "\n" + rest) <==> LastIs(line, '\r') || HasCrLf(rest)
  {
    var s := line + "\n" + rest;
    var n := |line|;
    assert s[n] == '\n' && s[n + 1..] == rest;
    assert forall j | 0 <= j < n :: s[j] == line[j];
    if HasCrLf(rest) {
      var i :| 0 < i < |rest| && rest[i - 1] == '\r' && rest[i] == '\n';
      assert s[n + i] == '\r' && s[n + i + 1] == '\n';
    }
    if HasCrLf(s) {
      var i :| 0 < i < |s| && s[i - 1] == '\r' && s[i] == '\n';
      if i > n {
        assert rest[i - n - 2] == s[i - 1] && rest[i - n - 1] == s[i];
      } else {
        assert s[n - 1] == line[n - 1];
      }
    }
    if LastIs(line, '\r') { assert s[n - 1] == '\r'; }
  }

  /** Splitting a text into lines and putting them together again restores it exactly when
      no carriage return stands before a line feed. */
  lemma {:induction false} RebuiltUnchanged(s: string)
    ensures Rebuilt(s) == s <==> !HasCrLf(s)
    ensures |Rebuilt(s)| <= |s|
    decreases |s|
  {
    if s != [] {
      var i := NewlineAt(s);
      FirstNewline(s);
      if i == |s| {
        assert s[..i] == s;
        assert Unlines([s]) == s + "\n" + [];
      } else {
        var line, rest := s[..i], s[i + 1..];
        assert s == line + "\n" + rest;
        RebuiltUnchanged(rest);
        RebuiltStep(line, rest);
        CrLfStep(line, rest);
        if DropCr(line) == line && Rebuilt(s) == s {
          assert Rebuilt(s)[i + 1..] == Rebuilt(rest);
        }
      }
    }
  }

  /** A text without a marker on its first ten lines comes back unchanged exactly when it has
      no CRLF line ending. */
  lemma InjectUnchanged(content: string, hash: string)
    requires MarkerWithin(Lines(content), 10).None?
    ensures Inject(content, hash) == content <==> !HasCrLf(content)
  {
    RebuiltUnchanged(content);
  }

  /** A text without a marker that is not returned unchanged. */
  lemma CrLfIsRewritten(hash: string)
    ensures MarkerWithin(Lines("a\r\n"), 10).None? && Inject("a\r\n", hash) != "a\r\n"
  {
    var s := "a\r\n";
    LinesCons("a\r", []);
    assert s == "a\r" + "\n" + [] && DropCr("a\r") == "a";
    assert Lines(s) == ["a"];
    MarkerWithinIs(["a"], 10);
    assert s[1] == '\r' && s[2] == '\n' && HasCrLf(s);
    InjectUnchanged(s, hash);
  }

  lemma {:induction false} NothingStamped(lines: seq<string>)
    requires forall i | 0 <= i < |lines| :: !IsStamp(lines[i])
    ensures Unstamped(lines) == lines
  {
    if lines != [] { NothingStamped(lines[1..]); }
  }

  lemma {:induction false} UnstampedIs(lines: seq<string>)
    ensures forall i | 0 <= i < |Unstamped(lines)| :: Unstamped(lines)[i] in lines && !IsStamp(Unstamped(lines)[i])
  {
    if lines != [] { UnstampedIs(lines[1..]); }
  }

  lemma DropCrKeepsUnstamped(line: string)
    requires !IsStamp(line)
    ensures !IsStamp(DropCr(line))
  {
    StampOfDropCr(line);
  }

  /** No line of a stripped text is a stamp. */
  lemma StripLeavesNoStamp(content: string)
    ensures forall i | 0 <= i < |Lines(Strip(content))| :: !IsStamp(Lines(Strip(content))[i])
  {
    var kept := Unstamped(Lines(content));
    UnstampedIs(Lines(content));
    LinesNewlineFree(content);
    assert NewlineFree(kept);
    if kept == [] {
    } else if LastIs(content, '\n') || content == [] {
      LinesOfTerminated(kept);
      DropCrsAt(kept);
      forall i | 0 <= i < |kept| ensures !IsStamp(DropCr(kept[i])) { DropCrKeepsUnstamped(kept[i]); }
    } else {
      var n := |kept| - 1;
      assert kept == kept[..n] + [kept[n]];
      UnlinesSnoc(kept[..n], kept[n]);
      LinesOfUnlines(kept[..n], kept[n]);
      LinesSingle(kept[n]);
      DropCrsAt(kept[..n]);
      assert MatchEnding(content, Unlines(kept)) == Unlines(kept[..n]) + kept[n];
      forall i | 0 <= i < n ensures !IsStamp(DropCr(kept[i])) { DropCrKeepsUnstamped(kept[i]); }
    }
  }

  lemma {:induction false} CrLfOfUnlines(lines: seq<string>, last: string)
    requires NewlineFree(lines) && Lacks(last, '\n')
    ensures HasCrLf(Unlines(lines) + last) <==> !CleanLines(lines)
  {
    if lines == [] {
      assert Unlines(lines) + last == last;
    } else {
      CrLfOfUnlines(lines[1..], last);
      UnlinesCons(lines, last);
      CrLfStep(lines[0], Unlines(lines[1..]) + last);
      assert CleanLines(lines) <==> !LastIs(lines[0], '\r') && CleanLines(lines[1..]);
    }
  }

  /** The kept lines that stripping ends with a line feed: all but the last of an unended text. */
  function KeptEnded(content: string): seq<string> {
    var kept := Unstamped(Lines(content));
    if kept == [] || Ended(content) then kept else kept[..|kept| - 1]
  }

  lemma KeptNewlineFree(content: string)
    ensures NewlineFree(Unstamped(Lines(content)))
  {
    UnstampedIs(Lines(content));
    LinesNewlineFree(content);
  }

  lemma CrLfOfStrip(content: string)
    ensures HasCrLf(Strip(content)) <==> !CleanLines(KeptEnded(content))
  {
    var kept := Unstamped(Lines(content));
    KeptNewlineFree(content);
    if kept == [] || Ended(content) {
      CrLfOfUnlines(kept, []);
      UnlinesEndsWithNewline(kept);
      assert Unlines(kept) + [] == Unlines(kept);
    } else {
      var front, last := kept[..|kept| - 1], kept[|kept| - 1];
      assert kept == front + [last];
      UnlinesSnoc(front, last);
      assert MatchEnding(content, Unlines(front) + last + "\n") == Unlines(front) + last;
      CrLfOfUnlines(front, last);
    }
  }

  /** Stripping a second time changes nothing exactly when no kept line that stripping ends with
      a line feed still ends in a carriage return. */
  lemma StripIdempotent(content: string)
    ensures Strip(Strip(content)) == Strip(content) <==> CleanLines(KeptEnded(content))
  {
    StripLeavesNoStamp(content);
    NothingStamped(Lines(Strip(content)));
    RebuiltUnchanged(Strip(content));
    CrLfOfStrip(content);
  }

  /** In a text whose lines carry no carriage return of their own, nothing of that is left. */
  lemma CleanStrip(content: string)
    requires CleanText(content)
    ensures !HasCrLf(Strip(content)) && Strip(Strip(content)) == Strip(content)
  {
    var kept := Unstamped(Lines(content));
    UnstampedIs(Lines(content));
    forall i | 0 <= i < |kept| ensures !LastIs(kept[i], '\r') {
      var j :| 0 <= j < |Lines(content)| && Lines(content)[j] == kept[i];
    }
    CrLfOfStrip(content);
    StripIdempotent(content);
  }
}
