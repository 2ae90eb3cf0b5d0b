/** The stat-based memo of the sources fingerprint (src/cli/cache.rs): its file format, and
    the query that answers from it when no source has changed. */
module Memo {
  import opened Text
  import opened Digest
  import opened Order
  import opened Sources

  const U64_LIMIT: nat := 0x1_0000_0000_0000_0000

  // ----- The file format -----

  /** One line of the memo file: path, modification time in nanoseconds, size. */
  datatype Line = Line(path: string, mtime: nat, size: nat)

  function Digit(n: nat): char
    requires n < 10
  {
    '0' + n as char
  }

  function Decimal(n: nat): string {
    if n < 10 then [Digit(n)] else Decimal(n / 10) + [Digit(n % 10)]
  }

  function DigitsValue(s: string): (r: Option<nat>) {
    if s == [] then Some(0)
    else
      var c := s[|s| - 1];
      var before := DigitsValue(s[..|s| - 1]);
      if before.None? || !IsDigit(c) then None
      else Some(before.value * 10 + (c as nat - '0' as nat))
  }

  /** `parse::<u64>()`: one optional plus sign, at least one digit, no overflow. */
  function ParseU64(s: string): Option<nat> {
    var digits := if s != [] && s[0] == '+' then s[1..] else s;
    if digits == [] then None
    else match DigitsValue(digits)
      case None => None
      case Some(n) => if n < U64_LIMIT then Some(n) else None
  }

  function U64OrZero(s: string): nat {
    var n := ParseU64(s);
    if n.Some? then n.value else 0
  }

  /** The length of the text before the first tab. */
  function TabAt(s: string): (i: nat)
    ensures i <= |s|
  {
    if s == [] || s[0] == '\t' then 0 else TabAt(s[1..]) + 1
  }

  /** `split('\t')` */
  function SplitTabs(s: string): seq<string>
    decreases |s|
  {
    var i := TabAt(s);
    if i == |s| then [s] else [s[..i]] + SplitTabs(s[i + 1..])
  }

  datatype PerFileMemo = PerFileMemo(aggregate: Option<string>, entries: map<string, (nat, nat)>)

  const EMPTY := PerFileMemo(None, map[])

  function ReadLine(memo: PerFileMemo, line: string): PerFileMemo {
    if "aggregate\t" <= line then memo.(aggregate := Some(line[|"aggregate\t"|..]))
    else
      var parts := SplitTabs(line);
      if |parts| != 3 then memo
      else memo.(entries := memo.entries[parts[0] := (U64OrZero(parts[1]), U64OrZero(parts[2]))])
  }

  function ReadLines(memo: PerFileMemo, lines: seq<string>): PerFileMemo
    decreases |lines|
  {
    if lines == [] then memo else ReadLines(ReadLine(memo, lines[0]), lines[1..])
  }

  function ReadMemo(file: Option<string>): PerFileMemo {
    if file.None? then EMPTY else ReadLines(EMPTY, Lines(file.value))
  }

  function LineText(line: Line): string {
    line.path + "\t" + (Decimal(line.mtime) + "\t" + Decimal(line.size))
  }

  function LineTexts(lines: seq<Line>): seq<string> {
    if lines == [] then [] else [LineText(lines[0])] + LineTexts(lines[1..])
  }

  function MemoText(lines: seq<Line>, aggregate: string): string {
    Unlines(["aggregate\t" + aggregate] + LineTexts(lines))
  }

  method ReadPerFileMemo(file: Option<string>) returns (memo: PerFileMemo)
    ensures memo == ReadMemo(file)
  {
    if file.None? { return EMPTY; }
    var aggregate: Option<string> := None;
    var entries: map<string, (nat, nat)> := map[];
    var lines := Lines(file.value);
    for i := 0 to |lines|
      invariant ReadLines(PerFileMemo(aggregate, entries), lines[i..]) == ReadMemo(file)
    {
      var line := lines[i];
      assert lines[i..][1..] == lines[i + 1..];
      if "aggregate\t" <= line {
        aggregate := Some(line[|"aggregate\t"|..]);
        continue;
      }
      var parts := SplitTabs(line);
      if |parts| != 3 { continue; }
      var mtime := U64OrZero(parts[1]);
      var size := U64OrZero(parts[2]);
      entries := entries[parts[0] := (mtime, size)];
    }
    memo := PerFileMemo(aggregate, entries);
  }

  method WritePerFileMemo(lines: seq<Line>, aggregate: string) returns (content: string)
    ensures content == MemoText(lines, aggregate)
  {
    content := "aggregate\t" + aggregate + "\n";
    for i := 0 to |lines|
      invariant content + Unlines(LineTexts(lines[i..])) == MemoText(lines, aggregate)
    {
      assert lines[i..][1..] == lines[i + 1..];
      content := content + LineText(lines[i]) + "\n";
    }
  }

  // ----- Reading what was written -----

  lemma {:induction false} DecimalDigits(n: nat)
    ensures Decimal(n) != [] && DigitsValue(Decimal(n)) == Some(n)
    ensures forall i | 0 <= i < |Decimal(n)| :: IsDigit(Decimal(n)[i])
  {
    if n < 10 {
      assert [Digit(n)][..0] == [];
    } else {
      DecimalDigits(n / 10);
      assert (Decimal(n / 10) + [Digit(n % 10)])[..|Decimal(n / 10)|] == Decimal(n / 10);
    }
  }

  /** Every `u64` survives the decimal text. */
  lemma DecimalRoundTrip(n: nat)
    requires n < U64_LIMIT
    ensures U64OrZero(Decimal(n)) == n
  {
    DecimalDigits(n);
    assert IsDigit(Decimal(n)[0]);
  }

  /** The paths that the file format can carry: no separators in them, and not the word that
      starts the first line. */
  predicate Storable(path: string) {
    path != "aggregate" && forall i | 0 <= i < |path| :: path[i] != '\t' && path[i] != '\n'
  }

  ghost predicate GoodLines(lines: seq<Line>) {
    forall i | 0 <= i < |lines| ::
      Storable(lines[i].path) && lines[i].mtime < U64_LIMIT && lines[i].size < U64_LIMIT
  }

  lemma {:induction false} TabAtIs(before: string, after: string)
    requires Lacks(before, '\t')
    ensures TabAt(before + "\t" + after) == |before|
  {
    var s := before + "\t" + after;
    if before != [] {
      assert s[0] == before[0] && s[1..] == before[1..] + "\t" + after;
      TabAtIs(before[1..], after);
    }
  }

  lemma {:induction false} TabNowhere(s: string)
    requires Lacks(s, '\t')
    ensures SplitTabs(s) == [s] && TabAt(s) == |s|
  {
    if s != [] { TabNowhere(s[1..]); }
  }

  lemma SplitStep(before: string, after: string)
    requires Lacks(before, '\t')
    ensures SplitTabs(before + "\t" + after) == [before] + SplitTabs(after)
  {
    var s := before + "\t" + after;
    TabAtIs(before, after);
    assert s[..|before|] == before && s[|before| + 1..] == after;
  }

  lemma LineParts(line: Line)
    requires Lacks(line.path, '\t')
    ensures SplitTabs(LineText(line)) == [line.path, Decimal(line.mtime), Decimal(line.size)]
  {
    DecimalDigits(line.mtime);
    DecimalDigits(line.size);
    SplitStep(line.path, Decimal(line.mtime) + "\t" + Decimal(line.size));
    SplitStep(Decimal(line.mtime), Decimal(line.size));
    TabNowhere(Decimal(line.size));
  }

  lemma AggregatePrefix(line: Line)
    requires Lacks(line.path, '\t') && "aggregate\t" <= LineText(line)
    ensures line.path == "aggregate"
  {
    var word := "aggregate";
    var text := LineText(line);
    TabAtIs(line.path, Decimal(line.mtime) + "\t" + Decimal(line.size));
    assert text == word + "\t" + text[|word| + 1..];
    TabAtIs(word, text[|word| + 1..]);
    assert text[..|word|] == word && text[..|line.path|] == line.path;
  }

  lemma NotAggregate(line: Line)
    requires Storable(line.path)
    ensures !("aggregate\t" <= LineText(line))
  {
    if "aggregate\t" <= LineText(line) { AggregatePrefix(line); }
  }

  function Entries(lines: seq<Line>): map<string, (nat, nat)> {
    if lines == [] then map[]
    else
      var n := |lines| - 1;
      Entries(lines[..n])[lines[n].path := (lines[n].mtime, lines[n].size)]
  }

  lemma ReadLineText(memo: PerFileMemo, line: Line)
    requires Storable(line.path) && line.mtime < U64_LIMIT && line.size < U64_LIMIT
    ensures ReadLine(memo, LineText(line)) == memo.(entries := memo.entries[line.path := (line.mtime, line.size)])
  {
    NotAggregate(line);
    LineParts(line);
    DecimalRoundTrip(line.mtime);
    DecimalRoundTrip(line.size);
  }

  lemma {:induction false} ReadLinesSnoc(memo: PerFileMemo, lines: seq<string>, line: string)
    ensures ReadLines(memo, lines + [line]) == ReadLine(ReadLines(memo, lines), line)
    decreases |lines|
  {
    if lines == [] {
      assert ([] + [line])[1..] == [];
    } else {
      assert (lines + [line])[1..] == lines[1..] + [line];
      ReadLinesSnoc(ReadLine(memo, lines[0]), lines[1..], line);
    }
  }

  lemma {:induction false} LineTextsSnoc(lines: seq<Line>, line: Line)
    ensures LineTexts(lines + [line]) == LineTexts(lines) + [LineText(line)]
  {
    if lines != [] {
      assert (lines + [line])[1..] == lines[1..] + [line];
      LineTextsSnoc(lines[1..], line);
    }
  }

  lemma {:induction false} ReadLineTexts(aggregate: string, lines: seq<Line>)
    requires GoodLines(lines)
    ensures ReadLines(EMPTY, ["aggregate\t" + aggregate] + LineTexts(lines))
         == PerFileMemo(Some(aggregate), Entries(lines))
  {
    var head: string := "aggregate\t" + aggregate;
    if lines == [] {
      assert |[head][1..]| == 0;
      assert head[|"aggregate\t"|..] == aggregate;
    } else {
      var n := |lines| - 1;
      ReadLineTexts(aggregate, lines[..n]);
      LineTextsSnoc(lines[..n], lines[n]);
      assert lines == lines[..n] + [lines[n]];
      assert [head] + LineTexts(lines) == [head] + LineTexts(lines[..n]) + [LineText(lines[n])];
      ReadLinesSnoc(EMPTY, [head] + LineTexts(lines[..n]), LineText(lines[n]));
      ReadLineText(PerFileMemo(Some(aggregate), Entries(lines[..n])), lines[n]);
    }
  }

  lemma LineTextClean(line: Line)
    requires Lacks(line.path, '\n')
    ensures Lacks(LineText(line), '\n') && !LastIs(LineText(line), '\r')
  {
    DecimalDigits(line.mtime);
    DecimalDigits(line.size);
    var size := Decimal(line.size);
    assert LineText(line)[|LineText(line)| - 1] == size[|size| - 1];
    assert Lacks(Decimal(line.mtime), '\n') && Lacks(size, '\n');
  }

  lemma {:induction false} LineTextsClean(lines: seq<Line>)
    requires GoodLines(lines)
    ensures NewlineFree(LineTexts(lines)) && CleanLines(LineTexts(lines))
  {
    if lines != [] {
      LineTextClean(lines[0]);
      LineTextsClean(lines[1..]);
    }
  }

  /** Reading back a written memo gives the aggregate and the entries that were written. */
  lemma MemoRoundTrip(lines: seq<Line>, aggregate: string)
    requires GoodLines(lines) && IsHex(aggregate)
    ensures ReadMemo(Some(MemoText(lines, aggregate))) == PerFileMemo(Some(aggregate), Entries(lines))
  {
    var all := ["aggregate\t" + aggregate] + LineTexts(lines);
    LineTextsClean(lines);
    assert Lacks("aggregate\t" + aggregate, '\n') && !LastIs("aggregate\t" + aggregate, '\r') by {
      assert IsHexDigit(aggregate[|aggregate| - 1]);
    }
    LinesOfTerminated(all);
    ReadLineTexts(aggregate, lines);
  }

  // ----- The file and its numbers, written out -----

  /** The memo of one file. */
  lemma OneLineMemo(line: Line, aggregate: string)
    ensures MemoText([line], aggregate)
         == "aggregate\t" + aggregate + "\n"
            + (line.path + "\t" + Decimal(line.mtime) + "\t" + Decimal(line.size) + "\n")
  {
    var text := line.path + "\t" + Decimal(line.mtime) + "\t" + Decimal(line.size);
    assert LineText(line) == text;
    assert [line][1..] == [] && LineTexts([line]) == [text];
    UnlinesSnoc(["aggregate\t" + aggregate], text);
    UnlinesSnoc([], "aggregate\t" + aggregate);
    assert [] + ["aggregate\t" + aggregate] == ["aggregate\t" + aggregate];
  }

  lemma {:induction false} NotAllDigits(s: string)
    ensures DigitsValue(s).None? <==> exists i | 0 <= i < |s| :: !IsDigit(s[i])
  {
    if s != [] { NotAllDigits(s[..|s| - 1]); }
  }

  /** Numbers that are too large read as zero, and so does what is no number; a plus sign in
      front is allowed. */
  lemma OtherNumbers(n: nat, s: string)
    ensures U64OrZero(Decimal(n)) == U64OrZero("+" + Decimal(n)) == if n < U64_LIMIT then n else 0
    ensures (exists i | 0 <= i < |s| :: !IsDigit(s[i]) && (i > 0 || s[0] != '+')) || s == "" || s == "+" ==>
              U64OrZero(s) == 0
  {
    DecimalDigits(n);
    assert ("+" + Decimal(n))[1..] == Decimal(n);
    NotAllDigits(s);
    if s != [] { NotAllDigits(s[1..]); }
  }
}
