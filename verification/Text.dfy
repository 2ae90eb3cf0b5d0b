/** The string operations of Rust's standard library that the modelled code calls,
    each written out with the corner cases that code depends on. */
module Text {

  datatype Option<+T> = None | Some(value: T)

  // ----- Characters -----

  /** `char::is_whitespace`: the Unicode White_Space property. */
  predicate IsWhitespace(c: char) {
    || '\t' <= c <= '\r'
    || c == ' '
    || c == '\U{0085}' || c == '\U{00A0}' || c == '\U{1680}'
    || '\U{2000}' <= c <= '\U{200A}'
    || c == '\U{2028}' || c == '\U{2029}' || c == '\U{202F}' || c == '\U{205F}' || c == '\U{3000}'
  }

  predicate IsUpper(c: char) { 'A' <= c <= 'Z' }

  predicate IsLower(c: char) { 'a' <= c <= 'z' }

  predicate IsDigit(c: char) { '0' <= c <= '9' }

  predicate IsAlphanumeric(c: char) { IsUpper(c) || IsLower(c) || IsDigit(c) }

  /** `to_ascii_uppercase` on one character. */
  function ToUpper(c: char): char {
    if IsLower(c) then ((c as int) - 32) as char else c
  }

  /** `to_ascii_lowercase` on one character. */
  function ToLower(c: char): char {
    if IsUpper(c) then ((c as int) + 32) as char else c
  }

  function Upper(s: string): (r: string)
    ensures |r| == |s| && forall i | 0 <= i < |s| :: r[i] == ToUpper(s[i])
  {
    seq(|s|, i requires 0 <= i < |s| => ToUpper(s[i]))
  }

  function Lower(s: string): (r: string)
    ensures |r| == |s| && forall i | 0 <= i < |s| :: r[i] == ToLower(s[i])
  {
    seq(|s|, i requires 0 <= i < |s| => ToLower(s[i]))
  }

  // ----- Prefixes, suffixes, searching -----

  predicate EndsWith(s: string, suffix: string) {
    |suffix| <= |s| && s[|s| - |suffix|..] == suffix
  }

  /** `ends_with` with one character. */
  predicate LastIs(s: string, c: char) {
    s != [] && s[|s| - 1] == c
  }

  function Min(a: nat, b: nat): nat { if a <= b then a else b }

  function Max(a: nat, b: nat): nat { if a <= b then b else a }

  function EndLine(s: string): string { if LastIs(s, '\n') then s else s + "\n" }

  /** `str::find`: the first position at which `pattern` occurs. */
  function IndexOf(s: string, pattern: string): (r: Option<nat>)
    ensures r.Some? ==> r.value + |pattern| <= |s|
  {
    if pattern <= s then Some(0)
    else if s == [] then None
    else
      var rest := IndexOf(s[1..], pattern);
      if rest.Some? then Some(rest.value + 1) else None
  }

  /** `str::contains`. */
  predicate Contains(s: string, pattern: string) {
    IndexOf(s, pattern).Some?
  }

  lemma {:induction false} ContainsAt(s: string, pattern: string, i: nat)
    requires i + |pattern| <= |s| && s[i..i + |pattern|] == pattern
    ensures Contains(s, pattern)
  {
    if !(pattern <= s) {
      if i > 0 {
        assert s[1..][i - 1..i - 1 + |pattern|] == s[i..i + |pattern|];
        ContainsAt(s[1..], pattern, i - 1);
      }
    }
  }

  ghost predicate OccursAt(s: string, pattern: string, i: nat) {
    i + |pattern| <= |s| && s[i..i + |pattern|] == pattern
  }

  ghost predicate Occurs(s: string, pattern: string) {
    exists i: nat :: OccursAt(s, pattern, i)
  }

  lemma {:induction false} FoundOccurs(s: string, pattern: string)
    requires Contains(s, pattern)
    ensures Occurs(s, pattern)
  {
    if pattern <= s {
      assert OccursAt(s, pattern, 0);
    } else {
      FoundOccurs(s[1..], pattern);
      var i: nat :| OccursAt(s[1..], pattern, i);
      assert s[1..][i..i + |pattern|] == s[i + 1..i + 1 + |pattern|];
      assert OccursAt(s, pattern, i + 1);
    }
  }

  lemma ContainsIs(s: string, pattern: string)
    ensures Contains(s, pattern) <==> Occurs(s, pattern)
  {
    if Contains(s, pattern) { FoundOccurs(s, pattern); }
    if i: nat :| OccursAt(s, pattern, i) { ContainsAt(s, pattern, i); }
  }

  // ----- Trimming -----

  function TrimStart(s: string): string {
    if s != [] && IsWhitespace(s[0]) then TrimStart(s[1..]) else s
  }

  function TrimEnd(s: string): (r: string)
    ensures |r| <= |s|
  {
    if s != [] && IsWhitespace(s[|s| - 1]) then TrimEnd(s[..|s| - 1]) else s
  }

  lemma {:induction false} TrimEndIs(s: string)
    ensures var r := TrimEnd(s);
      && r == s[..|r|] && (r != [] ==> !IsWhitespace(r[|r| - 1]))
      && forall i | |r| <= i < |s| :: IsWhitespace(s[i])
  {
    if s != [] && IsWhitespace(s[|s| - 1]) { TrimEndIs(s[..|s| - 1]); }
  }

  function Trim(s: string): string {
    TrimEnd(TrimStart(s))
  }

  /** `trim_end_matches` with a string pattern: drops it as often as it ends the text. */
  function TrimEndMatches(s: string, pattern: string): string
    requires pattern != []
  {
    if EndsWith(s, pattern) then TrimEndMatches(s[..|s| - |pattern|], pattern) else s
  }

  lemma TrimEndMatchesOnce(s: string, pattern: string)
    requires pattern != [] && !EndsWith(s, pattern)
    ensures TrimEndMatches(s, pattern) == s && TrimEndMatches(s + pattern, pattern) == s
  {
    var t := s + pattern;
    assert t[|t| - |pattern|..] == pattern && t[..|t| - |pattern|] == s;
  }

  /** `trim_start_matches` with one character. */
  function TrimStartChar(s: string, c: char): (r: string)
    ensures |r| <= |s|
  {
    if s != [] && s[0] == c then TrimStartChar(s[1..], c) else s
  }

  lemma {:induction false} TrimStartCharIs(s: string, c: char)
    ensures var r := TrimStartChar(s, c);
      && r == s[|s| - |r|..] && (r != [] ==> r[0] != c)
      && forall i | 0 <= i < |s| - |r| :: s[i] == c
  {
    if s != [] && s[0] == c { TrimStartCharIs(s[1..], c); }
  }

  /** `trim_end_matches` with one character. */
  function TrimEndChar(s: string, c: char): (r: string)
    ensures |r| <= |s|
  {
    if s != [] && s[|s| - 1] == c then TrimEndChar(s[..|s| - 1], c) else s
  }

  lemma {:induction false} TrimEndCharIs(s: string, c: char)
    ensures var r := TrimEndChar(s, c);
      && r == s[..|r|] && (r != [] ==> r[|r| - 1] != c)
      && forall i | |r| <= i < |s| :: s[i] == c
  {
    if s != [] && s[|s| - 1] == c { TrimEndCharIs(s[..|s| - 1], c); }
  }

  ghost predicate Blank(s: string) {
    forall i | 0 <= i < |s| :: IsWhitespace(s[i])
  }

  lemma {:induction false} TrimStartSuffix(s: string)
    ensures |TrimStart(s)| <= |s| && TrimStart(s) == s[|s| - |TrimStart(s)|..]
    ensures forall i | 0 <= i < |s| - |TrimStart(s)| :: IsWhitespace(s[i])
    ensures TrimStart(s) != [] ==> !IsWhitespace(TrimStart(s)[0])
  {
    if s != [] && IsWhitespace(s[0]) {
      var tail, k := s[1..], |s| - |TrimStart(s)|;
      TrimStartSuffix(tail);
      assert tail[k - 1..] == s[k..];
      forall i | 0 <= i < k ensures IsWhitespace(s[i]) {
        if i > 0 { assert tail[i - 1] == s[i]; }
      }
    }
  }

  /** A text without whitespace at either end is its own trimming. */
  lemma TrimFixed(s: string)
    requires s != [] ==> !IsWhitespace(s[0]) && !IsWhitespace(s[|s| - 1])
    ensures Trim(s) == s
  {
  }

  /** What trimming leaves of a core with whitespace around it. */
  lemma TrimAround(before: string, core: string, after: string)
    requires Blank(before) && Blank(after)
    requires core != [] ==> !IsWhitespace(core[0]) && !IsWhitespace(core[|core| - 1])
    ensures Trim(before + core + after) == core
  {
    if before != [] {
      assert (before + core + after)[1..] == before[1..] + core + after;
      TrimAround(before[1..], core, after);
    } else if core == [] {
      assert before + core + after == after;
      TrimBlank(after);
    } else {
      assert before + core + after == core + after;
      TrimEndAppend(core, after);
    }
  }

  lemma TrimBlank(s: string)
    requires Blank(s)
    ensures Trim(s) == []
  {
    if s != [] { TrimBlank(s[1..]); }
  }

  lemma TrimEndAppend(core: string, after: string)
    requires Blank(after)
    requires core != [] ==> !IsWhitespace(core[|core| - 1])
    ensures TrimEnd(core + after) == core
  {
    if after != [] {
      assert (core + after)[..|core + after| - 1] == core + after[..|after| - 1];
      TrimEndAppend(core, after[..|after| - 1]);
    } else {
      assert core + after == core;
    }
  }

  // ----- Joining and replacing -----

  function Join(parts: seq<string>, separator: string): string {
    if parts == [] then []
    else if |parts| == 1 then parts[0]
    else parts[0] + separator + Join(parts[1..], separator)
  }

  function Concat(parts: seq<string>): string {
    if parts == [] then [] else parts[0] + Concat(parts[1..])
  }

  lemma ConcatAppend(a: seq<string>, b: seq<string>)
    ensures Concat(a + b) == Concat(a) + Concat(b)
  {
    if a == [] {
      assert a + b == b;
    } else {
      assert (a + b)[1..] == a[1..] + b;
      ConcatAppend(a[1..], b);
    }
  }

  lemma Associate(a: string, b: string, c: string)
    ensures a + b + c == a + (b + c)
  {
  }

  lemma ConcatSnoc(parts: seq<string>, part: string)
    ensures Concat(parts + [part]) == Concat(parts) + part
  {
    ConcatAppend(parts, [part]);
    assert Concat([part]) == part + [];
  }

  /** `str::replace`: leftmost, non-overlapping. */
  function Replace(s: string, pattern: string, with: string): string
    requires pattern != []
    decreases |s|
  {
    if s == [] then []
    else if pattern <= s then with + Replace(s[|pattern|..], pattern, with)
    else [s[0]] + Replace(s[1..], pattern, with)
  }

  lemma ReplaceStep(s: string, pattern: string, with: string)
    requires pattern != [] && s != []
    ensures !(pattern <= s) ==> Replace(s, pattern, with) == [s[0]] + Replace(s[1..], pattern, with)
    ensures pattern <= s ==> Replace(s, pattern, with) == with + Replace(s[|pattern|..], pattern, with)
  {
  }

  lemma {:induction false} ReplaceChar(s: string, c: char, with: string)
    requires s != []
    ensures Replace(s, [c], with) == (if s[0] == c then with else [s[0]]) + Replace(s[1..], [c], with)
  {
    assert [c] <= s <==> s[0] == c;
  }

  lemma {:induction false} ReplaceAppend(a: string, b: string, c: char, with: string)
    ensures Replace(a + b, [c], with) == Replace(a, [c], with) + Replace(b, [c], with)
  {
    if a == [] {
      assert a + b == b;
    } else {
      assert (a + b)[1..] == a[1..] + b;
      ReplaceChar(a + b, c, with);
      ReplaceChar(a, c, with);
      ReplaceAppend(a[1..], b, c, with);
    }
  }

  lemma {:induction false} ReplaceNothing(s: string, c: char, with: string)
    requires Lacks(s, c)
    ensures Replace(s, [c], with) == s
  {
    if s != [] {
      ReplaceChar(s, c, with);
      ReplaceNothing(s[1..], c, with);
    }
  }

  lemma Uncons<T>(s: seq<T>, rest: seq<T>)
    requires s != []
    ensures [s[0]] + (s[1..] + rest) == s + rest
  {
  }

  // ----- Lines -----

  /** The position of the first line feed, or the length when there is none. */
  function NewlineAt(s: string): (i: nat)
    ensures i <= |s|
  {
    if s == [] || s[0] == '\n' then 0 else NewlineAt(s[1..]) + 1
  }

  lemma {:induction false} FirstNewline(s: string)
    ensures var i := NewlineAt(s); (i < |s| ==> s[i] == '\n') && Lacks(s[..i], '\n')
  {
    if s != [] && s[0] != '\n' {
      var i := NewlineAt(s[1..]);
      FirstNewline(s[1..]);
      assert s[..i + 1] == [s[0]] + s[1..][..i];
    }
  }

  function DropCr(line: string): string {
    if LastIs(line, '\r') then line[..|line| - 1] else line
  }

  /** `str::lines`: a line ends at a line feed, one carriage return before it is dropped
      too, and a final line need not be terminated. */
  function Lines(s: string): seq<string>
    decreases |s|
  {
    if s == [] then []
    else
      var i := NewlineAt(s);
      if i == |s| then [s] else [DropCr(s[..i])] + Lines(s[i + 1..])
  }

  /** Every line with a line feed after it: how the modelled loops rebuild a text. */
  function Unlines(lines: seq<string>): string {
    if lines == [] then [] else lines[0] + "\n" + Unlines(lines[1..])
  }

  /** `if !original.ends_with('\n') && rebuilt.ends_with('\n') { rebuilt.pop(); }` */
  function MatchEnding(original: string, rebuilt: string): string {
    if !LastIs(original, '\n') && LastIs(rebuilt, '\n') then rebuilt[..|rebuilt| - 1] else rebuilt
  }

  ghost predicate Lacks(s: string, c: char) {
    forall i | 0 <= i < |s| :: s[i] != c
  }

  ghost predicate NewlineFree(lines: seq<string>) {
    forall i | 0 <= i < |lines| :: Lacks(lines[i], '\n')
  }

  /** No line ends in a carriage return: true of every text with LF or CRLF endings. */
  ghost predicate CleanLines(lines: seq<string>) {
    forall i | 0 <= i < |lines| :: !LastIs(lines[i], '\r')
  }

  ghost predicate CleanText(s: string) {
    CleanLines(Lines(s))
  }

  lemma LfTextIsClean(s: string)
    requires Lacks(s, '\r')
    ensures CleanText(s)
    decreases |s|
  {
    if s != [] {
      var i := NewlineAt(s);
      if i < |s| {
        LfTextIsClean(s[i + 1..]);
      } else {
      }
    }
  }

  function DropCrs(lines: seq<string>): seq<string> {
    if lines == [] then [] else [DropCr(lines[0])] + DropCrs(lines[1..])
  }

  lemma DropCrsAt(lines: seq<string>)
    ensures |DropCrs(lines)| == |lines|
    ensures forall i | 0 <= i < |lines| :: DropCrs(lines)[i] == DropCr(lines[i])
  {
  }

  lemma UnlinesAppend(a: seq<string>, b: seq<string>)
    ensures Unlines(a + b) == Unlines(a) + Unlines(b)
  {
    if a == [] {
      assert a + b == b;
    } else {
      assert (a + b)[1..] == a[1..] + b;
      UnlinesAppend(a[1..], b);
    }
  }

  lemma UnlinesSnoc(a: seq<string>, line: string)
    ensures Unlines(a + [line]) == Unlines(a) + line + "\n"
  {
    UnlinesAppend(a, [line]);
    assert Unlines([line]) == line + "\n" + [];
  }

  lemma UnlinesEndsWithNewline(lines: seq<string>)
    ensures lines != [] ==> LastIs(Unlines(lines), '\n')
    ensures lines == [] ==> Unlines(lines) == []
  {
    if lines != [] {
      assert lines == lines[..|lines| - 1] + [lines[|lines| - 1]];
      UnlinesSnoc(lines[..|lines| - 1], lines[|lines| - 1]);
    }
  }

  lemma {:induction false} NewlineAtIs(s: string, i: nat)
    requires i <= |s| && (i < |s| ==> s[i] == '\n') && Lacks(s[..i], '\n')
    ensures NewlineAt(s) == i
  {
    if i > 0 {
      assert s[..i][0] == s[0] && s[1..][..i - 1] == s[..i][1..];
      NewlineAtIs(s[1..], i - 1);
    }
  }

  lemma LinesCons(line: string, rest: string)
    requires Lacks(line, '\n')
    ensures Lines(line + "\n" + rest) == [DropCr(line)] + Lines(rest)
  {
    var s := line + "\n" + rest;
    var n := |line|;
    assert s[..n] == line && s[n] == '\n' && s[n + 1..] == rest;
    NewlineAtIs(s, n);
  }

  lemma UnlinesCons(lines: seq<string>, last: string)
    requires lines != []
    ensures Unlines(lines) + last == lines[0] + "\n" + (Unlines(lines[1..]) + last)
  {
  }

  lemma LinesSingle(last: string)
    requires Lacks(last, '\n')
    ensures Lines(last) == if last == [] then [] else [last]
  {
    if last != [] { NewlineAtIs(last, |last|); }
  }

  /** Reading back what `Unlines` wrote, followed by an unterminated rest. */
  lemma {:induction false} LinesOfUnlines(lines: seq<string>, last: string)
    requires NewlineFree(lines) && Lacks(last, '\n')
    ensures Lines(Unlines(lines) + last) == DropCrs(lines) + Lines(last)
  {
    if lines == [] {
      assert Unlines(lines) + last == last;
    } else {
      var tail := lines[1..];
      LinesOfUnlines(tail, last);
      LinesCons(lines[0], Unlines(tail) + last);
      UnlinesCons(lines, last);
      Uncons(DropCrs(lines), Lines(last));
    }
  }

  lemma LinesOfTerminated(lines: seq<string>)
    requires NewlineFree(lines)
    ensures Lines(Unlines(lines)) == DropCrs(lines)
    ensures CleanLines(lines) ==> Lines(Unlines(lines)) == lines
  {
    assert Unlines(lines) + [] == Unlines(lines);
    LinesOfUnlines(lines, []);
    DropCrsAt(lines);
  }

  /** Whether the text ends in an unterminated line shows in its last line. */
  lemma LinesLast(s: string)
    ensures s == [] <==> Lines(s) == []
    ensures s != [] && !LastIs(s, '\n') ==> Lines(s)[|Lines(s)| - 1] != []
    decreases |s|
  {
    if s != [] {
      var i := NewlineAt(s);
      FirstNewline(s);
      if i < |s| {
        LinesLast(s[i + 1..]);
        if s[i + 1..] != [] {
          assert LastIs(s[i + 1..], '\n') <==> LastIs(s, '\n');
        } else {
          assert s[|s| - 1..] == "\n";
        }
      }
    }
  }

  lemma LinesNewlineFree(s: string)
    ensures NewlineFree(Lines(s))
    decreases |s|
  {
    if s != [] {
      var i := NewlineAt(s);
      FirstNewline(s);
      if i == |s| {
        assert s[..i] == s;
      } else {
        LinesNewlineFree(s[i + 1..]);
      }
    }
  }
}
