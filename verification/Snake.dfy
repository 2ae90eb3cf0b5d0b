/** Acronym-aware snake case (src/codegen/naming.rs): the run-scanning loop, the local rule it
    implements, and what can be recovered from its result. */
module Snake {
  import opened Text

  // ----- The rule -----

  /** An underscore goes before position `i` when a word starts there: at an uppercase letter
      after a letter that is not uppercase, or one that a lowercase letter follows. */
  predicate WordStart(s: string, i: nat)
    requires i < |s|
  {
    i > 0 && IsUpper(s[i]) && (!IsUpper(s[i - 1]) || (i + 1 < |s| && IsLower(s[i + 1])))
  }

  function SnakeUpTo(s: string, n: nat): string
    requires n <= |s|
  {
    if n == 0 then []
    else SnakeUpTo(s, n - 1) + (if WordStart(s, n - 1) then "_" else "") + [ToLower(s[n - 1])]
  }

  function SnakeCase(s: string): string { SnakeUpTo(s, |s|) }

  // ----- The operation: scanning runs of uppercase letters -----

  method PascalToSnake(name: string) returns (out: string)
    ensures out == SnakeCase(name)
  {
    if name == "" { return ""; }
    var n := |name|;
    out := "";
    var i := 0;
    while i < n
      invariant 0 <= i <= n
      invariant out == SnakeUpTo(name, i)
      invariant 0 < i < n && IsUpper(name[i]) ==> !IsUpper(name[i - 1])
    {
      var ch := name[i];
      if IsUpper(ch) {
        var runStart := i;
        while i < n && IsUpper(name[i])
          invariant runStart <= i <= n
          invariant forall j | runStart <= j < i :: IsUpper(name[j])
          decreases n - i
        {
          i := i + 1;
        }
        var runLen := i - runStart;
        SnakeStarts(name, runStart);
        if runLen == 1 {
          if out != "" {
            out := out + "_";
          }
          out := out + [ToLower(name[runStart])];
        } else {
          var split := if i < n && IsLower(name[i]) then runLen - 1 else runLen;
          if out != "" {
            out := out + "_";
          }
          for k := 0 to split
            invariant k > 0 ==> out == SnakeUpTo(name, runStart + k)
            invariant k == 0 ==> out == SnakeUpTo(name, runStart) + (if runStart > 0 then "_" else "")
          {
            out := out + [ToLower(name[runStart + k])];
          }
          if split < runLen {
            out := out + "_";
            out := out + [ToLower(name[runStart + split])];
          }
        }
      } else {
        out := out + [ch];
        i := i + 1;
      }
    }
  }

  lemma SnakeStarts(s: string, i: nat)
    requires i <= |s|
    ensures SnakeUpTo(s, i) == "" <==> i == 0
  {
  }

  // ----- Laws -----

  ghost predicate UnderscoreFree(s: string) { Lacks(s, '_') }

  ghost predicate NoUpper(s: string) { forall i | 0 <= i < |s| :: !IsUpper(s[i]) }

  lemma {:induction false} SnakeLower(s: string, n: nat)
    requires n <= |s|
    ensures NoUpper(SnakeUpTo(s, n))
  {
    if n > 0 { SnakeLower(s, n - 1); }
  }

  lemma {:induction false} SnakeOfLower(s: string, n: nat)
    requires n <= |s| && NoUpper(s)
    ensures SnakeUpTo(s, n) == s[..n]
  {
    if n > 0 { SnakeOfLower(s, n - 1); }
  }

  lemma SnakeIdempotent(s: string)
    ensures SnakeCase(SnakeCase(s)) == SnakeCase(s)
  {
    SnakeLower(s, |s|);
    SnakeOfLower(SnakeCase(s), |SnakeCase(s)|);
    assert SnakeCase(s)[..|SnakeCase(s)|] == SnakeCase(s);
  }

  /** No underscore at either end, and no two in a row. */
  ghost predicate TidyUnderscores(s: string) {
    && (s != [] ==> s[0] != '_' && s[|s| - 1] != '_')
    && forall i, j | 0 <= i < j < |s| && j == i + 1 :: s[i] == '_' ==> s[j] != '_'
  }

  lemma {:induction false} SnakeTidy(s: string, n: nat)
    requires n <= |s| && UnderscoreFree(s)
    ensures TidyUnderscores(SnakeUpTo(s, n))
  {
    if n > 0 {
      SnakeTidy(s, n - 1);
      SnakeStarts(s, n - 1);
      assert s[n - 1] != '_';
    }
  }

  function Kept(c: char): string { if c == '_' then [] else [c] }

  function Erase(s: string): string {
    if s == [] then [] else Erase(s[..|s| - 1]) + Kept(s[|s| - 1])
  }

  lemma EraseSnoc(s: string, c: char)
    ensures Erase(s + [c]) == Erase(s) + Kept(c)
  {
    assert (s + [c])[..|s|] == s;
  }

  /** Erasing the underscores gives the lowercased input without its underscores. */
  lemma {:induction false} EraseOfSnake(s: string, n: nat)
    requires n <= |s|
    ensures Erase(SnakeUpTo(s, n)) == Lower(Erase(s[..n]))
  {
    if n > 0 {
      var front, c := s[..n - 1], s[n - 1];
      EraseOfSnake(s, n - 1);
      EraseStep(SnakeUpTo(s, n - 1), WordStart(s, n - 1), ToLower(c));
      assert s[..n] == front + [c];
      EraseSnoc(front, c);
      LowerKept(Erase(front), c);
    }
  }

  lemma EraseStep(before: string, underscore: bool, c: char)
    ensures Erase(before + (if underscore then "_" else "") + [c]) == Erase(before) + Kept(c)
  {
    if underscore {
      EraseSnoc(before, '_');
      EraseSnoc(before + "_", c);
      assert Erase(before) + [] == Erase(before);
    } else {
      EraseSnoc(before, c);
      assert before + "" == before;
    }
  }

  lemma LowerKept(s: string, c: char)
    ensures Lower(s + Kept(c)) == Lower(s) + Kept(ToLower(c))
  {
    if c == '_' { assert s + [] == s && Lower(s) + [] == Lower(s); }
  }

  /** For a name without underscores: exactly the lowercased name. */
  lemma EraseOfSnakeIsLower(s: string)
    requires UnderscoreFree(s)
    ensures Erase(SnakeCase(s)) == Lower(s)
  {
    EraseOfSnake(s, |s|);
    assert s[..|s|] == s;
    EraseNothing(s);
  }

  lemma {:induction false} EraseNothing(s: string)
    requires UnderscoreFree(s)
    ensures Erase(s) == s
  {
    if s != [] { EraseNothing(s[..|s| - 1]); }
  }

  // ----- Recovering the name -----

  /** Capitalises the first letter and every letter after an underscore, dropping underscores. */
  function Recapitalize(s: string): string {
    if s == [] then []
    else
      var front, c := s[..|s| - 1], s[|s| - 1];
      Recapitalize(front) + Letter(front, c)
  }

  function Letter(front: string, c: char): string {
    if c == '_' then [] else [if front == [] || LastIs(front, '_') then ToUpper(c) else c]
  }

  lemma RecapitalizeSnoc(s: string, c: char)
    ensures Recapitalize(s + [c]) == Recapitalize(s) + Letter(s, c)
  {
    assert (s + [c])[..|s|] == s;
  }

  /** What recapitalising makes of the letter at position `i`. */
  function Recovered(s: string, i: nat): char
    requires i < |s|
  {
    if i == 0 || WordStart(s, i) then ToUpper(ToLower(s[i])) else ToLower(s[i])
  }

  function RecoveredUpTo(s: string, n: nat): string
    requires n <= |s|
  {
    if n == 0 then [] else RecoveredUpTo(s, n - 1) + [Recovered(s, n - 1)]
  }

  lemma {:induction false} RecoveredAt(s: string, n: nat)
    requires n <= |s|
    ensures |RecoveredUpTo(s, n)| == n
    ensures forall i | 0 <= i < n :: RecoveredUpTo(s, n)[i] == Recovered(s, i)
  {
    if n > 0 { RecoveredAt(s, n - 1); }
  }

  lemma {:induction false} RecapitalizeSnake(s: string, n: nat)
    requires n <= |s| && UnderscoreFree(s)
    ensures Recapitalize(SnakeUpTo(s, n)) == RecoveredUpTo(s, n)
  {
    if n > 0 {
      var before := SnakeUpTo(s, n - 1);
      RecapitalizeSnake(s, n - 1);
      SnakeTidy(s, n - 1);
      SnakeStarts(s, n - 1);
      RecapitalizeStep(before, WordStart(s, n - 1), ToLower(s[n - 1]));
    }
  }

  lemma RecapitalizeStep(before: string, underscore: bool, c: char)
    requires c != '_' && !LastIs(before, '_')
    ensures Recapitalize(before + (if underscore then "_" else "") + [c])
         == Recapitalize(before) + [if before == [] || underscore then ToUpper(c) else c]
  {
    if underscore {
      RecapitalizeSnoc(before, '_');
      RecapitalizeSnoc(before + "_", c);
      assert Recapitalize(before) + [] == Recapitalize(before);
    } else {
      RecapitalizeSnoc(before, c);
      assert before + "" == before;
    }
  }

  /** The names that snake case keeps apart: not starting with a lowercase letter, and every
      later uppercase letter starting a word. Names made of capitalised words are among them. */
  ghost predicate Reversible(s: string) {
    && (s != [] ==> !IsLower(s[0]))
    && forall i: nat {:trigger WordStart(s, i)} :: 0 < i < |s| && IsUpper(s[i]) ==> WordStart(s, i)
  }

  lemma RecoveredIs(s: string, i: nat)
    requires i < |s|
    ensures Recovered(s, i) == s[i] <==>
              if i == 0 then !IsLower(s[0]) else IsUpper(s[i]) ==> WordStart(s, i)
  {
  }

  /** Recapitalising the snake case form gives back the name exactly for those. */
  lemma SnakeReversible(s: string)
    requires UnderscoreFree(s)
    ensures Recapitalize(SnakeCase(s)) == s <==> Reversible(s)
  {
    var r := RecoveredUpTo(s, |s|);
    RecapitalizeSnake(s, |s|);
    RecoveredAt(s, |s|);
    if r == s {
      forall i: nat | 0 < i < |s| && IsUpper(s[i]) ensures WordStart(s, i) {
        assert r[i] == s[i];
        RecoveredIs(s, i);
      }
      if s != [] {
        assert r[0] == s[0];
        RecoveredIs(s, 0);
      }
    }
    if Reversible(s) {
      forall i | 0 <= i < |s| ensures r[i] == s[i] {
        RecoveredIs(s, i);
        assert i > 0 && IsUpper(s[i]) ==> WordStart(s, i);
      }
      assert r == s;
    }
  }

  /** Hence no two of them share a snake case form. */
  lemma SnakeInjective(a: string, b: string)
    requires UnderscoreFree(a) && UnderscoreFree(b) && Reversible(a) && Reversible(b)
    ensures SnakeCase(a) == SnakeCase(b) <==> a == b
  {
    SnakeReversible(a);
    SnakeReversible(b);
  }

  /** A capital, then at least one lowercase letter or digit. */
  predicate CapitalizedWord(w: string) {
    |w| >= 2 && IsUpper(w[0]) && forall i | 1 <= i < |w| :: IsLower(w[i]) || IsDigit(w[i])
  }

  lemma {:induction false} CapitalizedWordsReversible(words: seq<string>)
    requires forall k | 0 <= k < |words| :: CapitalizedWord(words[k])
    ensures Reversible(Concat(words)) && UnderscoreFree(Concat(words))
    ensures Concat(words) != [] ==> IsUpper(Concat(words)[0])
  {
    if words != [] {
      var rest := Concat(words[1..]);
      CapitalizedWordsReversible(words[1..]);
      assert CapitalizedWord(words[0]);
      forall i: nat | 0 < i < |words[0] + rest| && IsUpper((words[0] + rest)[i])
        ensures WordStart(words[0] + rest, i)
      {
        WordThenWords(words[0], rest, i);
      }
    }
  }

  lemma WordThenWords(w: string, rest: string, i: nat)
    requires CapitalizedWord(w) && Reversible(rest)
    requires 0 < i < |w + rest| && IsUpper((w + rest)[i])
    ensures WordStart(w + rest, i)
  {
    var s := w + rest;
    assert i >= |w|;
    if i == |w| {
      assert s[i - 1] == w[|w| - 1];
    } else {
      var j: nat := i - |w|;
      assert s[i] == rest[j] && s[i - 1] == rest[j - 1];
      assert WordStart(rest, j);
      assert j + 1 < |rest| ==> s[i + 1] == rest[j + 1];
    }
  }
}
