/** Where snake case puts its underscores, written on the characters of the name. */
module SnakeLaws {
  import opened Text
  import opened Snake

  /** Between `x` and `y` a word starts: `y` begins with a capital, and either `x` does not end
      with one or a lowercase letter follows in `y`. */
  predicate Boundary(x: string, y: string) {
    && x != [] && y != [] && IsUpper(y[0])
    && (!IsUpper(x[|x| - 1]) || (|y| > 1 && IsLower(y[1])))
  }

  lemma StartInFront(x: string, y: string, i: nat)
    requires Boundary(x, y) && i < |x|
    ensures WordStart(x + y, i) == WordStart(x, i)
  {
  }

  lemma StartBehind(x: string, y: string, i: nat)
    requires Boundary(x, y) && i < |y|
    ensures WordStart(x + y, |x| + i) <==> i == 0 || WordStart(y, i)
  {
    var s := x + y;
    assert s[|x| + i] == y[i];
    assert s[|x| + i - 1] == if i == 0 then x[|x| - 1] else y[i - 1];
    assert i + 1 < |y| ==> s[|x| + i + 1] == y[i + 1];
  }

  lemma {:induction false} SnakeFront(x: string, y: string, n: nat)
    requires Boundary(x, y) && n <= |x|
    ensures SnakeUpTo(x + y, n) == SnakeUpTo(x, n)
  {
    if n > 0 {
      SnakeFront(x, y, n - 1);
      StartInFront(x, y, n - 1);
    }
  }

  lemma {:induction false} SnakeBehind(x: string, y: string, n: nat)
    requires Boundary(x, y) && 0 < n <= |y|
    ensures SnakeUpTo(x + y, |x| + n) == SnakeCase(x) + "_" + SnakeUpTo(y, n)
  {
    StartBehind(x, y, n - 1);
    if n == 1 {
      SnakeFront(x, y, |x|);
      SnakeOne(y);
    } else {
      SnakeBehind(x, y, n - 1);
    }
  }

  lemma SnakeOne(y: string)
    requires y != []
    ensures SnakeUpTo(y, 1) == [ToLower(y[0])]
  {
    assert SnakeUpTo(y, 0) == [];
  }

  /** At a boundary the two sides are written by themselves, with an underscore between. */
  lemma SnakeCuts(x: string, y: string)
    requires Boundary(x, y)
    ensures SnakeCase(x + y) == SnakeCase(x) + "_" + SnakeCase(y)
  {
    SnakeBehind(x, y, |y|);
  }

  /** A text without a boundary inside: a run of capitals, then no further capital; a run of
      several is not followed by a lowercase letter. */
  ghost predicate OneWord(s: string) {
    exists k: nat :: k <= |s| && CapitalsFirst(s, k)
  }

  ghost predicate CapitalsFirst(s: string, k: nat)
    requires k <= |s|
  {
    && (forall i | 0 <= i < |s| :: IsUpper(s[i]) <==> i < k)
    && (1 < k < |s| ==> !IsLower(s[k]))
  }

  lemma NoStart(s: string, i: nat)
    requires OneWord(s) && i < |s|
    ensures !WordStart(s, i)
  {
    var k: nat :| k <= |s| && CapitalsFirst(s, k);
    if 0 < i < k { assert IsUpper(s[i - 1]); }
    if i + 1 < |s| && i + 1 < k { assert IsUpper(s[i + 1]); }
  }

  lemma {:induction false} SnakeLowers(s: string, n: nat)
    requires OneWord(s) && n <= |s|
    ensures SnakeUpTo(s, n) == Lower(s[..n])
  {
    if n > 0 {
      SnakeLowers(s, n - 1);
      NoStart(s, n - 1);
      assert s[..n] == s[..n - 1] + [s[n - 1]];
    }
  }

  /** Such a text is only lowercased. */
  lemma SnakeOfOneWord(s: string)
    requires OneWord(s)
    ensures SnakeCase(s) == Lower(s)
  {
    SnakeLowers(s, |s|);
    assert s[..|s|] == s;
  }

  /** A run of capitals in front of a capitalised word is a word of its own, as in `XMLHttp`. */
  lemma AcronymThenWord(a: string, w: string)
    requires a != [] && (forall i | 0 <= i < |a| :: IsUpper(a[i]))
    requires |w| > 1 && IsUpper(w[0]) && (forall i | 1 <= i < |w| :: !IsUpper(w[i])) && IsLower(w[1])
    ensures SnakeCase(a + w) == Lower(a) + "_" + Lower(w)
  {
    SnakeCuts(a, w);
    assert CapitalsFirst(a, |a|) && CapitalsFirst(w, 1);
    SnakeOfOneWord(a);
    SnakeOfOneWord(w);
  }

  // ----- Every name is cut into such texts -----

  function JoinWords(words: seq<string>): string {
    if words == [] then []
    else if |words| == 1 then Lower(words[0])
    else Lower(words[0]) + "_" + JoinWords(words[1..])
  }

  /** Words without a boundary inside, with a boundary between each and all that follows. */
  ghost predicate WordsOf(words: seq<string>) {
    words != [] ==>
      && words[0] != [] && OneWord(words[0])
      && (|words| > 1 ==> Boundary(words[0], Concat(words[1..])))
      && WordsOf(words[1..])
  }

  /** A name made of words is written as the words, lowercased and joined by underscores. */
  lemma {:induction false} SnakeOfWords(words: seq<string>)
    requires WordsOf(words)
    ensures SnakeCase(Concat(words)) == JoinWords(words)
  {
    if words != [] {
      SnakeOfOneWord(words[0]);
      SnakeOfWords(words[1..]);
      if |words| == 1 {
        assert Concat(words) == words[0] + [] && words[0] + [] == words[0];
      } else {
        SnakeCuts(words[0], Concat(words[1..]));
      }
    }
  }

  /** And every name is made of words. */
  lemma {:induction false} EveryNameHasWords(s: string) returns (words: seq<string>)
    ensures WordsOf(words) && Concat(words) == s
    decreases |s|
  {
    if s == [] {
      words := [];
    } else {
      var n := FirstCut(s);
      var rest := EveryNameHasWords(s[n..]);
      words := [s[..n]] + rest;
      assert words[1..] == rest;
      assert s == s[..n] + s[n..];
      if rest == [] { assert Concat(rest) == []; }
    }
  }

  /** The length of the first word. */
  lemma FirstCut(s: string) returns (n: nat)
    requires s != []
    ensures 1 <= n <= |s| && OneWord(s[..n]) && (n < |s| ==> Boundary(s[..n], s[n..]))
  {
    var k := 0;
    while k < |s| && IsUpper(s[k])
      invariant k <= |s| && forall i | 0 <= i < k :: IsUpper(s[i])
    {
      k := k + 1;
    }
    if 1 < k < |s| && IsLower(s[k]) {
      n := k - 1;
      assert CapitalsFirst(s[..n], n);
    } else {
      n := k;
      while n < |s| && !IsUpper(s[n])
        invariant k <= n <= |s| && forall i | k <= i < n :: !IsUpper(s[i])
      {
        n := n + 1;
      }
      assert CapitalsFirst(s[..n], k);
    }
  }
}
