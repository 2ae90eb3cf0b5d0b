/** Symbols as the lowercased words of their components, joined by underscores. */
module SymbolWords {
  import opened Text
  import opened Symbols

  /** The longest runs of ASCII letters and digits, lowercased. */
  function Words(s: string): (r: seq<string>)
    ensures s != [] && IsAlphanumeric(s[0]) ==> r != []
  {
    if s == [] then []
    else
      var rest := Words(s[1..]);
      if !IsAlphanumeric(s[0]) then rest
      else if |s| > 1 && IsAlphanumeric(s[1]) then [[ToLower(s[0])] + rest[0]] + rest[1..]
      else [[ToLower(s[0])]] + rest
  }

  predicate DigitFirst(words: seq<string>) { words != [] && words[0] != [] && IsDigit(words[0][0]) }

  ghost predicate PlainWords(words: seq<string>) {
    forall i | 0 <= i < |words| ::
      words[i] != [] && forall j | 0 <= j < |words[i]| :: words[i][j] != '_'
  }

  lemma {:induction false} WordsArePlain(s: string)
    ensures PlainWords(Words(s))
  {
    if s != [] { WordsArePlain(s[1..]); }
  }

  // ----- The collapsed text -----

  function Collapsed(s: string): string { CollapseRuns(SanitizeChars(s)) }

  lemma CollapsedStep(s: string)
    requires s != []
    ensures Collapsed(s)
         == if IsAlphanumeric(s[0]) then [ToLower(s[0])] + Collapsed(s[1..])
            else if |s| > 1 && !IsAlphanumeric(s[1]) then Collapsed(s[1..])
            else "_" + Collapsed(s[1..])
  {
    var rest := SanitizeChars(s[1..]);
    assert SanitizeChars(s) == [SanitizeChar(s[0])] + rest;
    CollapseCons(SanitizeChar(s[0]), rest);
    assert Starts(rest) <==> |s| > 1 && !IsAlphanumeric(s[1]);
  }

  predicate Ends(s: string) { s != [] && !IsAlphanumeric(s[|s| - 1]) }

  /** The words with an underscore for what comes before the first and behind the last. */
  function Framed(s: string): string {
    (if s != [] && !IsAlphanumeric(s[0]) then "_" else "") + Join(Words(s), "_")
    + (if Words(s) != [] && Ends(s) then "_" else "")
  }

  lemma JoinPush(c: char, words: seq<string>)
    requires words != []
    ensures Join([[c] + words[0]] + words[1..], "_") == [c] + Join(words, "_")
  {
    var pushed := [[c] + words[0]] + words[1..];
    assert pushed[1..] == words[1..];
  }

  lemma JoinCons(word: string, words: seq<string>)
    requires words != []
    ensures Join([word] + words, "_") == word + "_" + Join(words, "_")
  {
    assert ([word] + words)[1..] == words;
  }

  lemma FramedInWord(s: string)
    requires |s| > 1 && IsAlphanumeric(s[0]) && IsAlphanumeric(s[1])
    ensures Framed(s) == [ToLower(s[0])] + Framed(s[1..])
  {
    JoinPush(ToLower(s[0]), Words(s[1..]));
  }

  lemma FramedAtEnd(s: string)
    requires s != [] && IsAlphanumeric(s[0]) && (|s| > 1 ==> !IsAlphanumeric(s[1]))
    ensures Framed(s) == [ToLower(s[0])] + Framed(s[1..])
  {
    var rest := s[1..];
    if Words(rest) == [] {
      assert Join(Words(s), "_") == [ToLower(s[0])];
      if rest != [] { NoWords(rest); }
    } else {
      JoinCons([ToLower(s[0])], Words(rest));
    }
  }

  lemma {:induction false} NoWords(s: string)
    requires Words(s) == [] && s != []
    ensures Ends(s)
  {
    if |s| > 1 { NoWords(s[1..]); }
  }

  lemma {:induction false} CollapsedIsFramed(s: string)
    ensures Collapsed(s) == Framed(s)
  {
    if s != [] {
      CollapsedStep(s);
      CollapsedIsFramed(s[1..]);
      if IsAlphanumeric(s[0]) {
        if |s| > 1 && IsAlphanumeric(s[1]) { FramedInWord(s); } else { FramedAtEnd(s); }
      } else if |s| == 1 {
        assert Collapsed(s[1..]) == [];
      }
    }
  }

  lemma {:induction false} JoinEnds(words: seq<string>)
    requires PlainWords(words) && words != []
    ensures var j := Join(words, "_"); j != [] && j[0] == words[0][0] && j[0] != '_' && j[|j| - 1] != '_'
  {
    if |words| > 1 { JoinEnds(words[1..]); }
  }

  lemma TrimFramed(before: string, core: string, after: string)
    requires (before == "" || before == "_") && (after == "" || after == "_")
    requires core != [] ==> core[0] != '_' && core[|core| - 1] != '_'
    requires core == [] ==> after == ""
    ensures TrimUnderscores(before + core + after) == core
  {
    var s := core + after;
    if before == "_" {
      assert (before + core + after)[1..] == s;
    } else {
      assert before + core + after == s;
    }
    assert TrimStartChar(s, '_') == s && TrimEndChar(core, '_') == core;
    if after == "_" { assert s[..|s| - 1] == core; } else { assert s == core; }
  }

  /** The text between the underscores of a sanitised component. */
  lemma CoreIsWords(s: string)
    ensures Core(s) == Join(Words(s), "_")
    ensures Words(s) != [] ==> Core(s) != [] && Core(s)[0] != '_' && (IsDigit(Core(s)[0]) <==> DigitFirst(Words(s)))
  {
    CollapsedIsFramed(s);
    WordsArePlain(s);
    if Words(s) != [] { JoinEnds(Words(s)); }
    TrimFramed(if s != [] && !IsAlphanumeric(s[0]) then "_" else "", Join(Words(s), "_"),
               if Words(s) != [] && Ends(s) then "_" else "");
  }

  /** A sanitised component is its words joined by underscores, behind one more underscore when
      the first word starts with a digit. */
  lemma SanitizedWords(s: string)
    ensures Sanitize(s)
         == (if DigitFirst(Words(s)) then "_" else "") + Join(Words(s), "_")
  {
    WordsArePlain(s);
    CoreIsWords(s);
  }

  // ----- Whole symbols -----

  function AllWords(components: seq<string>): seq<string> {
    if components == [] then []
    else AllWords(components[..|components| - 1]) + Words(components[|components| - 1])
  }

  lemma {:induction false} JoinAppend(a: seq<string>, b: seq<string>)
    requires a != [] && b != []
    ensures Join(a + b, "_") == Join(a, "_") + "_" + Join(b, "_")
  {
    if |a| == 1 {
      assert a + b == [a[0]] + b;
      JoinCons(a[0], b);
    } else {
      assert a + b == [a[0]] + (a[1..] + b) && a == [a[0]] + a[1..];
      JoinAppend(a[1..], b);
      JoinCons(a[0], a[1..] + b);
      JoinCons(a[0], a[1..]);
    }
  }

  lemma LaterPart(s: string)
    ensures Part(s, false) == Join(Words(s), "_")
    ensures Part(s, false) == [] <==> Words(s) == []
  {
    CoreIsWords(s);
    Unguarded(Core(s));
  }

  lemma Unguarded(core: string)
    requires core != [] ==> core[0] != '_'
    ensures TrimStartChar(GuardDigit(core), '_') == core
  {
    assert TrimStartChar(core, '_') == core;
    if core != [] && IsDigit(core[0]) { assert ("_" + core)[1..] == core; }
  }

  /** The underscore that a first component with a leading digit brings. */
  function Guard(components: seq<string>): string {
    if components != [] && DigitFirst(Words(components[0])) then "_" else ""
  }

  lemma FirstPart(components: seq<string>)
    requires components != [] && PlainWords(Words(components[0]))
    ensures Part(components[0], true) == Guard(components) + Join(Words(components[0]), "_")
    ensures Part(components[0], true) == [] <==> Words(components[0]) == []
  {
    SanitizedWords(components[0]);
    CoreIsWords(components[0]);
  }

  ghost predicate Joined(components: seq<string>, parts: seq<string>, words: seq<string>) {
    && (parts == [] <==> words == [])
    && (parts != [] ==> Join(parts, "_") == Guard(components) + Join(words, "_"))
  }

  lemma GuardedAppend(guard: string, words: seq<string>, more: seq<string>, parts: seq<string>, part: string)
    requires words != [] && more != [] && parts != []
    requires Join(parts, "_") == guard + Join(words, "_") && part == Join(more, "_")
    ensures Join(parts + [part], "_") == guard + Join(words + more, "_")
  {
    JoinAppend(parts, [part]);
    JoinAppend(words, more);
    Associate(guard, Join(words, "_"), "_" + part);
    Associate(guard + Join(words, "_"), "_", part);
    Associate(Join(words, "_"), "_", part);
  }

  lemma JoinedNext(components: seq<string>, parts: seq<string>, words: seq<string>, s: string)
    requires Joined(components, parts, words) && (words == [] ==> Guard(components) == "")
    ensures Joined(components, Append(parts, Part(s, false)), words + Words(s))
  {
    var part := Part(s, false);
    LaterPart(s);
    if part == [] {
      assert words + Words(s) == words;
    } else if parts == [] {
      assert parts + [part] == [part] && words + Words(s) == Words(s);
      assert Guard(components) + Join(Words(s), "_") == Join(Words(s), "_");
    } else {
      GuardedAppend(Guard(components), words, Words(s), parts, part);
    }
  }

  lemma GuardNeedsWords(components: seq<string>, n: nat)
    requires 1 <= n <= |components| && AllWords(components[..n]) == []
    ensures Guard(components) == ""
  {
    AllWordsStart(components, n);
  }

  lemma {:induction false} AllWordsStart(components: seq<string>, n: nat)
    requires 1 <= n <= |components|
    ensures Words(components[0]) <= AllWords(components[..n])
  {
    var front := components[..n];
    assert front[..n - 1] == components[..n - 1];
    if n == 1 {
      assert AllWords(front[..0]) == [];
      assert AllWords(front) == [] + Words(components[0]);
    } else {
      AllWordsStart(components, n - 1);
    }
  }

  lemma {:induction false} PartsJoined(components: seq<string>, n: nat)
    requires 1 <= n <= |components|
    ensures Joined(components, Nonempty(AllParts(components)[..n]), AllWords(components[..n]))
  {
    var all := AllParts(components);
    NextPart(all, n - 1);
    assert components[..n][..n - 1] == components[..n - 1];
    if n == 1 {
      WordsArePlain(components[0]);
      FirstPart(components);
      assert Nonempty(all[..0]) == [] && AllWords(components[..0]) == [];
      assert [] + [all[0]] == [all[0]] && [] + Words(components[0]) == Words(components[0]);
    } else {
      PartsJoined(components, n - 1);
      if AllWords(components[..n - 1]) == [] { GuardNeedsWords(components, n - 1); }
      JoinedNext(components, Nonempty(all[..n - 1]), AllWords(components[..n - 1]), components[n - 1]);
    }
  }

  lemma {:induction false} AllWordsPlain(components: seq<string>)
    ensures PlainWords(AllWords(components))
  {
    if components != [] {
      AllWordsPlain(components[..|components| - 1]);
      WordsArePlain(components[|components| - 1]);
    }
  }

  lemma SymbolJoined(components: seq<string>)
    requires components != []
    ensures Joined(components, Nonempty(AllParts(components)), AllWords(components))
    ensures Words(components[0]) <= AllWords(components)
  {
    var n := |components|;
    PartsJoined(components, n);
    AllWordsStart(components, n);
    assert AllParts(components)[..n] == AllParts(components) && components[..n] == components;
  }

  lemma LeadOf(guard: string, words: seq<string>, parts: seq<string>, symbol: string)
    requires PlainWords(words) && words != [] && parts != []
    requires symbol == Join(parts, "_") == guard + Join(words, "_") && (guard == "" || guard == "_")
    ensures (if symbol != [] && IsDigit(symbol[0]) then Join(["_"] + parts, "_") else symbol)
         == (if guard == "_" then "_" else if DigitFirst(words) then "__" else "") + Join(words, "_")
  {
    JoinEnds(words);
    assert "" + Join(words, "_") == Join(words, "_");
    if guard == "" && DigitFirst(words) {
      JoinCons("_", parts);
      assert "_" + "_" == "__";
    }
  }

  /** A symbol is the words of its components joined by underscores. In front of a digit comes
      one underscore when the first component starts with it, two when a later one does. */
  lemma SymbolIsWords(components: seq<string>)
    ensures var words := AllWords(components);
      AbiSymbol(components)
      == (if !DigitFirst(words) then "" else if Words(components[0]) != [] then "_" else "__") + Join(words, "_")
  {
    var words := AllWords(components);
    AllWordsPlain(components);
    if components != [] {
      var parts := Nonempty(AllParts(components));
      SymbolJoined(components);
      if words != [] {
        if Words(components[0]) != [] { assert words[0] == Words(components[0])[0]; }
        LeadOf(Guard(components), words, parts, Join(parts, "_"));
      }
    }
  }
}
