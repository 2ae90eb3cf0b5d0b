/** ABI symbols (src/codegen/naming.rs): sanitising a path component with its shrinking
    underscore loop, and joining components into one identifier. */
module Symbols {
  import opened Text

  predicate IsIdentifierChar(c: char) { IsAlphanumeric(c) || c == '_' }

  predicate IsAsciiIdentifier(name: string) {
    && name != []
    && (IsUpper(name[0]) || IsLower(name[0]) || name[0] == '_')
    && forall i | 1 <= i < |name| :: IsIdentifierChar(name[i])
  }

  // ----- Specification -----

  function SanitizeChar(c: char): char { if IsIdentifierChar(c) then ToLower(c) else '_' }

  function SanitizeChars(s: string): (r: string)
    ensures |r| == |s| && forall i | 0 <= i < |s| :: r[i] == SanitizeChar(s[i])
  {
    if s == [] then [] else [SanitizeChar(s[0])] + SanitizeChars(s[1..])
  }

  /** Every run of underscores becomes one. */
  function CollapseRuns(s: string): string {
    if |s| < 2 then s
    else if s[0] == '_' && s[1] == '_' then CollapseRuns(s[1..])
    else [s[0]] + CollapseRuns(s[1..])
  }

  function TrimUnderscores(s: string): string { TrimEndChar(TrimStartChar(s, '_'), '_') }

  function GuardDigit(s: string): string { if s != [] && IsDigit(s[0]) then "_" + s else s }

  function Core(s: string): string { TrimUnderscores(CollapseRuns(SanitizeChars(s))) }

  function Sanitize(s: string): string { GuardDigit(Core(s)) }

  function Part(s: string, first: bool): string {
    if first then Sanitize(s) else TrimStartChar(Sanitize(s), '_')
  }

  function AllParts(components: seq<string>): seq<string> {
    seq(|components|, i requires 0 <= i < |components| => Part(components[i], i == 0))
  }

  /** Empty parts are left out. */
  function Append(parts: seq<string>, part: string): seq<string> {
    if part == [] then parts else parts + [part]
  }

  function Nonempty(parts: seq<string>): seq<string> {
    if parts == [] then [] else Append(Nonempty(parts[..|parts| - 1]), parts[|parts| - 1])
  }

  function AbiSymbol(components: seq<string>): string {
    var parts := Nonempty(AllParts(components));
    var symbol := Join(parts, "_");
    if symbol != [] && IsDigit(symbol[0]) then Join(["_"] + parts, "_") else symbol
  }

  // ----- The operations -----

  method SanitizeSymbolComponent(name: string) returns (result: string)
    ensures result == Sanitize(name)
  {
    var sanitized := "";
    for i := 0 to |name|
      invariant sanitized == SanitizeChars(name)[..i]
    {
      if IsAlphanumeric(name[i]) || name[i] == '_' {
        sanitized := sanitized + [ToLower(name[i])];
      } else {
        sanitized := sanitized + ['_'];
      }
    }
    assert SanitizeChars(name)[..|name|] == SanitizeChars(name);
    while Contains(sanitized, "__")
      invariant CollapseRuns(sanitized) == CollapseRuns(SanitizeChars(name))
      decreases |sanitized|
    {
      ReplaceCollapses(sanitized);
      ReplaceShrinks(sanitized);
      sanitized := Replace(sanitized, "__", "_");
    }
    NothingToCollapse(sanitized);
    sanitized := TrimUnderscores(sanitized);
    if sanitized != "" && IsDigit(sanitized[0]) {
      result := "_" + sanitized;
    } else {
      result := sanitized;
    }
  }

  /** The loop body: every component but the first loses its leading underscores. */
  method SanitizePart(component: string, first: bool) returns (part: string)
    ensures part == Part(component, first)
  {
    part := SanitizeSymbolComponent(component);
    if !first {
      part := TrimStartChar(part, '_');
    }
  }

  lemma NextPart(parts: seq<string>, idx: nat)
    requires idx < |parts|
    ensures Nonempty(parts[..idx + 1]) == Append(Nonempty(parts[..idx]), parts[idx])
  {
    assert parts[..idx + 1][..idx] == parts[..idx];
  }

  method NonemptyParts(components: seq<string>) returns (parts: seq<string>)
    ensures parts == Nonempty(AllParts(components))
  {
    parts := [];
    ghost var all := AllParts(components);
    for idx := 0 to |components|
      invariant parts == Nonempty(all[..idx])
    {
      var sanitized := SanitizePart(components[idx], idx == 0);
      NextPart(all, idx);
      if sanitized != "" {
        parts := parts + [sanitized];
      }
    }
    assert all[..|components|] == all;
  }

  method AbiSymbolFromComponents(components: seq<string>) returns (symbol: string)
    ensures symbol == AbiSymbol(components)
  {
    var parts := NonemptyParts(components);
    symbol := Join(parts, "_");
    if symbol != "" && IsDigit(symbol[0]) {
      parts := ["_"] + parts;
      symbol := Join(parts, "_");
    }
  }

  // ----- The collapse loop -----

  predicate Starts(s: string) { s != [] && s[0] == '_' }

  lemma CollapseCons(c: char, s: string)
    ensures CollapseRuns([c] + s) == if c == '_' && Starts(s) then CollapseRuns(s) else [c] + CollapseRuns(s)
  {
    assert ([c] + s)[1..] == s;
    if s == [] { assert [c] + [] == [c]; }
  }

  lemma StartsDoubled(s: string)
    requires s != []
    ensures "__" <= s <==> |s| >= 2 && s[0] == '_' && s[1] == '_'
  {
    if |s| >= 2 {
      assert s[..2] == [s[0], s[1]];
    }
  }

  lemma {:induction false} ReplaceFirst(s: string)
    ensures (Replace(s, "__", "_") == [] <==> s == []) && (Starts(Replace(s, "__", "_")) <==> Starts(s))
    decreases |s|
  {
    if s != [] {
      ReplaceStep(s, "__", "_");
      StartsDoubled(s);
    }
  }

  /** One round of the loop keeps what the runs collapse to. */
  lemma {:induction false} ReplaceCollapses(s: string)
    ensures CollapseRuns(Replace(s, "__", "_")) == CollapseRuns(s)
    decreases |s|
  {
    if s != [] {
      ReplaceStep(s, "__", "_");
      StartsDoubled(s);
      if "__" <= s {
        var rest := s[2..];
        ReplaceCollapses(rest);
        ReplaceFirst(rest);
        CollapseCons('_', Replace(rest, "__", "_"));
        CollapseCons('_', rest);
        assert s[1..] == ['_'] + rest && s == ['_'] + s[1..];
        CollapseCons('_', s[1..]);
      } else {
        ReplaceCollapses(s[1..]);
        ReplaceFirst(s[1..]);
        CollapseCons(s[0], Replace(s[1..], "__", "_"));
        CollapseCons(s[0], s[1..]);
        assert s == [s[0]] + s[1..];
      }
    }
  }

  lemma {:induction false} ReplaceShrinks(s: string)
    ensures |Replace(s, "__", "_")| <= |s|
    ensures Contains(s, "__") ==> |Replace(s, "__", "_")| < |s|
    decreases |s|
  {
    if s != [] {
      ReplaceStep(s, "__", "_");
      if "__" <= s { ReplaceShrinks(s[2..]); } else { ReplaceShrinks(s[1..]); }
    }
  }

  lemma {:induction false} NothingToCollapse(s: string)
    requires !Contains(s, "__")
    ensures CollapseRuns(s) == s
  {
    if |s| >= 2 {
      StartsDoubled(s);
      NothingToCollapse(s[1..]);
    }
  }

  // ----- What sanitising yields -----

  predicate SanitizedChar(c: char) { IsLower(c) || IsDigit(c) || c == '_' }

  ghost predicate NoDoubled(s: string) {
    forall i, j | 0 <= i < j < |s| && j == i + 1 :: s[j] == '_' ==> s[i] != '_'
  }

  predicate SanitizedChars(s: string) {
    forall i | 0 <= i < |s| :: SanitizedChar(s[i])
  }

  /** Lowercase letters, digits and single underscores; none at the end; one at the start
      exactly in front of a digit. */
  ghost predicate IsSanitized(s: string) {
    && SanitizedChars(s) && NoDoubled(s)
    && (s != [] ==> s[|s| - 1] != '_' && !IsDigit(s[0]) && (s[0] == '_' ==> IsDigit(s[1])))
  }

  lemma {:induction false} CollapseIs(s: string)
    ensures NoDoubled(CollapseRuns(s))
    ensures (CollapseRuns(s) == [] <==> s == []) && (s != [] ==> CollapseRuns(s)[0] == s[0])
    ensures SanitizedChars(s) ==> SanitizedChars(CollapseRuns(s))
  {
    if |s| >= 2 { CollapseIs(s[1..]); }
  }

  lemma TrimIs(s: string)
    requires SanitizedChars(s) && NoDoubled(s)
    ensures var t := TrimUnderscores(s);
      SanitizedChars(t) && NoDoubled(t) && (t != [] ==> t[0] != '_' && t[|t| - 1] != '_')
  {
    var front := TrimStartChar(s, '_');
    TrimStartCharIs(s, '_');
    SliceKeeps(s, |s| - |front|, |s|, front);
    TrimTail(front);
  }

  lemma TrimTail(front: string)
    requires SanitizedChars(front) && NoDoubled(front) && (front != [] ==> front[0] != '_')
    ensures var t := TrimEndChar(front, '_');
      SanitizedChars(t) && NoDoubled(t) && (t != [] ==> t[0] != '_' && t[|t| - 1] != '_')
  {
    var t := TrimEndChar(front, '_');
    TrimEndCharIs(front, '_');
    SliceKeeps(front, 0, |t|, t);
  }

  lemma SliceKeeps(s: string, a: nat, b: nat, t: string)
    requires a <= b <= |s| && SanitizedChars(s) && t == s[a..b]
    ensures SanitizedChars(t) && (NoDoubled(s) ==> NoDoubled(t))
  {
    if NoDoubled(s) {
      forall i, j | 0 <= i < j < |t| && j == i + 1 && t[j] == '_' ensures t[i] != '_' {
        assert s[a + j] == t[j] && s[a + i] == t[i];
      }
    }
  }

  lemma GuardIs(t: string)
    requires SanitizedChars(t) && NoDoubled(t) && (t != [] ==> t[0] != '_' && t[|t| - 1] != '_')
    ensures IsSanitized(GuardDigit(t))
  {
    var r := GuardDigit(t);
    if r != t {
      assert forall i | 1 <= i < |r| :: r[i] == t[i - 1];
    }
  }

  lemma SanitizeIs(s: string)
    ensures IsSanitized(Sanitize(s))
  {
    CollapseIs(SanitizeChars(s));
    TrimIs(CollapseRuns(SanitizeChars(s)));
    GuardIs(TrimUnderscores(CollapseRuns(SanitizeChars(s))));
  }

  lemma {:induction false} CollapseNothing(s: string)
    requires NoDoubled(s)
    ensures CollapseRuns(s) == s
  {
    if |s| >= 2 { CollapseNothing(s[1..]); }
  }

  lemma {:induction false} TrimNothing(s: string)
    requires s != [] ==> s[0] != '_' && s[|s| - 1] != '_'
    ensures TrimUnderscores(s) == s
  {
  }

  lemma SanitizeCharsNothing(s: string)
    requires SanitizedChars(s)
    ensures SanitizeChars(s) == s
  {
  }

  lemma TrimGuarded(s: string)
    requires s != [] && s[0] == '_' && |s| > 1 && s[1] != '_' && s[|s| - 1] != '_'
    ensures TrimUnderscores(s) == s[1..]
  {
    assert TrimStartChar(s, '_') == TrimStartChar(s[1..], '_') == s[1..];
    TrimNothing(s[1..]);
  }

  lemma SanitizedStays(s: string)
    requires IsSanitized(s)
    ensures Sanitize(s) == s
  {
    SanitizeCharsNothing(s);
    CollapseNothing(s);
    if s != [] && s[0] == '_' {
      TrimGuarded(s);
      assert s == "_" + s[1..];
    } else {
      TrimNothing(s);
    }
  }

  /** The results of sanitising are exactly the texts it leaves alone. */
  lemma SanitizeFixpoints(s: string)
    ensures Sanitize(s) == s <==> IsSanitized(s)
    ensures Sanitize(Sanitize(s)) == Sanitize(s)
  {
    SanitizeIs(s);
    SanitizedStays(Sanitize(s));
    if IsSanitized(s) { SanitizedStays(s); }
  }

  /** Some character is an ASCII letter or digit. */
  predicate HasAlphanumeric(s: string) {
    s != [] && (IsAlphanumeric(s[0]) || HasAlphanumeric(s[1..]))
  }

  lemma {:induction false} HasAlphanumericIs(s: string)
    ensures HasAlphanumeric(s) <==> exists i | 0 <= i < |s| :: IsAlphanumeric(s[i])
  {
    if s != [] {
      HasAlphanumericIs(s[1..]);
      if i :| 0 <= i < |s[1..]| && IsAlphanumeric(s[1..][i]) { assert IsAlphanumeric(s[i + 1]); }
      if i :| 0 <= i < |s| && IsAlphanumeric(s[i]) {
        if i > 0 { assert IsAlphanumeric(s[1..][i - 1]); }
      }
    }
  }

  lemma {:induction false} SameAlphanumeric(a: string, b: string)
    requires |a| == |b| && forall i | 0 <= i < |a| :: IsAlphanumeric(a[i]) <==> IsAlphanumeric(b[i])
    ensures HasAlphanumeric(a) <==> HasAlphanumeric(b)
  {
    if a != [] { SameAlphanumeric(a[1..], b[1..]); }
  }

  lemma {:induction false} CollapseAlphanumeric(s: string)
    ensures HasAlphanumeric(CollapseRuns(s)) <==> HasAlphanumeric(s)
  {
    if |s| >= 2 {
      CollapseAlphanumeric(s[1..]);
      AlphanumericCons(s[0], s[1..]);
      AlphanumericCons(s[0], CollapseRuns(s[1..]));
      assert s == [s[0]] + s[1..];
    }
  }

  lemma AlphanumericCons(c: char, s: string)
    ensures HasAlphanumeric([c] + s) <==> IsAlphanumeric(c) || HasAlphanumeric(s)
  {
    assert ([c] + s)[1..] == s;
  }

  lemma TrimAlphanumeric(s: string)
    requires SanitizedChars(s)
    ensures HasAlphanumeric(s) <==> TrimUnderscores(s) != []
  {
    var front := TrimStartChar(s, '_');
    var core := TrimEndChar(front, '_');
    TrimStartCharIs(s, '_');
    TrimEndCharIs(front, '_');
    HasAlphanumericIs(s);
    if core != [] {
      assert core[0] == front[0] == s[|s| - |front|];
    }
    if i :| 0 <= i < |s| && IsAlphanumeric(s[i]) {
      assert s[i] == front[i - (|s| - |front|)];
    }
  }

  lemma TrimmedStart(s: string)
    ensures TrimUnderscores(s) != [] ==> TrimUnderscores(s)[0] != '_'
  {
    TrimStartCharIs(s, '_');
    TrimEndCharIs(TrimStartChar(s, '_'), '_');
  }

  lemma CoreNonempty(s: string)
    ensures Core(s) != [] <==> HasAlphanumeric(s)
    ensures Core(s) != [] ==> Core(s)[0] != '_'
  {
    var chars := SanitizeChars(s);
    SameAlphanumeric(chars, s);
    CollapseAlphanumeric(chars);
    CollapseIs(chars);
    TrimAlphanumeric(CollapseRuns(chars));
    TrimmedStart(CollapseRuns(chars));
  }

  /** A component leaves something exactly when it has a letter or digit. */
  lemma SanitizeNonempty(s: string)
    ensures Sanitize(s) != [] <==> HasAlphanumeric(s)
    ensures TrimStartChar(Sanitize(s), '_') != [] <==> HasAlphanumeric(s)
  {
    CoreNonempty(s);
    GuardLeaves(Core(s));
  }

  lemma GuardLeaves(t: string)
    requires t != [] ==> t[0] != '_'
    ensures GuardDigit(t) != [] <==> t != []
    ensures TrimStartChar(GuardDigit(t), '_') == t
  {
    if t != [] && IsDigit(t[0]) {
      assert ("_" + t)[1..] == t;
      assert TrimStartChar(t, '_') == t;
    }
  }

  // ----- ABI symbols -----

  predicate PartsGood(parts: seq<string>) {
    forall k | 0 <= k < |parts| :: parts[k] != [] && SanitizedChars(parts[k])
  }

  lemma PartIs(s: string, first: bool)
    ensures SanitizedChars(Part(s, first))
  {
    SanitizeIs(s);
    TrimFront(Sanitize(s));
  }

  lemma TrimFront(r: string)
    requires SanitizedChars(r)
    ensures SanitizedChars(TrimStartChar(r, '_'))
  {
    var t := TrimStartChar(r, '_');
    TrimStartCharIs(r, '_');
    SliceKeeps(r, |r| - |t|, |r|, t);
  }

  lemma {:induction false} NonemptyGood(parts: seq<string>)
    requires forall k | 0 <= k < |parts| :: SanitizedChars(parts[k])
    ensures PartsGood(Nonempty(parts))
  {
    if parts != [] {
      NonemptyGood(parts[..|parts| - 1]);
      AppendGood(Nonempty(parts[..|parts| - 1]), parts[|parts| - 1]);
    }
  }

  lemma {:induction false} NonemptyLeft(parts: seq<string>)
    ensures Nonempty(parts) != [] <==> exists k | 0 <= k < |parts| :: parts[k] != []
  {
    if parts != [] {
      var front := parts[..|parts| - 1];
      NonemptyLeft(front);
      if k :| 0 <= k < |front| && front[k] != [] { assert parts[k] != []; }
      if k :| 0 <= k < |parts| && parts[k] != [] {
        if k < |front| { assert front[k] != []; }
      }
    }
  }

  ghost predicate AnyAlphanumeric(components: seq<string>) {
    exists k | 0 <= k < |components| :: HasAlphanumeric(components[k])
  }

  lemma PartsAre(components: seq<string>)
    ensures var parts := Nonempty(AllParts(components));
            PartsGood(parts) && (parts != [] <==> AnyAlphanumeric(components))
  {
    var all := AllParts(components);
    forall k | 0 <= k < |all|
      ensures SanitizedChars(all[k]) && (all[k] != [] <==> HasAlphanumeric(components[k])) {
      PartIs(components[k], k == 0);
      PartNonempty(components[k], k == 0);
    }
    NonemptyGood(all);
    NonemptyLeft(all);
  }

  lemma PartNonempty(s: string, first: bool)
    ensures Part(s, first) != [] <==> HasAlphanumeric(s)
  {
    SanitizeNonempty(s);
  }

  lemma AppendGood(parts: seq<string>, part: string)
    requires PartsGood(parts) && SanitizedChars(part)
    ensures PartsGood(Append(parts, part))
  {
    assert forall k | 0 <= k < |parts| :: Append(parts, part)[k] == parts[k];
  }

  lemma {:induction false} JoinGood(parts: seq<string>)
    requires PartsGood(parts)
    ensures (Join(parts, "_") != [] <==> parts != [])
    ensures parts != [] ==> Join(parts, "_")[0] == parts[0][0]
    ensures SanitizedChars(Join(parts, "_"))
  {
    if |parts| > 1 { JoinGood(parts[1..]); }
  }

  lemma SanitizedIsIdentifier(s: string)
    requires s != [] && SanitizedChars(s) && !IsDigit(s[0])
    ensures IsAsciiIdentifier(s)
  {
  }

  /** The symbol is an identifier exactly when some component has a letter or digit, and empty
      otherwise. */
  lemma AbiSymbolIs(components: seq<string>)
    ensures AbiSymbol(components) != [] <==> AnyAlphanumeric(components)
    ensures AbiSymbol(components) != [] ==> IsAsciiIdentifier(AbiSymbol(components))
  {
    var parts := Nonempty(AllParts(components));
    PartsAre(components);
    JoinGood(parts);
    if parts != [] {
      var symbol := Join(parts, "_");
      GuardedParts(parts);
      if IsDigit(symbol[0]) {
        SanitizedIsIdentifier(Join(["_"] + parts, "_"));
      } else {
        SanitizedIsIdentifier(symbol);
      }
    }
  }

  lemma GuardedParts(parts: seq<string>)
    requires PartsGood(parts) && parts != []
    ensures var s := Join(["_"] + parts, "_"); s != [] && s[0] == '_' && SanitizedChars(s)
  {
    var all := ["_"] + parts;
    assert forall k | 1 <= k < |all| :: all[k] == parts[k - 1];
    JoinGood(all);
  }
}
