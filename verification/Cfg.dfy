/** Reading `#[cfg(...)]` conditions (src/codegen/cfg.rs): the depth-counting list
    splitter, the recursive feature collector, and the condition language they read. */
module Cfg {
  import opened Text

  // ----- The condition language -----

  /** How a group is printed: a token stream writes `any (a , b)`, hand-written and
      merged conditions `any(a, b)`, and both may keep a comma after the last element. Every
      node has its own layout, so mixtures are covered. */
  datatype Layout = Layout(gap: bool, pad: bool, comma: bool)

  const TIGHT := Layout(false, false, false)

  datatype Condition =
    | Feature(name: string)
    | Other(text: string)
    | Any(layout: Layout, kids: seq<Condition>)
    | All(layout: Layout, kids: seq<Condition>)
    | Not(layout: Layout, kid: Condition)

  function Open(layout: Layout): string { if layout.gap then " (" else "(" }

  function Separator(layout: Layout): string { if layout.pad then " , " else ", " }

  /** What follows the last element. */
  function Trail(layout: Layout): string {
    if !layout.comma then "" else if layout.pad then " ," else ","
  }

  function Print(c: Condition): string
    decreases c, 0
  {
    match c
    case Feature(name) => "feature = \"" + name + "\""
    case Other(text) => text
    case Any(l, kids) => "any" + Open(l) + PrintList(kids, l) + ")"
    case All(l, kids) => "all" + Open(l) + PrintList(kids, l) + ")"
    case Not(l, kid) => "not" + Open(l) + PrintLast(kid, l) + ")"
  }

  function PrintLast(c: Condition, l: Layout): string
    decreases c, 1
  {
    Print(c) + Trail(l)
  }

  function PrintList(kids: seq<Condition>, l: Layout): string
    decreases kids, 0
  {
    if kids == [] then []
    else if |kids| == 1 then PrintLast(kids[0], l)
    else Print(kids[0]) + Separator(l) + PrintList(kids[1..], l)
  }

  /** A set of enabled features and a set of other predicates (`test`, `unix`, ...) that hold. */
  datatype Valuation = Valuation(features: iset<string>, others: iset<string>)

  ghost predicate Eval(c: Condition, v: Valuation) {
    match c
    case Feature(name) => name in v.features
    case Other(text) => text in v.others
    case Any(_, kids) => exists i | 0 <= i < |kids| :: Eval(kids[i], v)
    case All(_, kids) => forall i | 0 <= i < |kids| :: Eval(kids[i], v)
    case Not(_, kid) => !Eval(kid, v)
  }

  /** The features that occur in a condition, at any nesting. */
  function FeatureSet(c: Condition): set<string> {
    match c
    case Feature(name) => {name}
    case Other(_) => {}
    case Any(_, kids) => FeatureUnion(kids)
    case All(_, kids) => FeatureUnion(kids)
    case Not(_, kid) => FeatureSet(kid)
  }

  function FeatureUnion(kids: seq<Condition>): set<string> {
    set k, f | k in kids && f in FeatureSet(k) :: f
  }

  lemma FeatureUnionSnoc(kids: seq<Condition>, k: Condition)
    ensures FeatureUnion(kids + [k]) == FeatureUnion(kids) + FeatureSet(k)
  {
    assert forall x :: x in kids + [k] <==> x in kids || x == k;
  }

  predicate Word(s: string) {
    forall i | 0 <= i < |s| :: s[i] != '(' && s[i] != ')' && s[i] != ','
  }

  /** Feature names and other predicates hold no parenthesis and no comma. */
  predicate WellFormed(c: Condition) {
    match c
    case Feature(name) => Word(name)
    case Other(text) =>
      && Word(text) && text != [] && FeatureName(text).None?
      && !IsWhitespace(text[0]) && !IsWhitespace(text[|text| - 1])
    case Any(_, kids) => forall i | 0 <= i < |kids| :: WellFormed(kids[i])
    case All(_, kids) => forall i | 0 <= i < |kids| :: WellFormed(kids[i])
    case Not(_, kid) => WellFormed(kid)
  }

  // ----- The reader -----

  /** `strip_prefix(prefix).and_then(|s| s.strip_suffix(suffix))` */
  function Between(s: string, prefix: string, suffix: string): (r: Option<string>)
    ensures r.Some? <==> |prefix| + |suffix| <= |s| && prefix <= s && EndsWith(s, suffix)
    ensures r.Some? ==> r.value == s[|prefix|..|s| - |suffix|]
  {
    if prefix <= s && EndsWith(s[|prefix|..], suffix) then Some(s[|prefix|..|s| - |suffix|]) else None
  }

  function FeatureName(s: string): Option<string> { Between(s, "feature = \"", "\"") }

  function Normalize(s: string): (r: string)
    ensures |r| <= |s|
  {
    TrimStartSuffix(s);
    SqueezeShrinks(Trim(s));
    Replace(Trim(s), " (", "(")
  }

  lemma SqueezeShrinks(s: string)
    ensures |Replace(s, " (", "(")| <= |s|
    decreases |s|
  {
    if s != [] {
      if " (" <= s { SqueezeShrinks(s[2..]); } else { SqueezeShrinks(s[1..]); }
    }
  }

  function Piece(current: string): seq<string> {
    if Trim(current) == [] then [] else [Trim(current)]
  }

  /** The splitter's run over `s` from a given parenthesis depth and collected text. */
  function SplitFrom(s: string, depth: nat, current: string): seq<string> {
    if s == [] then Piece(current)
    else if s[0] == '(' then SplitFrom(s[1..], depth + 1, current + [s[0]])
    else if s[0] == ')' then SplitFrom(s[1..], if depth == 0 then 0 else depth - 1, current + [s[0]])
    else if s[0] == ',' && depth == 0 then Piece(current) + SplitFrom(s[1..], depth, [])
    else SplitFrom(s[1..], depth, current + [s[0]])
  }

  lemma SplitFromShrinks(s: string, depth: nat, current: string)
    ensures forall i | 0 <= i < |SplitFrom(s, depth, current)| ::
              |SplitFrom(s, depth, current)[i]| <= |current| + |s|
  {
    TrimStartSuffix(current);
  }

  function CfgList(s: string): seq<string> {
    SplitFrom(s, 0, [])
  }

  /** The condition that a text denotes, as the collector takes it apart. */
  function Read(s: string): Condition
    decreases |s|
  {
    var n := Normalize(s);
    if FeatureName(n).Some? then Feature(FeatureName(n).value)
    else if Between(n, "any(", ")").Some? then
      var parts := CfgList(Between(n, "any(", ")").value);
      SplitFromShrinks(Between(n, "any(", ")").value, 0, []);
      Any(TIGHT, seq(|parts|, i requires 0 <= i < |parts| => Read(parts[i])))
    else if Between(n, "all(", ")").Some? then
      var parts := CfgList(Between(n, "all(", ")").value);
      SplitFromShrinks(Between(n, "all(", ")").value, 0, []);
      All(TIGHT, seq(|parts|, i requires 0 <= i < |parts| => Read(parts[i])))
    else if Between(n, "not(", ")").Some? then
      var inner := Between(n, "not(", ")").value;
      TrimStartSuffix(inner);
      Not(TIGHT, Read(Trim(inner)))
    else Other(n)
  }

  function ReadAll(parts: seq<string>): seq<Condition> {
    seq(|parts|, i requires 0 <= i < |parts| => Read(parts[i]))
  }

  /** What a group denotes, element by element. */
  lemma ReadGroup(s: string)
    requires FeatureName(Normalize(s)).None?
    ensures Between(Normalize(s), "any(", ")").Some? ==>
              Read(s) == Any(TIGHT, ReadAll(CfgList(Between(Normalize(s), "any(", ")").value)))
    ensures Between(Normalize(s), "any(", ")").None? && Between(Normalize(s), "all(", ")").Some? ==>
              Read(s) == All(TIGHT, ReadAll(CfgList(Between(Normalize(s), "all(", ")").value)))
  {
    if Read(s).Any? {
      assert Read(s).kids == ReadAll(CfgList(Between(Normalize(s), "any(", ")").value));
    } else if Read(s).All? {
      assert Read(s).kids == ReadAll(CfgList(Between(Normalize(s), "all(", ")").value));
    }
  }

  method ParseCfgList(s: string) returns (result: seq<string>)
    ensures result == CfgList(s)
  {
    result := [];
    var depth: nat := 0;
    var current := "";
    ghost var all := CfgList(s);
    for i := 0 to |s|
      invariant result + SplitFrom(s[i..], depth, current) == all
    {
      var ch := s[i];
      assert s[i..][0] == ch && s[i..][1..] == s[i + 1..];
      if ch == '(' {
        depth := depth + 1;
        current := current + [ch];
      } else if ch == ')' {
        depth := if depth == 0 then 0 else depth - 1;
        current := current + [ch];
      } else if ch == ',' && depth == 0 {
        var trimmed := Trim(current);
        if trimmed != "" {
          result := result + [trimmed];
        }
        current := "";
      } else {
        current := current + [ch];
      }
    }
    var trimmed := Trim(current);
    if trimmed != "" {
      result := result + [trimmed];
    }
  }

  /** Adds exactly the features of the condition that the text denotes. Terminates because
      every text it descends into is strictly shorter. */
  method CollectCfgFeatureNames(cfg: string, before: set<string>) returns (out: set<string>)
    ensures out == before + FeatureSet(Read(cfg))
    decreases |cfg|, 1
  {
    out := before;
    var n := Normalize(cfg);
    var feature := FeatureName(n);
    if feature.Some? {
      out := out + {feature.value};
      return;
    }
    ReadGroup(cfg);
    var inner := Between(n, "any(", ")");
    if inner.None? {
      inner := Between(n, "all(", ")");
    }
    if inner.Some? {
      var parts := ParseCfgList(inner.value);
      SplitFromShrinks(inner.value, 0, []);
      out := CollectEach(parts, out, |cfg|);
      return;
    }
    inner := Between(n, "not(", ")");
    if inner.Some? {
      TrimStartSuffix(inner.value);
      out := CollectCfgFeatureNames(Trim(inner.value), out);
    }
  }

  /** The loop over the elements of one `any(...)` or `all(...)` list. */
  method CollectEach(parts: seq<string>, before: set<string>, ghost bound: nat) returns (out: set<string>)
    requires forall i | 0 <= i < |parts| :: |parts[i]| < bound
    ensures out == before + FeatureUnion(ReadAll(parts))
    decreases bound, 0
  {
    out := before;
    ghost var read := ReadAll(parts);
    for i := 0 to |parts|
      invariant out == before + FeatureUnion(read[..i])
    {
      out := CollectCfgFeatureNames(parts[i], out);
      FeatureUnionNext(read, i);
    }
    assert read[..|parts|] == read;
  }

  lemma FeatureUnionNext(kids: seq<Condition>, i: nat)
    requires i < |kids|
    ensures FeatureUnion(kids[..i + 1]) == FeatureUnion(kids[..i]) + FeatureSet(kids[i])
  {
    assert kids[..i + 1] == kids[..i] + [kids[i]];
    FeatureUnionSnoc(kids[..i], kids[i]);
  }

  // ----- Reading what was printed -----

  /** Forgets the layout. */
  function Erase(c: Condition): Condition {
    match c
    case Feature(_) => c
    case Other(_) => c
    case Any(_, kids) => Any(TIGHT, EraseAll(kids))
    case All(_, kids) => All(TIGHT, EraseAll(kids))
    case Not(_, kid) => Not(TIGHT, Erase(kid))
  }

  function EraseAll(kids: seq<Condition>): (r: seq<Condition>)
    ensures |r| == |kids| && forall i | 0 <= i < |kids| :: r[i] == Erase(kids[i])
  {
    if kids == [] then [] else [Erase(kids[0])] + EraseAll(kids[1..])
  }

  /** Closes the gap before every opening parenthesis. */
  function Close(c: Condition): Condition {
    match c
    case Feature(_) => c
    case Other(_) => c
    case Any(l, kids) => Any(l.(gap := false), CloseAll(kids))
    case All(l, kids) => All(l.(gap := false), CloseAll(kids))
    case Not(l, kid) => Not(l.(gap := false), Close(kid))
  }

  function CloseAll(kids: seq<Condition>): (r: seq<Condition>)
    ensures |r| == |kids| && forall i | 0 <= i < |kids| :: r[i] == Close(kids[i])
  {
    if kids == [] then [] else [Close(kids[0])] + CloseAll(kids[1..])
  }

  /** What the collector makes of a printed condition: it forgets the layout, and takes what
      stands in a `not` with a comma after it for one unknown predicate. */
  function Seen(c: Condition): Condition {
    match c
    case Feature(_) => c
    case Other(_) => c
    case Any(_, kids) => Any(TIGHT, SeenAll(kids))
    case All(_, kids) => All(TIGHT, SeenAll(kids))
    case Not(l, kid) => Not(TIGHT, if l.comma then Other(PrintLast(Close(kid), l)) else Seen(kid))
  }

  function SeenAll(kids: seq<Condition>): (r: seq<Condition>)
    ensures |r| == |kids| && forall i | 0 <= i < |kids| :: r[i] == Seen(kids[i])
  {
    if kids == [] then [] else [Seen(kids[0])] + SeenAll(kids[1..])
  }

  lemma {:induction false} CloseClose(c: Condition)
    ensures Close(Close(c)) == Close(c)
  {
    match c
    case Feature(_) =>
    case Other(_) =>
    case Any(_, kids) => forall i | 0 <= i < |kids| { CloseClose(kids[i]); }
    case All(_, kids) => forall i | 0 <= i < |kids| { CloseClose(kids[i]); }
    case Not(_, kid) => CloseClose(kid);
  }

  lemma {:induction false} SeenClose(c: Condition)
    ensures Seen(Close(c)) == Seen(c)
  {
    match c
    case Feature(_) =>
    case Other(_) =>
    case Any(_, kids) => forall i | 0 <= i < |kids| { SeenClose(kids[i]); }
    case All(_, kids) => forall i | 0 <= i < |kids| { SeenClose(kids[i]); }
    case Not(_, kid) => CloseClose(kid); SeenClose(kid);
  }

  lemma {:induction false} CloseWellFormed(c: Condition)
    requires WellFormed(c)
    ensures WellFormed(Close(c))
  {
    match c
    case Feature(_) =>
    case Other(_) =>
    case Any(_, kids) => forall i | 0 <= i < |kids| { CloseWellFormed(kids[i]); }
    case All(_, kids) => forall i | 0 <= i < |kids| { CloseWellFormed(kids[i]); }
    case Not(_, kid) => CloseWellFormed(kid);
  }

  /** Printed conditions have no whitespace at their ends and do not start with a parenthesis. */
  lemma PrintEnds(c: Condition)
    requires WellFormed(c)
    ensures Print(c) != []
    ensures !IsWhitespace(Print(c)[0]) && !IsWhitespace(Print(c)[|Print(c)| - 1])
    ensures Print(c)[0] != '('
  {
  }

  lemma NoGap(p: string, rest: string)
    requires Lacks(p, '(') && p != []
    requires rest != [] && rest[0] == '(' ==> p[|p| - 1] != ' '
    ensures !(" (" <= p + rest)
  {
    var s := p + rest;
    assert " ("[0] == ' ' && " ("[1] == '(';
    if |s| > 1 { assert s[0] == p[0] && s[1] == if |p| > 1 then p[1] else rest[0]; }
  }

  lemma ReplaceNot(p: string, rest: string, pattern: string, with: string)
    requires p != [] && pattern != [] && !(pattern <= p + rest)
    ensures Replace(p + rest, pattern, with) == [p[0]] + Replace(p[1..] + rest, pattern, with)
  {
    var s := p + rest;
    ReplaceStep(s, pattern, with);
    assert s[1..] == p[1..] + rest && s[0] == p[0];
  }

  lemma SqueezeChar(p: string, rest: string)
    requires Lacks(p, '(') && p != []
    requires rest != [] && rest[0] == '(' ==> p[|p| - 1] != ' '
    ensures Replace(p + rest, " (", "(") == [p[0]] + Replace(p[1..] + rest, " (", "(")
  {
    NoGap(p, rest);
    ReplaceNot(p, rest, " (", "(");
  }

  lemma {:induction false} SqueezeWord(p: string, rest: string)
    requires Lacks(p, '(')
    requires p != [] && rest != [] && rest[0] == '(' ==> p[|p| - 1] != ' '
    ensures Replace(p + rest, " (", "(") == p + Replace(rest, " (", "(")
  {
    if p == [] {
      assert p + rest == rest;
    } else {
      SqueezeChar(p, rest);
      SqueezeWord(p[1..], rest);
      Uncons(p, Replace(rest, " (", "("));
    }
  }

  function Squeeze(s: string): string { Replace(s, " (", "(") }

  lemma SqueezeOpen(word: string, layout: Layout, tail: string)
    requires word == "any" || word == "all" || word == "not"
    ensures Squeeze(word + (Open(layout) + tail)) == word + ("(" + Squeeze(tail))
  {
    var s := Open(layout) + tail;
    SqueezeWord(word, s);
    ReplaceStep(s, " (", "(");
    if layout.gap {
      assert s[2..] == tail;
    } else {
      assert s[0] == '(' && s[1..] == tail;
    }
  }

  lemma SqueezeGroup(word: string, layout: Layout, body: string, closed: string, rest: string)
    requires word == "any" || word == "all" || word == "not"
    requires Squeeze(body + (")" + rest)) == closed + Squeeze(")" + rest)
    ensures Squeeze(word + Open(layout) + body + ")" + rest) == word + "(" + closed + ")" + Squeeze(rest)
  {
    var tail := body + (")" + rest);
    SqueezeOpen(word, layout, tail);
    SqueezeWord(")", rest);
    Regroup(word, Open(layout), body, ")", rest);
    Regroup(word, "(", closed, ")", Squeeze(rest));
  }

  lemma Regroup(a: string, b: string, c: string, d: string, e: string)
    ensures a + b + c + d + e == a + (b + (c + (d + e)))
  {
  }

  lemma PrintListCons(kids: seq<Condition>, l: Layout, rest: string)
    requires |kids| > 1
    ensures PrintList(kids, l) + rest == Print(kids[0]) + (Separator(l) + (PrintList(kids[1..], l) + rest))
  {
  }

  lemma PrintListFirst(kids: seq<Condition>, l: Layout)
    requires kids != [] && WellFormed(kids[0])
    ensures PrintList(kids, l) != [] && PrintList(kids, l)[0] == Print(kids[0])[0] != '('
  {
    PrintEnds(kids[0]);
  }

  lemma {:induction false} SqueezePrint(c: Condition, rest: string)
    requires WellFormed(c)
    ensures Squeeze(Print(c) + rest) == Print(Close(c)) + Squeeze(rest)
    decreases c, 1
  {
    PrintEnds(c);
    match c
    case Feature(_) => SqueezeWord(Print(c), rest);
    case Other(_) => SqueezeWord(Print(c), rest);
    case Any(l, kids) =>
      SqueezeList(kids, l, ")" + rest);
      SqueezeGroup("any", l, PrintList(kids, l), PrintList(CloseAll(kids), l), rest);
      CloseKeepsList(CloseAll(kids), l);
    case All(l, kids) =>
      SqueezeList(kids, l, ")" + rest);
      SqueezeGroup("all", l, PrintList(kids, l), PrintList(CloseAll(kids), l), rest);
      CloseKeepsList(CloseAll(kids), l);
    case Not(l, kid) =>
      SqueezeLast(kid, l, ")" + rest);
      SqueezeGroup("not", l, PrintLast(kid, l), PrintLast(Close(kid), l), rest);
  }

  lemma {:induction false} CloseKeepsList(kids: seq<Condition>, l: Layout)
    ensures PrintList(kids, l.(gap := false)) == PrintList(kids, l)
  {
    if |kids| > 1 { CloseKeepsList(kids[1..], l); }
  }

  lemma {:induction false} SqueezeLast(c: Condition, l: Layout, rest: string)
    requires WellFormed(c)
    ensures Squeeze(PrintLast(c, l) + rest) == PrintLast(Close(c), l) + Squeeze(rest)
    decreases c, 2
  {
    SqueezePrint(c, Trail(l) + rest);
    SqueezeTrail(l, rest);
    Associate(Print(c), Trail(l), rest);
    Associate(Print(Close(c)), Trail(l), Squeeze(rest));
  }

  lemma SqueezeTrail(l: Layout, rest: string)
    ensures Squeeze(Trail(l) + rest) == Trail(l) + Squeeze(rest)
  {
    SqueezeWord(Trail(l), rest);
  }

  lemma {:induction false} SqueezeList(kids: seq<Condition>, l: Layout, rest: string)
    requires forall i | 0 <= i < |kids| :: WellFormed(kids[i])
    ensures Squeeze(PrintList(kids, l) + rest) == PrintList(CloseAll(kids), l) + Squeeze(rest)
    decreases kids, 0
  {
    if kids == [] {
      assert PrintList(kids, l) + rest == rest;
    } else if |kids| == 1 {
      SqueezeLast(kids[0], l, rest);
    } else {
      var sep, tail := Separator(l), PrintList(kids[1..], l) + rest;
      PrintListFirst(kids[1..], l);
      PrintListCons(kids, l, rest);
      SqueezePrint(kids[0], sep + tail);
      SqueezeWord(sep, tail);
      SqueezeList(kids[1..], l, rest);
      PrintListCons(CloseAll(kids), l, Squeeze(rest));
      assert CloseAll(kids)[1..] == CloseAll(kids[1..]);
    }
  }

  /** Normalising a printed condition closes the gaps and changes nothing else. */
  lemma NormalizePrint(c: Condition)
    requires WellFormed(c)
    ensures Normalize(Print(c)) == Print(Close(c))
  {
    PrintEnds(c);
    TrimFixed(Print(c));
    SqueezePrint(c, []);
    assert Print(c) + [] == Print(c);
    assert Print(Close(c)) + [] == Print(Close(c));
  }

  lemma {:induction false} SplitWord(p: string, rest: string, depth: nat, current: string)
    requires Word(p)
    ensures SplitFrom(p + rest, depth, current) == SplitFrom(rest, depth, current + p)
  {
    if p == [] {
      assert p + rest == rest && current + p == current;
    } else {
      assert (p + rest)[0] == p[0] && (p + rest)[1..] == p[1..] + rest;
      assert current + [p[0]] + p[1..] == current + p;
      SplitWord(p[1..], rest, depth, current + [p[0]]);
    }
  }

  lemma SplitOpen(layout: Layout, tail: string, depth: nat, current: string)
    ensures SplitFrom(Open(layout) + tail, depth, current) == SplitFrom(tail, depth + 1, current + Open(layout))
  {
    var gap := if layout.gap then " " else "";
    assert Open(layout) + tail == gap + ("(" + tail);
    SplitWord(gap, "(" + tail, depth, current);
    assert ("(" + tail)[1..] == tail;
    assert current + gap + ['('] == current + Open(layout);
  }

  lemma SplitGroup(word: string, layout: Layout, body: string, rest: string, depth: nat, current: string)
    requires Word(word)
    requires SplitFrom(body + (")" + rest), depth + 1, current + word + Open(layout))
          == SplitFrom(")" + rest, depth + 1, current + word + Open(layout) + body)
    ensures SplitFrom(word + Open(layout) + body + ")" + rest, depth, current)
         == SplitFrom(rest, depth, current + (word + Open(layout) + body + ")"))
  {
    var tail := body + (")" + rest);
    assert word + Open(layout) + body + ")" + rest == word + (Open(layout) + tail);
    SplitWord(word, Open(layout) + tail, depth, current);
    SplitOpen(layout, tail, depth, current + word);
    assert (")" + rest)[1..] == rest;
    assert current + word + Open(layout) + body + [')'] == current + (word + Open(layout) + body + ")");
  }

  /** Inside a printed condition the splitter never cuts, whatever the depth it starts from. */
  lemma {:induction false} SplitPrint(c: Condition, rest: string, depth: nat, current: string)
    requires WellFormed(c)
    ensures SplitFrom(Print(c) + rest, depth, current) == SplitFrom(rest, depth, current + Print(c))
    decreases c, 1
  {
    match c
    case Feature(_) => SplitWord(Print(c), rest, depth, current);
    case Other(_) => SplitWord(Print(c), rest, depth, current);
    case Any(l, kids) =>
      SplitDeepList(kids, l, ")" + rest, depth + 1, current + "any" + Open(l));
      SplitGroup("any", l, PrintList(kids, l), rest, depth, current);
    case All(l, kids) =>
      SplitDeepList(kids, l, ")" + rest, depth + 1, current + "all" + Open(l));
      SplitGroup("all", l, PrintList(kids, l), rest, depth, current);
    case Not(l, kid) =>
      SplitDeepLast(kid, l, ")" + rest, depth + 1, current + "not" + Open(l));
      SplitGroup("not", l, PrintLast(kid, l), rest, depth, current);
  }

  lemma {:induction false} SplitDeepLast(c: Condition, l: Layout, rest: string, depth: nat, current: string)
    requires WellFormed(c) && depth >= 1
    ensures SplitFrom(PrintLast(c, l) + rest, depth, current) == SplitFrom(rest, depth, current + PrintLast(c, l))
    decreases c, 2
  {
    SplitPrint(c, Trail(l) + rest, depth, current);
    SplitDeepTrail(l, rest, depth, current + Print(c));
    Associate(Print(c), Trail(l), rest);
    Associate(current, Print(c), Trail(l));
  }

  lemma SplitDeepTrail(l: Layout, rest: string, depth: nat, current: string)
    requires depth >= 1
    ensures SplitFrom(Trail(l) + rest, depth, current) == SplitFrom(rest, depth, current + Trail(l))
  {
    var pad := if l.pad then " " else "";
    if l.comma {
      assert Trail(l) + rest == pad + ("," + rest);
      SplitWord(pad, "," + rest, depth, current);
      assert ("," + rest)[1..] == rest;
      assert current + pad + [','] == current + Trail(l);
    } else {
      assert Trail(l) + rest == rest && current + Trail(l) == current;
    }
  }

  lemma SplitDeepSeparator(l: Layout, rest: string, depth: nat, current: string)
    requires depth >= 1
    ensures SplitFrom(Separator(l) + rest, depth, current) == SplitFrom(rest, depth, current + Separator(l))
  {
    var tail := "," + (" " + rest);
    assert tail[1..] == " " + rest;
    if l.pad {
      assert Separator(l) + rest == " " + tail;
      SplitWord(" ", tail, depth, current);
      SplitWord(" ", rest, depth, current + " " + [',']);
      assert current + " " + [','] + " " == current + Separator(l);
    } else {
      assert Separator(l) + rest == tail;
      SplitWord(" ", rest, depth, current + [',']);
      assert current + [','] + " " == current + Separator(l);
    }
  }

  lemma {:induction false} SplitDeepList(kids: seq<Condition>, l: Layout, rest: string, depth: nat, current: string)
    requires depth >= 1
    requires forall i | 0 <= i < |kids| :: WellFormed(kids[i])
    ensures SplitFrom(PrintList(kids, l) + rest, depth, current)
         == SplitFrom(rest, depth, current + PrintList(kids, l))
    decreases kids, 0
  {
    if kids == [] {
      assert PrintList(kids, l) + rest == rest && current + PrintList(kids, l) == current;
    } else if |kids| == 1 {
      SplitDeepLast(kids[0], l, rest, depth, current);
    } else {
      var sep, tail := Separator(l), PrintList(kids[1..], l) + rest;
      PrintListCons(kids, l, rest);
      SplitPrint(kids[0], sep + tail, depth, current);
      SplitDeepSeparator(l, tail, depth, current + Print(kids[0]));
      SplitDeepList(kids[1..], l, rest, depth, current + Print(kids[0]) + sep);
      PrintListCons(kids, l, []);
      assert current + Print(kids[0]) + sep + PrintList(kids[1..], l) == current + PrintList(kids, l);
    }
  }

  function PrintEach(kids: seq<Condition>): seq<string> {
    if kids == [] then [] else [Print(kids[0])] + PrintEach(kids[1..])
  }

  lemma PieceOf(before: string, c: Condition, after: string)
    requires WellFormed(c) && Blank(before) && Blank(after)
    ensures Piece(before + Print(c) + after) == [Print(c)]
  {
    PrintEnds(c);
    TrimAround(before, Print(c), after);
  }

  lemma SplitTopSeparator(l: Layout, tail: string, current: string)
    ensures SplitFrom(Separator(l) + tail, 0, current)
         == Piece(current + if l.pad then " " else "") + SplitFrom(tail, 0, " ")
  {
    var pad := if l.pad then " " else "";
    var rest := "," + (" " + tail);
    assert Separator(l) + tail == pad + rest;
    SplitWord(pad, rest, 0, current);
    assert rest[1..] == " " + tail;
    SplitWord(" ", tail, 0, []);
    assert [] + " " == " ";
    assert SplitFrom(rest, 0, current + pad) == Piece(current + pad) + SplitFrom(" " + tail, 0, []);
  }

  /** A comma after the last element adds no element. */
  lemma SplitTopLast(c: Condition, l: Layout, before: string)
    requires WellFormed(c) && Blank(before)
    ensures SplitFrom(PrintLast(c, l), 0, before) == [Print(c)]
  {
    var pad := if l.comma && l.pad then " " else "";
    SplitPrint(c, Trail(l), 0, before);
    PieceOf(before, c, pad);
    assert before + Print(c) + "" == before + Print(c);
    if l.comma {
      assert Trail(l) == pad + ",";
      SplitWord(pad, ",", 0, before + Print(c));
      assert ","[1..] == [] && Piece([]) == [];
    }
  }

  /** Splitting a printed list at depth 0 gives back the printed elements. */
  lemma {:induction false} SplitTopList(kids: seq<Condition>, l: Layout, before: string)
    requires Blank(before)
    requires forall i | 0 <= i < |kids| :: WellFormed(kids[i])
    ensures SplitFrom(PrintList(kids, l), 0, before) == PrintEach(kids)
  {
    if kids == [] {
      TrimBlank(before);
    } else if |kids| == 1 {
      SplitTopLast(kids[0], l, before);
      assert PrintEach(kids[1..]) == [];
    } else {
      var sep, tail := Separator(l), PrintList(kids[1..], l);
      SplitPrint(kids[0], sep + tail, 0, before);
      assert PrintList(kids, l) == Print(kids[0]) + (sep + tail);
      SplitTopSeparator(l, tail, before + Print(kids[0]));
      PieceOf(before, kids[0], if l.pad then " " else "");
      SplitTopList(kids[1..], l, " ");
    }
  }

  lemma PrintEachAt(kids: seq<Condition>)
    ensures |PrintEach(kids)| == |kids|
    ensures forall i | 0 <= i < |kids| :: PrintEach(kids)[i] == Print(kids[i])
  {
  }

  lemma GroupShape(word: string, body: string)
    requires word == "any" || word == "all" || word == "not"
    ensures FeatureName(word + "(" + body + ")").None?
    ensures Between(word + "(" + body + ")", "any(", ")") == if word == "any" then Some(body) else None
    ensures Between(word + "(" + body + ")", "all(", ")") == if word == "all" then Some(body) else None
    ensures Between(word + "(" + body + ")", "not(", ")") == if word == "not" then Some(body) else None
  {
    var s := word + "(" + body + ")";
    assert s[0] == word[0] && s[1] == word[1] && s[|s| - 1..] == ")" && s[4..|s| - 1] == body;
    assert s[..4] == word + "(";
    assert "any("[1] == 'n' && "all("[1] == 'l' && "not("[0] == 'n' && "feature = \""[0] == 'f';
  }

  lemma FeatureShape(name: string)
    ensures FeatureName("feature = \"" + name + "\"") == Some(name)
  {
    var s := "feature = \"" + name + "\"";
    assert s[11..|s| - 1] == name && s[|s| - 1..] == "\"" && s[..11] == "feature = \"";
  }

  lemma OtherShape(text: string)
    requires Word(text)
    ensures Between(text, "any(", ")").None? && Between(text, "all(", ")").None? && Between(text, "not(", ")").None?
  {
    assert "any("[3] == "all("[3] == "not("[3] == '(';
  }

  /** A text that ends in a comma is no feature and no group. */
  lemma EndsInComma(s: string)
    requires LastIs(s, ',')
    ensures FeatureName(s).None?
    ensures Between(s, "any(", ")").None? && Between(s, "all(", ")").None? && Between(s, "not(", ")").None?
  {
    assert s[|s| - 1..] == [','];
  }

  lemma ReadTrailed(c: Condition, l: Layout)
    requires WellFormed(c) && Close(c) == c && l.comma
    ensures Trim(PrintLast(c, l)) == PrintLast(c, l) && Read(PrintLast(c, l)) == Other(PrintLast(c, l))
  {
    var s := PrintLast(c, l);
    PrintEnds(c);
    assert s[|s| - 1] == ',' && s[0] == Print(c)[0];
    TrimFixed(s);
    SqueezeLast(c, l, []);
    assert s + [] == s;
    EndsInComma(s);
  }

  /** Reading a printed condition gives what the collector sees of it, whatever layout each
      node was printed with. */
  lemma {:induction false} ReadPrint(c: Condition)
    requires WellFormed(c)
    ensures Read(Print(c)) == Seen(c)
    decreases |Print(c)|, 1
  {
    match c
    case Feature(name) => NormalizePrint(c); FeatureShape(name);
    case Other(text) => NormalizePrint(c); OtherShape(text);
    case Any(_, _) => ReadPrintedGroup(c);
    case All(_, _) => ReadPrintedGroup(c);
    case Not(l, kid) =>
      NormalizePrint(c);
      GroupShape("not", PrintLast(Close(kid), l));
      CloseWellFormed(kid);
      CloseClose(kid);
      ReadPrintedNot(Close(kid), l, |Print(c)|);
      SeenClose(kid);
  }

  lemma {:induction false} ReadPrintedNot(kid: Condition, l: Layout, bound: nat)
    requires WellFormed(kid) && |Print(kid)| < bound
    requires Close(kid) == kid
    ensures Read(Trim(PrintLast(kid, l))) == if l.comma then Other(PrintLast(kid, l)) else Seen(kid)
    decreases bound, 0
  {
    if l.comma {
      ReadTrailed(kid, l);
    } else {
      assert PrintLast(kid, l) == Print(kid);
      PrintEnds(kid);
      TrimFixed(Print(kid));
      ReadPrint(kid);
    }
  }

  lemma {:induction false} ReadPrintedGroup(c: Condition)
    requires c.Any? || c.All?
    requires WellFormed(c)
    ensures Read(Print(c)) == Seen(c)
    decreases |Print(c)|, 0, 1
  {
    var body := PrintList(CloseAll(c.kids), c.layout);
    NormalizePrint(c);
    CloseKeepsList(CloseAll(c.kids), c.layout);
    GroupShape(if c.Any? then "any" else "all", body);
    ReadGroup(Print(c));
    ReadPrintedList(c.kids, c.layout, |Print(c)|);
  }

  lemma {:induction false} ReadPrintedList(kids: seq<Condition>, l: Layout, bound: nat)
    requires forall i | 0 <= i < |kids| :: WellFormed(kids[i])
    requires |PrintList(CloseAll(kids), l)| < bound
    ensures ReadAll(CfgList(PrintList(CloseAll(kids), l))) == SeenAll(kids)
    decreases bound, 0, 0
  {
    var closed := CloseAll(kids);
    var parts := CfgList(PrintList(closed, l));
    forall i | 0 <= i < |closed| ensures WellFormed(closed[i]) { CloseWellFormed(kids[i]); }
    SplitTopList(closed, l, []);
    PrintEachAt(closed);
    SplitFromShrinks(PrintList(closed, l), 0, []);
    forall i | 0 <= i < |closed| ensures Read(parts[i]) == Seen(kids[i]) {
      ReadPrint(closed[i]);
      SeenClose(kids[i]);
    }
  }

  // ----- When the condition itself is read back -----

  /** No `not` keeps a comma after its element. */
  predicate NotsPlain(c: Condition) {
    match c
    case Feature(_) => true
    case Other(_) => true
    case Any(_, kids) => forall i | 0 <= i < |kids| :: NotsPlain(kids[i])
    case All(_, kids) => forall i | 0 <= i < |kids| :: NotsPlain(kids[i])
    case Not(l, kid) => !l.comma && NotsPlain(kid)
  }

  lemma TrailedIsNoWord(c: Condition, l: Layout)
    requires l.comma
    ensures !Word(PrintLast(c, l))
  {
    var s := PrintLast(c, l);
    assert s[|s| - 1] == ',';
  }

  lemma {:induction false} SeenIsErase(c: Condition)
    requires WellFormed(c)
    ensures Seen(c) == Erase(c) <==> NotsPlain(c)
  {
    match c
    case Feature(_) =>
    case Other(_) =>
    case Any(_, kids) => SeenIsEraseAll(kids);
    case All(_, kids) => SeenIsEraseAll(kids);
    case Not(l, kid) =>
      if l.comma { TrailedIsNoWord(Close(kid), l); } else { SeenIsErase(kid); }
  }

  lemma {:induction false} SeenIsEraseAll(kids: seq<Condition>)
    requires forall i | 0 <= i < |kids| :: WellFormed(kids[i])
    ensures SeenAll(kids) == EraseAll(kids) <==> forall i | 0 <= i < |kids| :: NotsPlain(kids[i])
  {
    forall i | 0 <= i < |kids| ensures SeenAll(kids)[i] == EraseAll(kids)[i] <==> NotsPlain(kids[i]) {
      SeenIsErase(kids[i]);
    }
  }

  /** Reading a printed condition gives back the condition exactly when no `not` in it keeps
      a comma after its element. */
  lemma ReadsBack(c: Condition)
    requires WellFormed(c)
    ensures Read(Print(c)) == Erase(c) <==> NotsPlain(c)
  {
    ReadPrint(c);
    SeenIsErase(c);
  }

  // ----- Features -----

  /** The features that occur in a condition outside such a `not`. */
  function ShownFeatures(c: Condition): set<string> {
    match c
    case Feature(name) => {name}
    case Other(_) => {}
    case Any(_, kids) => ShownUnion(kids)
    case All(_, kids) => ShownUnion(kids)
    case Not(l, kid) => if l.comma then {} else ShownFeatures(kid)
  }

  function ShownUnion(kids: seq<Condition>): set<string> {
    set k, f | k in kids && f in ShownFeatures(k) :: f
  }

  lemma SeenAllMembers(kids: seq<Condition>)
    ensures forall k | k in kids :: Seen(k) in SeenAll(kids)
    ensures forall e | e in SeenAll(kids) :: exists k | k in kids :: e == Seen(k)
  {
    forall k | k in kids ensures Seen(k) in SeenAll(kids) {
      var i :| 0 <= i < |kids| && kids[i] == k;
      assert SeenAll(kids)[i] == Seen(k);
    }
    forall e | e in SeenAll(kids) ensures exists k | k in kids :: e == Seen(k) {
      var i :| 0 <= i < |kids| && SeenAll(kids)[i] == e;
      assert kids[i] in kids;
    }
  }

  lemma {:induction false} SeenFeatures(c: Condition)
    ensures FeatureSet(Seen(c)) == ShownFeatures(c)
  {
    match c
    case Feature(_) =>
    case Other(_) =>
    case Any(_, kids) =>
      forall k | k in kids { SeenFeatures(k); }
      SeenAllMembers(kids);
    case All(_, kids) =>
      forall k | k in kids { SeenFeatures(k); }
      SeenAllMembers(kids);
    case Not(l, kid) => SeenFeatures(kid);
  }

  lemma {:induction false} PlainShowsAll(c: Condition)
    ensures ShownFeatures(c) <= FeatureSet(c)
    ensures NotsPlain(c) ==> ShownFeatures(c) == FeatureSet(c)
  {
    match c
    case Feature(_) =>
    case Other(_) =>
    case Any(_, kids) => forall k | k in kids { PlainShowsAll(k); }
    case All(_, kids) => forall k | k in kids { PlainShowsAll(k); }
    case Not(_, kid) => PlainShowsAll(kid);
  }

  /** The collector finds exactly the features that occur in a printed condition, but for
      those in a `not` that keeps a comma after its element. */
  lemma CollectedFeatures(c: Condition)
    requires WellFormed(c)
    ensures FeatureSet(Read(Print(c))) == ShownFeatures(c) <= FeatureSet(c)
    ensures FeatureSet(Read(Print(c))) == FeatureSet(c) <==> ShownFeatures(c) == FeatureSet(c)
    ensures NotsPlain(c) ==> FeatureSet(Read(Print(c))) == FeatureSet(c)
  {
    ReadPrint(c);
    SeenFeatures(c);
    PlainShowsAll(c);
  }

  const HIDDEN := Not(TIGHT.(comma := true), Feature("x"))

  lemma HiddenPrint()
    ensures Print(HIDDEN) == "not(feature = \"x\",)"
  {
    assert Print(HIDDEN.kid) == "feature = \"x\"";
    assert PrintLast(HIDDEN.kid, HIDDEN.layout) == "feature = \"x\",";
  }

  /** A condition of which the collector misses the only feature. */
  lemma CommaHidesFeature()
    ensures Print(HIDDEN) == "not(feature = \"x\",)" && FeatureSet(HIDDEN) == {"x"}
    ensures FeatureSet(Read(Print(HIDDEN))) == {}
  {
    HiddenPrint();
    CollectedFeatures(HIDDEN);
  }

  // ----- Meaning -----

  lemma {:induction false} EraseKeepsMeaning(c: Condition, v: Valuation)
    ensures Eval(Erase(c), v) == Eval(c, v)
  {
    match c
    case Feature(_) =>
    case Other(_) =>
    case Any(_, kids) =>
      forall i | 0 <= i < |kids| ensures Eval(EraseAll(kids)[i], v) == Eval(kids[i], v) {
        EraseKeepsMeaning(kids[i], v);
      }
    case All(_, kids) =>
      forall i | 0 <= i < |kids| ensures Eval(EraseAll(kids)[i], v) == Eval(kids[i], v) {
        EraseKeepsMeaning(kids[i], v);
      }
    case Not(_, kid) => EraseKeepsMeaning(kid, v);
  }

  /** Where a comma follows at the end, the text in front of it and of its padding is known. */
  lemma TrailApart(a: string, l: Layout, b: string, m: Layout)
    requires a != [] && b != [] && !IsWhitespace(a[|a| - 1]) && !IsWhitespace(b[|b| - 1])
    requires l.comma && m.comma && a + Trail(l) == b + Trail(m)
    ensures a == b
  {
    var s := a + Trail(l);
    assert s[|s| - 2] == if l.pad then ' ' else a[|a| - 1];
    assert s[|s| - 2] == if m.pad then ' ' else b[|b| - 1];
    assert s[..|s| - |Trail(l)|] == a && s[..|s| - |Trail(m)|] == b;
  }

  lemma {:induction false} SeenInjective(c: Condition, d: Condition)
    requires WellFormed(c) && WellFormed(d) && Seen(c) == Seen(d)
    ensures Erase(c) == Erase(d)
  {
    match c
    case Feature(_) =>
    case Other(_) =>
    case Any(_, kids) => SeenInjectiveAll(kids, d.kids);
    case All(_, kids) => SeenInjectiveAll(kids, d.kids);
    case Not(l, kid) =>
      SeenNot(kid, l, d.kid, d.layout);
      SeenInjective(kid, d.kid);
  }

  lemma {:induction false} SeenInjectiveAll(a: seq<Condition>, b: seq<Condition>)
    requires forall i | 0 <= i < |a| :: WellFormed(a[i])
    requires forall i | 0 <= i < |b| :: WellFormed(b[i])
    requires SeenAll(a) == SeenAll(b)
    ensures EraseAll(a) == EraseAll(b)
  {
    assert |a| == |SeenAll(a)| == |SeenAll(b)| == |b|;
    forall i | 0 <= i < |a| ensures EraseAll(a)[i] == EraseAll(b)[i] {
      assert SeenAll(a)[i] == SeenAll(b)[i];
      SeenInjective(a[i], b[i]);
    }
  }

  lemma SeenTrailed(c: Condition, l: Layout, d: Condition, m: Layout)
    requires WellFormed(c) && WellFormed(d) && l.comma && m.comma
    requires PrintLast(Close(c), l) == PrintLast(Close(d), m)
    ensures Seen(c) == Seen(d)
  {
    var x, y := Close(c), Close(d);
    CloseWellFormed(c);
    CloseWellFormed(d);
    PrintEnds(x);
    PrintEnds(y);
    TrailApart(Print(x), l, Print(y), m);
    ReadPrint(x);
    ReadPrint(y);
    SeenClose(c);
    SeenClose(d);
  }

  lemma SeenNot(c: Condition, l: Layout, d: Condition, m: Layout)
    requires WellFormed(c) && WellFormed(d) && Seen(Not(l, c)) == Seen(Not(m, d))
    ensures Seen(c) == Seen(d)
  {
    if l.comma && m.comma {
      SeenTrailed(c, l, d, m);
    } else if l.comma {
      TrailedIsNoWord(Close(c), l);
    } else if m.comma {
      TrailedIsNoWord(Close(d), m);
    }
  }

  /** Two conditions that print alike differ at most in layout. */
  lemma PrintInjective(c: Condition, d: Condition)
    requires WellFormed(c) && WellFormed(d) && Print(c) == Print(d)
    ensures Erase(c) == Erase(d)
  {
    ReadPrint(c);
    ReadPrint(d);
    SeenInjective(c, d);
  }

  /** A text holds when it prints a condition that does. */
  ghost predicate Holds(text: string, v: Valuation) {
    exists c :: WellFormed(c) && Print(c) == text && Eval(c, v)
  }

  /** It prints no two conditions of which one holds and the other does not. */
  lemma PrintedMeaning(c: Condition, v: Valuation)
    requires WellFormed(c)
    ensures Holds(Print(c), v) == Eval(c, v)
  {
    if Holds(Print(c), v) {
      var d :| WellFormed(d) && Print(d) == Print(c) && Eval(d, v);
      PrintInjective(c, d);
      EraseKeepsMeaning(c, v);
      EraseKeepsMeaning(d, v);
    }
  }
}
