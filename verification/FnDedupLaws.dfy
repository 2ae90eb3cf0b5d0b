/** What collapsing same-named functions preserves: availability under every feature
    selection, order and content, the collected features, and its own results. */
module FnDedupLaws {
  import opened Text
  import opened Cfg
  import opened FnDedup

  // ----- Availability -----

  ghost predicate Enabled(cfg: Option<string>, v: Valuation) {
    cfg.Some? ==> Holds(cfg.value, v)
  }

  /** Some function of this name is compiled in. */
  ghost predicate Available(fs: seq<FunctionDef>, name: string, v: Valuation) {
    exists f | f in fs :: f.name == name && Enabled(f.cfg, v)
  }

  /** The text of a condition, in whatever layout the extractor wrote it. */
  ghost predicate IsCondition(text: string) {
    exists c :: WellFormed(c) && Print(c) == text
  }

  ghost predicate WellGated(fs: seq<FunctionDef>) {
    forall f | f in fs && f.cfg.Some? :: IsCondition(f.cfg.value)
  }

  ghost predicate ConditionsOnly(cfgs: seq<Option<string>>) {
    forall i | 0 <= i < |cfgs| && cfgs[i].Some? :: IsCondition(cfgs[i].value)
  }

  // ----- Merging conditions -----

  lemma {:induction false} DistinctIs(values: seq<string>)
    ensures forall s :: s in Distinct(values) <==> s in values
  {
    if values != [] {
      var n := |values| - 1;
      DistinctIs(values[..n]);
      assert values == values[..n] + [values[n]];
    }
  }

  ghost function Parsed(text: string): (c: Condition)
    requires IsCondition(text)
    ensures WellFormed(c) && Print(c) == text
  {
    var c :| WellFormed(c) && Print(c) == text;
    c
  }

  ghost function ParsedAll(texts: seq<string>): (r: seq<Condition>)
    requires forall i | 0 <= i < |texts| :: IsCondition(texts[i])
    ensures |r| == |texts| && forall i | 0 <= i < |texts| :: r[i] == Parsed(texts[i])
  {
    seq(|texts|, i requires 0 <= i < |texts| => Parsed(texts[i]))
  }

  lemma {:induction false} JoinIsPrintList(texts: seq<string>, kids: seq<Condition>)
    requires |texts| == |kids| && forall i | 0 <= i < |texts| :: Print(kids[i]) == texts[i]
    ensures PrintList(kids, TIGHT) == Join(texts, ", ")
  {
    if |texts| > 1 { JoinIsPrintList(texts[1..], kids[1..]); }
  }

  ghost predicate Gates(cfgs: seq<Option<string>>) {
    cfgs != [] && AllSome(cfgs) && ConditionsOnly(cfgs)
  }

  lemma DistinctGates(cfgs: seq<Option<string>>)
    requires Gates(cfgs)
    ensures Distinct(Values(cfgs)) != []
    ensures forall i | 0 <= i < |Distinct(Values(cfgs))| :: IsCondition(Distinct(Values(cfgs))[i])
  {
    var texts := Distinct(Values(cfgs));
    DistinctIs(Values(cfgs));
    assert Values(cfgs)[0] in texts;
    forall i | 0 <= i < |texts| ensures IsCondition(texts[i]) {
      assert texts[i] in Values(cfgs);
    }
  }

  /** The merged condition as one condition of the language: any of the distinct ones. */
  ghost function Union(cfgs: seq<Option<string>>): Condition
    requires Gates(cfgs)
  {
    DistinctGates(cfgs);
    var kids := ParsedAll(Distinct(Values(cfgs)));
    if |kids| == 1 then kids[0] else Any(TIGHT, kids)
  }

  lemma MergedIsUnion(cfgs: seq<Option<string>>)
    requires Gates(cfgs)
    ensures WellFormed(Union(cfgs)) && MergedCfg(cfgs) == Some(Print(Union(cfgs)))
  {
    DistinctGates(cfgs);
    var texts := Distinct(Values(cfgs));
    JoinIsPrintList(texts, ParsedAll(texts));
    assert "any" + Open(TIGHT) == "any(";
  }

  /** The members of a group, once as conditions and once as distinct texts. */
  lemma DistinctMembers(cfgs: seq<Option<string>>)
    requires Gates(cfgs)
    ensures forall text :: text in Distinct(Values(cfgs)) <==> Some(text) in cfgs
  {
    DistinctIs(Values(cfgs));
    forall text ensures text in Values(cfgs) <==> Some(text) in cfgs {
      if text in Values(cfgs) {
        var i :| 0 <= i < |cfgs| && Values(cfgs)[i] == text;
        assert cfgs[i] == Some(text);
      }
      if Some(text) in cfgs {
        var i :| 0 <= i < |cfgs| && cfgs[i] == Some(text);
        assert Values(cfgs)[i] == text;
      }
    }
  }

  lemma AnyMeaning(texts: seq<string>, kids: seq<Condition>, v: Valuation)
    requires |texts| == |kids|
    requires forall i | 0 <= i < |kids| :: WellFormed(kids[i]) && Print(kids[i]) == texts[i]
    ensures Eval(Any(TIGHT, kids), v) <==> exists text | text in texts :: Holds(text, v)
  {
    if i :| 0 <= i < |kids| && Eval(kids[i], v) {
      PrintedMeaning(kids[i], v);
      assert texts[i] in texts;
    }
    if text :| text in texts && Holds(text, v) {
      var i :| 0 <= i < |texts| && texts[i] == text;
      PrintedMeaning(kids[i], v);
    }
  }

  lemma AnyOfOne(kids: seq<Condition>, v: Valuation)
    requires |kids| == 1
    ensures Eval(Any(TIGHT, kids), v) <==> Eval(kids[0], v)
  {
  }

  lemma UnionMeaning(cfgs: seq<Option<string>>, v: Valuation)
    requires Gates(cfgs)
    ensures Eval(Union(cfgs), v) <==> exists text | text in Distinct(Values(cfgs)) :: Holds(text, v)
  {
    DistinctGates(cfgs);
    var kids := ParsedAll(Distinct(Values(cfgs)));
    AnyMeaning(Distinct(Values(cfgs)), kids, v);
    if |kids| == 1 { AnyOfOne(kids, v); }
  }

  /** The merged condition holds exactly when one of the merged ones does. */
  lemma MergeMeaning(cfgs: seq<Option<string>>, v: Valuation)
    requires cfgs != [] && ConditionsOnly(cfgs)
    ensures Enabled(MergedCfg(cfgs), v) <==> exists cfg | cfg in cfgs :: Enabled(cfg, v)
  {
    if AllSome(cfgs) {
      MergedIsUnion(cfgs);
      PrintedMeaning(Union(cfgs), v);
      UnionMeaning(cfgs, v);
      DistinctMembers(cfgs);
      if text :| text in Distinct(Values(cfgs)) && Holds(text, v) {
        assert Some(text) in cfgs && Enabled(Some(text), v);
      }
      if cfg :| cfg in cfgs && Enabled(cfg, v) {
        assert cfg.Some? by { var i :| 0 <= i < |cfgs| && cfgs[i] == cfg; }
        assert cfg == Some(cfg.value) && cfg.value in Distinct(Values(cfgs)) && Holds(cfg.value, v);
      }
    } else {
      var i :| 0 <= i < |cfgs| && cfgs[i].None?;
      assert cfgs[i] in cfgs && Enabled(cfgs[i], v);
    }
  }

  function TextFeatures(text: string): set<string> { FeatureSet(Read(text)) }

  function GateFeatures(cfg: Option<string>): set<string> {
    if cfg.Some? then TextFeatures(cfg.value) else {}
  }

  lemma AnyFeatures(texts: seq<string>, kids: seq<Condition>, f: string)
    requires |texts| == |kids|
    requires forall i | 0 <= i < |kids| :: WellFormed(kids[i]) && Print(kids[i]) == texts[i]
    ensures f in ShownUnion(kids) <==> exists text | text in texts :: f in TextFeatures(text)
  {
    if k :| k in kids && f in ShownFeatures(k) {
      var i :| 0 <= i < |kids| && kids[i] == k;
      CollectedFeatures(k);
      assert texts[i] in texts && f in TextFeatures(texts[i]);
    }
    if text :| text in texts && f in TextFeatures(text) {
      var i :| 0 <= i < |texts| && texts[i] == text;
      CollectedFeatures(kids[i]);
      assert kids[i] in kids;
    }
  }

  lemma ShownOfOne(kids: seq<Condition>)
    requires |kids| == 1
    ensures ShownUnion(kids) == ShownFeatures(kids[0])
  {
    assert kids[0] in kids;
  }

  lemma UnionFeatures(cfgs: seq<Option<string>>, f: string)
    requires Gates(cfgs)
    ensures f in ShownFeatures(Union(cfgs)) <==> exists text | text in Distinct(Values(cfgs)) :: f in TextFeatures(text)
  {
    DistinctGates(cfgs);
    var kids := ParsedAll(Distinct(Values(cfgs)));
    AnyFeatures(Distinct(Values(cfgs)), kids, f);
    if |kids| == 1 { ShownOfOne(kids); }
  }

  /** Collecting from the merged condition of an all-conditional group loses no feature. */
  lemma MergeFeatures(cfgs: seq<Option<string>>, f: string)
    requires Gates(cfgs)
    ensures f in GateFeatures(MergedCfg(cfgs)) <==> exists cfg | cfg in cfgs :: f in GateFeatures(cfg)
  {
    MergedIsUnion(cfgs);
    CollectedFeatures(Union(cfgs));
    UnionFeatures(cfgs, f);
    DistinctMembers(cfgs);
    if text :| text in Distinct(Values(cfgs)) && f in TextFeatures(text) {
      assert Some(text) in cfgs && f in GateFeatures(Some(text));
    }
    if cfg :| cfg in cfgs && f in GateFeatures(cfg) {
      assert cfg == Some(cfg.value) && cfg.value in Distinct(Values(cfgs));
    }
  }

  // ----- Shape of the result -----

  /** The surviving positions below `n`. */
  function Kept(fs: seq<FunctionDef>, n: nat): seq<nat>
    requires n <= |fs|
  {
    if n == 0 then [] else Kept(fs, n - 1) + if Survives(fs, n - 1) then [n - 1] else []
  }

  lemma {:induction false} KeptIs(fs: seq<FunctionDef>, n: nat)
    requires n <= |fs|
    ensures forall j | 0 <= j < |Kept(fs, n)| :: Kept(fs, n)[j] < n
    ensures forall i: nat | i < n :: i in Kept(fs, n) <==> Survives(fs, i)
    ensures forall j, k | 0 <= j < k < |Kept(fs, n)| :: Kept(fs, n)[j] < Kept(fs, n)[k]
  {
    if n > 0 { KeptIs(fs, n - 1); }
  }

  lemma {:induction false} DedupPositionsUpTo(fs: seq<FunctionDef>, n: nat)
    requires n <= |fs|
    ensures |DedupUpTo(fs, n)| == |Kept(fs, n)|
    ensures forall j | 0 <= j < |Kept(fs, n)| :: Kept(fs, n)[j] < n && DedupUpTo(fs, n)[j] == Entry(fs, Kept(fs, n)[j])
  {
    if n > 0 {
      DedupPositionsUpTo(fs, n - 1);
    }
  }

  /** The output is the surviving positions in input order: the first of every merged group,
      with the canonical entry in its place, and every position outside the merged groups,
      unchanged. */
  lemma DedupPositions(fs: seq<FunctionDef>)
    ensures var kept := Kept(fs, |fs|);
      && |Dedup(fs)| == |kept|
      && (forall j, k | 0 <= j < k < |kept| :: kept[j] < kept[k])
      && (forall i: nat | i < |fs| :: i in kept <==> (Merged(fs, fs[i].name) ==> GroupOf(fs, i)[0] == i))
      && (forall j | 0 <= j < |kept| :: kept[j] < |fs| &&
            Dedup(fs)[j] == if Merged(fs, fs[kept[j]].name) then Canonical(GroupOf(fs, kept[j]), fs) else fs[kept[j]])
  {
    KeptIs(fs, |fs|);
    DedupPositionsUpTo(fs, |fs|);
  }

  /** There are parameters, and the name of each starts with an underscore. */
  predicate Underscored(params: seq<string>) {
    params != [] && forall p | p in params :: "_" <= p
  }

  lemma StubIs(f: FunctionDef)
    ensures Stub(f) <==> Underscored(f.params)
  {
    forall i | 0 <= i < |f.params| ensures f.params[i] in f.params { }
  }

  /** The canonical entry is the first group member that is not a stub, or the first member
      when all are stubs; only its condition changes. */
  lemma {:induction false} CanonicalSignature(g: seq<nat>, fs: seq<FunctionDef>) returns (k: nat)
    requires g != [] && InRange(g, fs)
    ensures k < |g| && Canonical(g, fs) == fs[g[k]].(cfg := MergedCfg(CfgsOf(g, fs)))
    ensures || (!Underscored(fs[g[k]].params) && forall j | 0 <= j < k :: Underscored(fs[g[j]].params))
            || (k == 0 && forall j | 0 <= j < |g| :: Underscored(fs[g[j]].params))
  {
    forall j | 0 <= j < |g| ensures Stub(fs[g[j]]) <==> Underscored(fs[g[j]].params) { StubIs(fs[g[j]]); }
    k := 0;
    while k < |g| && Stub(fs[g[k]])
      invariant k <= |g| && FirstReal(g, fs) == FirstReal(g[k..], fs)
      invariant forall j | 0 <= j < k :: Stub(fs[g[j]])
    {
      k := k + 1;
    }
    if k == |g| { k := 0; }
  }

  function Named(fs: seq<FunctionDef>, name: string): seq<FunctionDef> {
    if fs == [] then []
    else Named(fs[..|fs| - 1], name) + if fs[|fs| - 1].name == name then [fs[|fs| - 1]] else []
  }

  lemma NamedSnoc(fs: seq<FunctionDef>, f: FunctionDef, name: string)
    ensures Named(fs + [f], name) == Named(fs, name) + if f.name == name then [f] else []
  {
    assert (fs + [f])[..|fs|] == fs;
  }

  lemma EntryName(fs: seq<FunctionDef>, i: nat)
    requires i < |fs|
    ensures Entry(fs, i).name == fs[i].name
  {
    var k := CanonicalSignature(GroupOf(fs, i), fs);
    GroupIs(fs, fs[i].name, |fs|);
  }

  lemma NamedStep(fs: seq<FunctionDef>, name: string, i: nat)
    requires i < |fs|
    ensures Named(DedupUpTo(fs, i + 1), name)
         == Named(DedupUpTo(fs, i), name) + (if fs[i].name == name && Survives(fs, i) then [Entry(fs, i)] else [])
    ensures Named(fs[..i + 1], name) == Named(fs[..i], name) + (if fs[i].name == name then [fs[i]] else [])
  {
    EntryName(fs, i);
    NamedSnoc(DedupUpTo(fs, i), Entry(fs, i), name);
    NamedSnoc(fs[..i], fs[i], name);
    assert DedupUpTo(fs, i) + [] == DedupUpTo(fs, i);
    assert fs[..i + 1] == fs[..i] + [fs[i]];
  }

  lemma {:induction false} DedupOfOtherName(fs: seq<FunctionDef>, name: string, n: nat)
    requires n <= |fs|
    requires !Merged(fs, name)
    ensures Named(DedupUpTo(fs, n), name) == Named(fs[..n], name)
  {
    if n > 0 {
      DedupOfOtherName(fs, name, n - 1);
      NamedStep(fs, name, n - 1);
    }
  }

  lemma MergedSurvivor(fs: seq<FunctionDef>, name: string, i: nat)
    requires i < |fs| && Merged(fs, name)
    ensures fs[i].name == name && Survives(fs, i) <==> i == Group(fs, name)[0]
    ensures i == Group(fs, name)[0] ==> Entry(fs, i) == Canonical(Group(fs, name), fs)
  {
    FirstOfGroup(fs, name);
  }

  lemma MergedNext(fs: seq<FunctionDef>, name: string, i: nat)
    requires i < |fs| && Merged(fs, name)
    ensures Named(DedupUpTo(fs, i + 1), name)
         == Named(DedupUpTo(fs, i), name) + if i == Group(fs, name)[0] then [Canonical(Group(fs, name), fs)] else []
  {
    NamedStep(fs, name, i);
    MergedSurvivor(fs, name, i);
  }

  lemma {:induction false} DedupOfMergedName(fs: seq<FunctionDef>, name: string, n: nat)
    requires n <= |fs|
    requires Merged(fs, name)
    ensures Named(DedupUpTo(fs, n), name) == if Group(fs, name)[0] < n then [Canonical(Group(fs, name), fs)] else []
  {
    if n > 0 {
      DedupOfMergedName(fs, name, n - 1);
      MergedNext(fs, name, n - 1);
    }
  }

  lemma FirstOfGroup(fs: seq<FunctionDef>, name: string)
    requires Group(fs, name) != []
    ensures fs[Group(fs, name)[0]].name == name
  {
    GroupIs(fs, name, |fs|);
  }

  /** A name with differing conditions ends as exactly one entry; the entries of any other
      name stay as they were. */
  lemma DedupOfName(fs: seq<FunctionDef>, name: string)
    ensures Merged(fs, name) ==> Named(Dedup(fs), name) == [Canonical(Group(fs, name), fs)]
    ensures !Merged(fs, name) ==> Named(Dedup(fs), name) == Named(fs, name)
  {
    if Merged(fs, name) {
      DedupOfMergedName(fs, name, |fs|);
    } else {
      DedupOfOtherName(fs, name, |fs|);
      assert fs[..|fs|] == fs;
    }
  }

  lemma {:induction false} NamedIs(fs: seq<FunctionDef>, name: string)
    ensures forall f :: f in Named(fs, name) <==> f in fs && f.name == name
  {
    if fs != [] {
      var n := |fs| - 1;
      NamedIs(fs[..n], name);
      assert fs == fs[..n] + [fs[n]];
    }
  }

  /** The conditions of a group are those of the functions with its name. */
  lemma GroupCfgs(fs: seq<FunctionDef>, name: string)
    ensures forall f | f in Named(fs, name) :: f.cfg in CfgsOf(Group(fs, name), fs)
    ensures forall cfg | cfg in CfgsOf(Group(fs, name), fs) :: exists f | f in Named(fs, name) :: f.cfg == cfg
  {
    var g := Group(fs, name);
    NamedIs(fs, name);
    GroupIs(fs, name, |fs|);
    forall f | f in Named(fs, name) ensures f.cfg in CfgsOf(g, fs) {
      var i: nat :| i < |fs| && fs[i] == f;
      var k :| 0 <= k < |g| && g[k] == i;
      assert CfgsOf(g, fs)[k] == f.cfg;
    }
    forall cfg | cfg in CfgsOf(g, fs) ensures exists f | f in Named(fs, name) :: f.cfg == cfg {
      var k :| 0 <= k < |g| && CfgsOf(g, fs)[k] == cfg;
      assert fs[g[k]] in fs && fs[g[k]] in Named(fs, name);
    }
  }

  /** A group is merged exactly when two functions of its name differ in their conditions. */
  lemma MergedIffDiffering(fs: seq<FunctionDef>, name: string)
    ensures Merged(fs, name) <==>
              exists f, h | f in Named(fs, name) && h in Named(fs, name) :: f.cfg != h.cfg
  {
    if Merged(fs, name) { MergedDiffer(fs, name); }
    if f, h :| f in Named(fs, name) && h in Named(fs, name) && f.cfg != h.cfg {
      DifferingMerged(fs, name, f, h);
    }
  }

  /** Two functions of one name and gate are both kept. */
  lemma EqualGatesBothKept(f: FunctionDef, h: FunctionDef)
    requires f.name == h.name && f.cfg == h.cfg
    ensures Dedup([f, h]) == [f, h]
  {
    var fs := [f, h];
    forall i | 0 <= i < |fs| ensures !Merged(fs, fs[i].name) {
      NamedIs(fs, fs[i].name);
      MergedIffDiffering(fs, fs[i].name);
    }
    NothingMerged(fs, 2);
  }

  lemma MergedDiffer(fs: seq<FunctionDef>, name: string)
    requires Merged(fs, name)
    ensures exists f, h | f in Named(fs, name) && h in Named(fs, name) :: f.cfg != h.cfg
  {
    var g := Group(fs, name);
    var k :| 0 <= k < |g| && fs[g[k]].cfg != fs[g[0]].cfg;
    GroupIs(fs, name, |fs|);
    NamedIs(fs, name);
    assert fs[g[k]] in fs && fs[g[0]] in fs;
  }

  lemma DifferingMerged(fs: seq<FunctionDef>, name: string, f: FunctionDef, h: FunctionDef)
    requires f in Named(fs, name) && h in Named(fs, name) && f.cfg != h.cfg
    ensures Merged(fs, name)
  {
    var g := Group(fs, name);
    var cfgs := CfgsOf(g, fs);
    GroupCfgs(fs, name);
    var j :| 0 <= j < |cfgs| && cfgs[j] == f.cfg;
    var k :| 0 <= k < |cfgs| && cfgs[k] == h.cfg;
    assert fs[g[j]].cfg != fs[g[0]].cfg || fs[g[k]].cfg != fs[g[0]].cfg;
  }

  /** Under every feature selection a name is available after the pass exactly when it was before. */
  lemma DedupAvailability(fs: seq<FunctionDef>, name: string, v: Valuation)
    requires WellGated(fs)
    ensures Available(Dedup(fs), name, v) <==> Available(fs, name, v)
  {
    NamedIs(fs, name);
    NamedIs(Dedup(fs), name);
    DedupOfName(fs, name);
    if Merged(fs, name) {
      var cfgs := CfgsOf(Group(fs, name), fs);
      GroupCfgs(fs, name);
      GroupGated(fs, name);
      MergeMeaning(cfgs, v);
      var c := Canonical(Group(fs, name), fs);
      assert c in Named(Dedup(fs), name);
      assert Available(Dedup(fs), name, v) <==> Enabled(c.cfg, v);
    } else {
      assert forall f :: f in Dedup(fs) && f.name == name <==> f in fs && f.name == name;
    }
  }

  lemma GroupGated(fs: seq<FunctionDef>, name: string)
    requires WellGated(fs)
    ensures ConditionsOnly(CfgsOf(Group(fs, name), fs))
  {
    var cfgs := CfgsOf(Group(fs, name), fs);
    forall i | 0 <= i < |cfgs| && cfgs[i].Some? ensures IsCondition(cfgs[i].value) {
      assert fs[Group(fs, name)[i]] in fs;
    }
  }

  /** Running the pass on its own output changes nothing. */
  lemma DedupIdempotent(fs: seq<FunctionDef>)
    ensures Dedup(Dedup(fs)) == Dedup(fs)
  {
    var d := Dedup(fs);
    forall i | 0 <= i < |d| ensures !Merged(d, d[i].name) {
      var name := d[i].name;
      DedupOfName(fs, name);
      MergedIffDiffering(fs, name);
      MergedIffDiffering(d, name);
    }
    NothingMerged(d, |d|);
  }

  // ----- Features of the whole function list -----

  function FunctionFeatures(fs: seq<FunctionDef>): set<string> {
    set f, feature | f in fs && feature in GateFeatures(f.cfg) :: feature
  }

  lemma FunctionFeaturesSnoc(fs: seq<FunctionDef>, f: FunctionDef)
    ensures FunctionFeatures(fs + [f]) == FunctionFeatures(fs) + GateFeatures(f.cfg)
  {
    assert forall x :: x in fs + [f] <==> x in fs || x == f;
  }

  /** The function part of the API-wide feature collection (src/codegen/cfg.rs). */
  method CollectFunctionFeatures(fs: seq<FunctionDef>) returns (out: set<string>)
    ensures out == FunctionFeatures(fs)
  {
    out := {};
    for i := 0 to |fs|
      invariant out == FunctionFeatures(fs[..i])
    {
      FunctionFeaturesSnoc(fs[..i], fs[i]);
      assert fs[..i + 1] == fs[..i] + [fs[i]];
      if fs[i].cfg.Some? {
        out := CollectCfgFeatureNames(fs[i].cfg.value, out);
      }
    }
    assert fs[..|fs|] == fs;
  }

  ghost predicate HasUnconditional(fs: seq<FunctionDef>, name: string) {
    exists h | h in fs :: h.name == name && h.cfg.None?
  }

  lemma NameFeatures(fs: seq<FunctionDef>, name: string, feature: string)
    requires WellGated(fs)
    ensures (exists f | f in Named(Dedup(fs), name) :: feature in GateFeatures(f.cfg))
       <==> !HasUnconditional(fs, name) && exists f | f in Named(fs, name) :: feature in GateFeatures(f.cfg)
  {
    NamedIs(fs, name);
    DedupOfName(fs, name);
    MergedIffDiffering(fs, name);
    if Merged(fs, name) {
      var cfgs := CfgsOf(Group(fs, name), fs);
      GroupCfgs(fs, name);
      GroupGated(fs, name);
      var c := Canonical(Group(fs, name), fs);
      assert c in Named(Dedup(fs), name);
      if h :| h in fs && h.name == name && h.cfg.None? {
        assert h in Named(fs, name);
        var i :| 0 <= i < |cfgs| && cfgs[i] == None;
        assert c.cfg == None;
      } else {
        forall i | 0 <= i < |cfgs| ensures cfgs[i].Some? { assert cfgs[i] in cfgs; }
        MergeFeatures(cfgs, feature);
      }
    }
  }

  /** The features collected from the functions are unchanged by the pass, except those that
      occur only in groups with an unconditional member. */
  lemma DedupFeatures(fs: seq<FunctionDef>, feature: string)
    requires WellGated(fs)
    ensures feature in FunctionFeatures(Dedup(fs)) <==>
              exists f | f in fs :: feature in GateFeatures(f.cfg) && !HasUnconditional(fs, f.name)
  {
    if feature in FunctionFeatures(Dedup(fs)) {
      var f :| f in Dedup(fs) && feature in GateFeatures(f.cfg);
      NamedIs(Dedup(fs), f.name);
      NameFeatures(fs, f.name, feature);
      NamedIs(fs, f.name);
    }
    if f :| f in fs && feature in GateFeatures(f.cfg) && !HasUnconditional(fs, f.name) {
      NamedIs(fs, f.name);
      NameFeatures(fs, f.name, feature);
      NamedIs(Dedup(fs), f.name);
    }
  }

  // ----- The text of a merged gate -----

  /** The positions at which a value occurs for the first time, in order. */
  ghost predicate FirstOccurrences(values: seq<string>, kept: seq<nat>) {
    && (forall k | 0 <= k < |kept| :: kept[k] < |values| && IsFirst(values, kept[k]))
    && (forall j, k | 0 <= j < k < |kept| :: kept[j] < kept[k])
    && forall i: nat | i < |values| && IsFirst(values, i) :: i in kept
  }

  ghost predicate IsFirst(values: seq<string>, i: nat)
    requires i < |values|
  {
    forall j | 0 <= j < i :: values[j] != values[i]
  }

  function At(values: seq<string>, kept: seq<nat>): (r: seq<string>)
    requires forall k | 0 <= k < |kept| :: kept[k] < |values|
    ensures |r| == |kept| && forall k | 0 <= k < |kept| :: r[k] == values[kept[k]]
  {
    seq(|kept|, k requires 0 <= k < |kept| => values[kept[k]])
  }

  lemma FirstOrNot(values: seq<string>, last: string)
    ensures IsFirst(values + [last], |values|) <==> last !in values
    ensures forall i: nat | i < |values| :: IsFirst(values + [last], i) <==> IsFirst(values, i)
  {
    var all := values + [last];
    assert forall j | 0 <= j < |values| :: all[j] == values[j];
    if !IsFirst(all, |values|) {
      var j :| 0 <= j < |values| && all[j] == all[|values|];
      assert values[j] == last;
    }
    forall i: nat | i < |values| ensures IsFirst(all, i) <==> IsFirst(values, i) {
      assert forall j | 0 <= j < i :: all[j] == values[j];
    }
  }

  lemma {:induction false} DistinctFirsts(values: seq<string>) returns (kept: seq<nat>)
    ensures FirstOccurrences(values, kept) && Distinct(values) == At(values, kept)
  {
    if values == [] {
      kept := [];
    } else {
      var n := |values| - 1;
      var front, last := values[..n], values[n];
      assert values == front + [last];
      kept := DistinctFirsts(front);
      FirstOrNot(front, last);
      DistinctIs(front);
      if last !in front { kept := kept + [n]; }
    }
  }

  /** Merging gates of which all are there writes each once, in the order of their first
      occurrences: the one as it is, several in `any(...)`, separated by a comma and a space. */
  lemma MergedText(cfgs: seq<Option<string>>) returns (kept: seq<nat>)
    requires cfgs != [] && AllSome(cfgs)
    ensures FirstOccurrences(Values(cfgs), kept) && kept != []
    ensures MergedCfg(cfgs)
         == Some(if |kept| == 1 then Values(cfgs)[kept[0]] else "any(" + Join(At(Values(cfgs), kept), ", ") + ")")
  {
    kept := DistinctFirsts(Values(cfgs));
    assert IsFirst(Values(cfgs), 0) && 0 in kept;
  }

  /** A group with an unconditional member is unconditional, and so is no group at all. */
  lemma MergedNothing(cfgs: seq<Option<string>>)
    ensures MergedCfg(cfgs) == None <==> cfgs == [] || None in cfgs
  {
    if !AllSome(cfgs) {
      var i :| 0 <= i < |cfgs| && cfgs[i].None?;
      assert cfgs[i] in cfgs;
    } else if cfgs != [] {
      var kept := MergedText(cfgs);
    }
  }
}
