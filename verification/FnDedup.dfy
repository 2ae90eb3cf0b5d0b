/** Collapsing same-named functions whose `cfg` gates differ (src/codegen/fn_dedup.rs). */
module FnDedup {
  import opened Text
  import opened Cfg

  /** The fields that the pass reads or carries: `params` holds the parameter names. */
  datatype FunctionDef = FunctionDef(name: string, rustPath: string, params: seq<string>, cfg: Option<string>)

  // ----- Specification -----

  predicate InRange(indices: seq<nat>, fs: seq<FunctionDef>) {
    forall k | 0 <= k < |indices| :: indices[k] < |fs|
  }

  /** The positions below `n` of the functions with a given name, in order. */
  function GroupUpTo(fs: seq<FunctionDef>, name: string, n: nat): (r: seq<nat>)
    requires n <= |fs|
    ensures InRange(r, fs)
  {
    if n == 0 then []
    else if fs[n - 1].name == name then GroupUpTo(fs, name, n - 1) + [n - 1]
    else GroupUpTo(fs, name, n - 1)
  }

  lemma GroupIs(fs: seq<FunctionDef>, name: string, n: nat)
    requires n <= |fs|
    ensures forall k | 0 <= k < |GroupUpTo(fs, name, n)| ::
              GroupUpTo(fs, name, n)[k] < n && fs[GroupUpTo(fs, name, n)[k]].name == name
    ensures forall i: nat | i < n && fs[i].name == name :: i in GroupUpTo(fs, name, n)
    ensures forall j, k | 0 <= j < k < |GroupUpTo(fs, name, n)| ::
              GroupUpTo(fs, name, n)[j] < GroupUpTo(fs, name, n)[k]
  {
  }

  function Group(fs: seq<FunctionDef>, name: string): (r: seq<nat>)
    ensures InRange(r, fs)
  {
    GroupUpTo(fs, name, |fs|)
  }

  /** The group that a position belongs to. */
  function GroupOf(fs: seq<FunctionDef>, i: nat): (r: seq<nat>)
    requires i < |fs|
    ensures r != [] && InRange(r, fs)
  {
    GroupIs(fs, fs[i].name, |fs|);
    Group(fs, fs[i].name)
  }

  predicate ShouldMerge(indices: seq<nat>, fs: seq<FunctionDef>)
    requires InRange(indices, fs)
  {
    |indices| > 1 && exists k | 0 <= k < |indices| :: fs[indices[k]].cfg != fs[indices[0]].cfg
  }

  predicate Merged(fs: seq<FunctionDef>, name: string) { ShouldMerge(Group(fs, name), fs) }

  function Distinct(values: seq<string>): seq<string> {
    if values == [] then []
    else
      var before := Distinct(values[..|values| - 1]);
      var last := values[|values| - 1];
      if last in before then before else before + [last]
  }

  predicate AllSome(cfgs: seq<Option<string>>) { forall i | 0 <= i < |cfgs| :: cfgs[i].Some? }

  function Values(cfgs: seq<Option<string>>): (r: seq<string>)
    requires AllSome(cfgs)
    ensures |r| == |cfgs| && forall i | 0 <= i < |cfgs| :: r[i] == cfgs[i].value
  {
    seq(|cfgs|, i requires 0 <= i < |cfgs| => cfgs[i].value)
  }

  function MergedCfg(cfgs: seq<Option<string>>): Option<string> {
    if !AllSome(cfgs) then None
    else
      var distinct := Distinct(Values(cfgs));
      if distinct == [] then None
      else if |distinct| == 1 then Some(distinct[0])
      else Some("any(" + Join(distinct, ", ") + ")")
  }

  /** A stub by convention: it has parameters and all of them start with an underscore. */
  predicate Stub(f: FunctionDef) {
    f.params != [] && forall i | 0 <= i < |f.params| :: f.params[i] != [] && f.params[i][0] == '_'
  }

  function CfgsOf(indices: seq<nat>, fs: seq<FunctionDef>): (r: seq<Option<string>>)
    requires InRange(indices, fs)
    ensures |r| == |indices| && forall k | 0 <= k < |indices| :: r[k] == fs[indices[k]].cfg
  {
    seq(|indices|, k requires 0 <= k < |indices| => fs[indices[k]].cfg)
  }

  function FirstReal(indices: seq<nat>, fs: seq<FunctionDef>): Option<nat>
    requires InRange(indices, fs)
  {
    if indices == [] then None
    else if !Stub(fs[indices[0]]) then Some(indices[0])
    else FirstReal(indices[1..], fs)
  }

  function Canonical(indices: seq<nat>, fs: seq<FunctionDef>): FunctionDef
    requires indices != [] && InRange(indices, fs)
  {
    FirstRealIn(indices, fs);
    var found := FirstReal(indices, fs);
    fs[if found.Some? then found.value else indices[0]].(cfg := MergedCfg(CfgsOf(indices, fs)))
  }

  lemma FirstRealIn(indices: seq<nat>, fs: seq<FunctionDef>)
    requires InRange(indices, fs)
    ensures FirstReal(indices, fs).Some? ==> FirstReal(indices, fs).value in indices
  {
  }

  /** Only the first entry of a merged group survives; every other entry does. */
  predicate Survives(fs: seq<FunctionDef>, i: nat)
    requires i < |fs|
  {
    Merged(fs, fs[i].name) ==> GroupOf(fs, i)[0] == i
  }

  function Entry(fs: seq<FunctionDef>, i: nat): FunctionDef
    requires i < |fs|
  {
    if Merged(fs, fs[i].name) then Canonical(GroupOf(fs, i), fs) else fs[i]
  }

  function DedupUpTo(fs: seq<FunctionDef>, n: nat): seq<FunctionDef>
    requires n <= |fs|
  {
    if n == 0 then []
    else DedupUpTo(fs, n - 1) + if Survives(fs, n - 1) then [Entry(fs, n - 1)] else []
  }

  function Dedup(fs: seq<FunctionDef>): seq<FunctionDef> { DedupUpTo(fs, |fs|) }

  // ----- The pass -----

  method CollectFunctionGroups(fs: seq<FunctionDef>) returns (groups: map<string, seq<nat>>)
    ensures forall name :: name in groups <==> exists i | 0 <= i < |fs| :: fs[i].name == name
    ensures forall name | name in groups :: groups[name] == Group(fs, name)
  {
    groups := map[];
    for idx := 0 to |fs|
      invariant forall name :: name in groups <==> exists i | 0 <= i < idx :: fs[i].name == name
      invariant forall name | name in groups :: groups[name] == GroupUpTo(fs, name, idx)
    {
      var name := fs[idx].name;
      GroupEmpty(fs, name, idx);
      var before := if name in groups then groups[name] else [];
      groups := groups[name := before + [idx]];
    }
  }

  lemma GroupEmpty(fs: seq<FunctionDef>, name: string, n: nat)
    requires n <= |fs|
    ensures (forall i | 0 <= i < n :: fs[i].name != name) ==> GroupUpTo(fs, name, n) == []
  {
    GroupIs(fs, name, n);
    if GroupUpTo(fs, name, n) != [] { assert fs[GroupUpTo(fs, name, n)[0]].name == name; }
  }

  /** A hash map yields its values in an arbitrary order: each round takes any name left. */
  method GroupsToMerge(groups: map<string, seq<nat>>, fs: seq<FunctionDef>) returns (toMerge: seq<seq<nat>>)
    requires forall name | name in groups :: groups[name] == Group(fs, name)
    ensures forall g :: g in toMerge <==> exists name | name in groups :: g == Group(fs, name) && Merged(fs, name)
  {
    toMerge := [];
    var names := groups.Keys;
    while names != {}
      invariant names <= groups.Keys
      invariant forall g :: g in toMerge <==>
                  exists name | name in groups && name !in names :: g == Group(fs, name) && Merged(fs, name)
      decreases names
    {
      var name :| name in names;
      names := names - {name};
      if ShouldMerge(groups[name], fs) {
        toMerge := toMerge + [groups[name]];
      }
    }
  }

  method MergeCfgs(cfgs: seq<Option<string>>) returns (merged: Option<string>)
    ensures merged == MergedCfg(cfgs)
  {
    var distinct: seq<string> := [];
    for i := 0 to |cfgs|
      invariant AllSome(cfgs[..i]) && distinct == Distinct(Values(cfgs[..i]))
    {
      if cfgs[i].None? { return None; }
      assert Values(cfgs[..i + 1])[..i] == Values(cfgs[..i]);
      if cfgs[i].value !in distinct {
        distinct := distinct + [cfgs[i].value];
      }
    }
    assert cfgs[..|cfgs|] == cfgs;
    if |distinct| == 0 { return None; }
    if |distinct| == 1 { return Some(distinct[0]); }
    return Some("any(" + Join(distinct, ", ") + ")");
  }

  method PickCanonicalEntry(indices: seq<nat>, fs: seq<FunctionDef>) returns (idx: nat)
    requires indices != [] && InRange(indices, fs)
    ensures idx in indices && fs[idx].(cfg := MergedCfg(CfgsOf(indices, fs))) == Canonical(indices, fs)
  {
    for k := 0 to |indices|
      invariant FirstReal(indices, fs) == FirstReal(indices[k..], fs)
    {
      if !Stub(fs[indices[k]]) { return indices[k]; }
    }
    return indices[0];
  }

  method MinIndex(indices: seq<nat>) returns (least: nat)
    requires indices != []
    ensures least in indices && forall k | 0 <= k < |indices| :: least <= indices[k]
  {
    least := indices[0];
    for k := 1 to |indices|
      invariant least in indices && forall j | 0 <= j < k :: least <= indices[j]
    {
      if indices[k] < least { least := indices[k]; }
    }
  }

  /** The canonical entry of every merged group, at the group's first position, and the
      positions that the merged groups give up. */
  method MergeGroups(toMerge: seq<seq<nat>>, fs: seq<FunctionDef>)
    returns (canonicalByFirst: map<nat, FunctionDef>, skipped: set<nat>)
    requires forall k | 0 <= k < |toMerge| :: IsMergedGroup(toMerge[k], fs)
    ensures forall i: nat | i < |fs| :: i in canonicalByFirst <==> GroupOf(fs, i) in toMerge && GroupOf(fs, i)[0] == i
    ensures forall i: nat | i < |fs| && i in canonicalByFirst :: canonicalByFirst[i] == Canonical(GroupOf(fs, i), fs)
    ensures forall i: nat | i < |fs| :: i in skipped <==> GroupOf(fs, i) in toMerge && GroupOf(fs, i)[0] != i
  {
    canonicalByFirst := map[];
    skipped := {};
    for k := 0 to |toMerge|
      invariant forall i: nat | i < |fs| ::
                  i in canonicalByFirst <==> GroupOf(fs, i) in toMerge[..k] && GroupOf(fs, i)[0] == i
      invariant forall i: nat | i < |fs| && i in canonicalByFirst ::
                  canonicalByFirst[i] == Canonical(GroupOf(fs, i), fs)
      invariant forall i: nat | i < |fs| :: i in skipped <==> GroupOf(fs, i) in toMerge[..k] && GroupOf(fs, i)[0] != i
    {
      var indices := toMerge[k];
      GroupMembers(indices, fs);
      var mergedCfg := MergeCfgs(CfgsOf(indices, fs));
      var canonicalIdx := PickCanonicalEntry(indices, fs);
      var canonical := fs[canonicalIdx].(cfg := mergedCfg);
      var firstIdx := MinIndex(indices);
      assert firstIdx == indices[0];
      canonicalByFirst := canonicalByFirst[firstIdx := canonical];
      skipped := skipped + set idx | idx in indices && idx != firstIdx;
      assert forall g :: g in toMerge[..k + 1] <==> g in toMerge[..k] || g == indices;
    }
    assert toMerge[..|toMerge|] == toMerge;
  }

  /** Equal to a function of the input, hence independent of the order in which the hash map
      yields its groups. */
  method DedupSameNameFunctions(fs: seq<FunctionDef>) returns (out: seq<FunctionDef>)
    ensures out == Dedup(fs)
  {
    var groups := CollectFunctionGroups(fs);
    var toMerge := GroupsToMerge(groups, fs);
    MergedIn(groups.Keys, fs, toMerge);
    if toMerge == [] {
      NothingMerged(fs, |fs|);
      return fs;
    }
    var canonicalByFirst, skipped := MergeGroups(toMerge, fs);
    out := KeepMerged(fs, canonicalByFirst, skipped);
  }

  /** The closing loop: canonical entries in, skipped positions out, the rest unchanged. */
  method KeepMerged(fs: seq<FunctionDef>, canonicalByFirst: map<nat, FunctionDef>, skipped: set<nat>)
    returns (out: seq<FunctionDef>)
    requires forall i: nat | i < |fs| ::
               i in canonicalByFirst <==> Merged(fs, fs[i].name) && GroupOf(fs, i)[0] == i
    requires forall i: nat | i < |fs| && i in canonicalByFirst :: canonicalByFirst[i] == Canonical(GroupOf(fs, i), fs)
    requires forall i: nat | i < |fs| :: i in skipped <==> Merged(fs, fs[i].name) && GroupOf(fs, i)[0] != i
    ensures out == Dedup(fs)
  {
    out := [];
    for idx := 0 to |fs|
      invariant out == DedupUpTo(fs, idx)
    {
      if idx in canonicalByFirst {
        out := out + [canonicalByFirst[idx]];
      } else if idx !in skipped {
        out := out + [fs[idx]];
      }
    }
  }

  ghost predicate IsMergedGroup(g: seq<nat>, fs: seq<FunctionDef>) {
    exists i: nat | i < |fs| :: g == GroupOf(fs, i) && Merged(fs, fs[i].name)
  }

  /** A position belongs to the group of its own name and to no other. */
  lemma GroupMembers(g: seq<nat>, fs: seq<FunctionDef>)
    requires IsMergedGroup(g, fs)
    ensures g != [] && InRange(g, fs)
    ensures forall j, k | 0 <= j < k < |g| :: g[j] < g[k]
    ensures forall i: nat | i < |fs| :: i in g <==> GroupOf(fs, i) == g
  {
    var m: nat :| m < |fs| && g == GroupOf(fs, m) && Merged(fs, fs[m].name);
    GroupIs(fs, fs[m].name, |fs|);
    forall i: nat | i < |fs| ensures i in g <==> GroupOf(fs, i) == g {
      GroupIs(fs, fs[i].name, |fs|);
      if i in g { assert fs[i].name == fs[m].name; }
    }
  }

  lemma MergedIn(names: set<string>, fs: seq<FunctionDef>, toMerge: seq<seq<nat>>)
    requires forall name :: name in names <==> exists i | 0 <= i < |fs| :: fs[i].name == name
    requires forall g :: g in toMerge <==> exists name | name in names :: g == Group(fs, name) && Merged(fs, name)
    ensures forall i: nat | i < |fs| :: Merged(fs, fs[i].name) <==> GroupOf(fs, i) in toMerge
    ensures forall k | 0 <= k < |toMerge| :: IsMergedGroup(toMerge[k], fs)
  {
    forall i: nat | i < |fs| ensures Merged(fs, fs[i].name) <==> GroupOf(fs, i) in toMerge {
      if GroupOf(fs, i) in toMerge {
        var name :| name in names && GroupOf(fs, i) == Group(fs, name) && Merged(fs, name);
      }
    }
    forall k | 0 <= k < |toMerge| ensures IsMergedGroup(toMerge[k], fs) {
      assert toMerge[k] in toMerge;
      var name :| name in names && toMerge[k] == Group(fs, name) && Merged(fs, name);
      var i: nat :| i < |fs| && fs[i].name == name;
      assert toMerge[k] == GroupOf(fs, i);
    }
  }

  lemma NothingMerged(fs: seq<FunctionDef>, n: nat)
    requires n <= |fs|
    requires forall i | 0 <= i < |fs| :: !Merged(fs, fs[i].name)
    ensures DedupUpTo(fs, n) == fs[..n]
  {
  }
}
