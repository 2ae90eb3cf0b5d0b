/** Which files the verify walk finds and under which paths, written on the names of the
    directories and of the file. */
module WalkNames {
  import opened Text
  import opened Order
  import opened Walk
  import opened WalkLaws
  import Stamp

  const SKIPPED: seq<string> := [
    "target", "node_modules", "_build", "deps", "parsers", "dist", "dist-node", "vendor", "__pycache__", "build",
    "tmp", "out"]

  /** A directory is entered unless its name starts with a dot or is one of these. */
  predicate Entered(name: string) {
    !(name != [] && name[0] == '.') && name !in SKIPPED
  }

  lemma EnteredIs(name: string)
    ensures SkipsDirectory(name) <==> !Entered(name)
  {
    DottedOrListed(name);
  }

  lemma DottedOrListed(name: string)
    ensures name in VERIFY_SKIP_DIRS ==> name in SKIPPED || (name != [] && name[0] == '.')
    ensures name in SKIPPED ==> name in VERIFY_SKIP_DIRS
  {
  }

  /** The names lead from a directory through readable, entered directories to a file with a
      scanned extension that carries the stamp. */
  ghost predicate Named(node: Node, names: seq<string>, hash: string)
    decreases node
  {
    && names != [] && node.Directory? && node.readable
    && exists i | 0 <= i < |node.entries| :: NamedEntry(node.entries[i], names, hash)
  }

  ghost predicate NamedEntry(entry: Entry, names: seq<string>, hash: string)
    requires names != []
    decreases entry
  {
    && entry.name == names[0]
    && match entry.node
       case Directory(_, _) => Entered(entry.name) && Named(entry.node, names[1..], hash)
       case File(text) =>
         && |names| == 1 && text.Some? && Stamp.Extract(text.value) == Some(hash)
         && exists j | 0 <= j < |VERIFY_SCAN_EXTENSIONS| :: EndsInExtension(entry.name, VERIFY_SCAN_EXTENSIONS[j])
       case Special => false
  }

  /** Names as a file system gives them: not empty, and without a separator. */
  predicate SlashFree(node: Node) {
    node.Directory? ==>
      forall i | 0 <= i < |node.entries| ::
        && node.entries[i].name != [] && (forall c | c in node.entries[i].name :: c != '/')
        && SlashFree(node.entries[i].node)
  }

  /** The directory part of the paths below `base`. */
  function Start(base: string): string {
    if base == [] || LastIs(base, '/') then base else base + "/"
  }

  function PathOf(base: string, names: seq<string>): string { Start(base) + Join(names, "/") }

  lemma StartOfChild(base: string, name: string)
    requires name != [] && forall c | c in name :: c != '/'
    ensures Child(base, name) == Start(base) + name && Start(Child(base, name)) == Start(base) + name + "/"
  {
    var child := Start(base) + name;
    assert child[|child| - 1] == name[|name| - 1] && name[|name| - 1] in name;
  }

  lemma PathStep(base: string, name: string, rest: seq<string>)
    requires name != [] && (forall c | c in name :: c != '/') && rest != []
    ensures PathOf(Child(base, name), rest) == PathOf(base, [name] + rest)
  {
    StartOfChild(base, name);
    assert ([name] + rest)[1..] == rest;
    assert Start(base) + name + "/" + Join(rest, "/") == Start(base) + (name + "/" + Join(rest, "/"));
  }

  lemma {:induction false} LedIsNamed(path: string, node: Node, route: seq<nat>, f: Found) returns (names: seq<string>)
    requires SlashFree(node) && Leads(VerifyRules(), path, node, route, f)
    ensures Named(node, names, f.hash) && f.path == PathOf(path, names)
    decreases |route|
  {
    var entry := node.entries[route[0]];
    StartOfChild(path, entry.name);
    EnteredIs(entry.name);
    if entry.node.Directory? {
      var rest := LedIsNamed(Child(path, entry.name), entry.node, route[1..], f);
      names := [entry.name] + rest;
      PathStep(path, entry.name, rest);
      assert names[1..] == rest;
    } else {
      names := [entry.name];
      ScannedName(entry.name);
    }
    assert NamedEntry(entry, names, f.hash);
  }

  lemma {:induction false} NamedIsLed(path: string, node: Node, names: seq<string>, hash: string)
    returns (route: seq<nat>)
    requires SlashFree(node) && Named(node, names, hash)
    ensures Leads(VerifyRules(), path, node, route, Found(PathOf(path, names), hash))
    decreases |names|
  {
    var i: nat :| i < |node.entries| && NamedEntry(node.entries[i], names, hash);
    var entry := node.entries[i];
    StartOfChild(path, entry.name);
    EnteredIs(entry.name);
    if entry.node.Directory? {
      var rest := NamedIsLed(Child(path, entry.name), entry.node, names[1..], hash);
      route := [i] + rest;
      assert route[1..] == rest && names == [entry.name] + names[1..];
      PathStep(path, entry.name, names[1..]);
    } else {
      route := [i];
      assert names == [entry.name];
      ScannedName(entry.name);
    }
  }

  /** The walk finds a stamp under a path exactly when names lead to it, and the path is those
      names joined by separators behind the base directory. */
  lemma StampedByName(base: string, tree: Node, path: string, hash: string)
    requires SlashFree(tree)
    ensures Found(path, hash) in Stamped(base, tree)
       <==> exists names :: Named(tree, names, hash) && path == PathOf(base, names)
  {
    var f := Found(path, hash);
    StampedIffReached(base, tree, f);
    if Reached(VerifyRules(), base, tree, f) {
      var route :| Leads(VerifyRules(), base, tree, route, f);
      var names := LedIsNamed(base, tree, route, f);
    }
    if names :| Named(tree, names, hash) && path == PathOf(base, names) {
      var route := NamedIsLed(base, tree, names, hash);
      assert Reached(VerifyRules(), base, tree, f);
    }
  }

  lemma {:induction false} EnteredOnTheWay(node: Node, names: seq<string>, hash: string, i: nat)
    requires Named(node, names, hash) && i + 1 < |names|
    ensures Entered(names[i])
    decreases |names|
  {
    var k :| 0 <= k < |node.entries| && NamedEntry(node.entries[k], names, hash);
    if i > 0 { EnteredOnTheWay(node.entries[k].node, names[1..], hash, i - 1); }
  }

  // ----- The order of the reports -----

  /** Stale files come in the order of their paths, by code point. */
  lemma ReportsInOrder(owned: multiset<Found>, hashes: seq<string>, stale: seq<Stale>)
    requires Reports(owned, hashes, stale)
    ensures forall i, j | 0 <= i < j < |stale| :: TextLe(stale[i].path, stale[j].path)
  {
    forall i, j | 0 <= i < j < |stale| ensures TextLe(stale[i].path, stale[j].path) {
      assert LexLe(StaleKey(stale[i]), StaleKey(stale[j]));
      TextOrder(stale[i].path, stale[j].path);
    }
  }

  /** Groups come in the order of their stamps, and in each the files in the order of their paths. */
  lemma GroupsInOrder(owned: multiset<Found>, groups: seq<Group>, k: nat)
    requires Groups(owned, groups) && k < |groups|
    ensures forall i, j | 0 <= i < j < |groups| :: TextLe(groups[i].hash, groups[j].hash)
    ensures forall i, j | 0 <= i < j < |groups[k].paths| :: TextLe(groups[k].paths[i], groups[k].paths[j])
  {
    forall i, j | 0 <= i < j < |groups| ensures TextLe(groups[i].hash, groups[j].hash) {
      assert LexLe(GroupKey(groups[i]), GroupKey(groups[j]));
      TextOrder(groups[i].hash, groups[j].hash);
    }
    assert groups[k] in groups && IsGroup(owned, groups[k]);
    forall i, j | 0 <= i < j < |groups[k].paths| ensures TextLe(groups[k].paths[i], groups[k].paths[j]) {
      assert LexLe(TextKey(groups[k].paths[i]), TextKey(groups[k].paths[j]));
      TextOrder(groups[k].paths[i], groups[k].paths[j]);
    }
  }
}
