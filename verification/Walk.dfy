/** The verify walk (src/bin_cli/helpers.rs): collecting the stamps of a directory tree with
    an explicit stack, and the two checks made of them. */
module Walk {
  import opened Text
  import opened Order
  import Stamp

  // ----- The file system as the walk sees it -----

  /** A directory may be unreadable, a file may not be text, and anything else (links,
      devices, entries whose type cannot be read) is `Special`. */
  datatype Node = Directory(readable: bool, entries: seq<Entry>) | File(text: Option<string>) | Special

  datatype Entry = Entry(name: string, node: Node)

  datatype Found = Found(path: string, hash: string)

  /** `Path::join` with one component. */
  function Child(path: string, name: string): string {
    if path == [] || LastIs(path, '/') then path + name else path + "/" + name
  }

  /** Which directories are not entered and which files are looked into, by name. */
  datatype Rules = Rules(skips: string -> bool, scans: string -> bool)

  const VERIFY_SKIP_DIRS: seq<string> := [
    ".git", ".alef", "target", "node_modules", "_build", "deps", "parsers", "dist", "dist-node", "vendor",
    ".venv", ".cache", ".remote-cache", "__pycache__", "build", "tmp", "out", ".idea", ".vscode"]

  const VERIFY_SCAN_EXTENSIONS: seq<string> := [
    "rs", "py", "pyi", "ts", "tsx", "js", "mjs", "cjs", "rb", "rbs", "php", "phpstub", "go", "java", "cs", "ex",
    "exs", "R", "r", "toml", "json", "md", "h", "c", "yaml", "yml"]

  predicate SkipsDirectory(name: string) {
    name in VERIFY_SKIP_DIRS || "." <= name
  }

  /** `Path::extension`: what follows the last dot, unless that dot comes first. */
  function Extension(name: string): Option<string> {
    match LastDot(name)
    case None => None
    case Some(dot) => if dot == 0 || name == ".." then None else Some(name[dot + 1..])
  }

  function LastDot(name: string): (r: Option<nat>)
    ensures r.Some? ==> r.value < |name| && name[r.value] == '.'
    ensures forall i | (if r.Some? then r.value + 1 else 0) <= i < |name| :: name[i] != '.'
  {
    if name == [] then None
    else if name[|name| - 1] == '.' then Some(|name| - 1)
    else LastDot(name[..|name| - 1])
  }

  /** A name has an extension exactly when it is a non-empty stem, a dot and a dot-free rest;
      `..` has none. */
  lemma ExtensionIs(name: string, extension: string)
    ensures Extension(name) == Some(extension)
       <==> name != ".." && Lacks(extension, '.')
            && |extension| + 1 < |name| && name[|name| - |extension| - 1..] == "." + extension
  {
    var cut := |name| - |extension| - 1;
    if Lacks(extension, '.') && 0 <= cut && name[cut..] == "." + extension {
      assert forall i | cut < i < |name| :: name[i] == name[cut..][i - cut];
      assert name[cut] == name[cut..][0];
      assert name[cut + 1..] == name[cut..][1..] == extension;
      assert LastDot(name) == Some(cut);
    }
    if LastDot(name).Some? {
      var dot := LastDot(name).value;
      assert name[dot..] == "." + name[dot + 1..];
    }
  }

  /** `eq_ignore_ascii_case` against each listed extension. */
  predicate ScansFile(name: string) {
    match Extension(name)
    case None => false
    case Some(extension) =>
      exists i | 0 <= i < |VERIFY_SCAN_EXTENSIONS| :: Lower(VERIFY_SCAN_EXTENSIONS[i]) == Lower(extension)
  }

  /** A file is scanned exactly when its name is a non-empty stem, a dot and one of the listed
      extensions in any case. */
  lemma ScannedName(name: string)
    ensures ScansFile(name) <==>
              exists i | 0 <= i < |VERIFY_SCAN_EXTENSIONS| :: EndsInExtension(name, VERIFY_SCAN_EXTENSIONS[i])
  {
    if ScansFile(name) {
      var extension := Extension(name).value;
      ExtensionIs(name, extension);
      var i :| 0 <= i < |VERIFY_SCAN_EXTENSIONS| && Lower(VERIFY_SCAN_EXTENSIONS[i]) == Lower(extension);
      SameLength(VERIFY_SCAN_EXTENSIONS[i], extension);
      ExtensionShows(name, extension);
    }
    if i :| 0 <= i < |VERIFY_SCAN_EXTENSIONS| && EndsInExtension(name, VERIFY_SCAN_EXTENSIONS[i]) {
      ListedExtensionsAreWords(i);
      ShownExtension(name, VERIFY_SCAN_EXTENSIONS[i]);
    }
  }

  /** `name` is a non-empty stem, a dot and `extension`, up to ASCII case. */
  predicate EndsInExtension(name: string, extension: string) {
    var n := |name| - |extension|;
    n > 1 && name[n - 1] == '.' && Lower(name[n..]) == Lower(extension)
  }

  lemma SameLength(a: string, b: string)
    requires Lower(a) == Lower(b)
    ensures |a| == |b|
  {
    assert |Lower(a)| == |a| && |Lower(b)| == |b|;
  }

  lemma ExtensionShows(name: string, extension: string)
    requires |extension| + 1 < |name| && name[|name| - |extension| - 1..] == "." + extension
    ensures name[|name| - |extension| - 1] == '.' && name[|name| - |extension|..] == extension
  {
    var tail := name[|name| - |extension| - 1..];
    assert tail[0] == '.' && tail[1..] == extension;
  }

  lemma ListedExtensionsAreWords(i: nat)
    requires i < |VERIFY_SCAN_EXTENSIONS|
    ensures VERIFY_SCAN_EXTENSIONS[i] != [] && Lacks(VERIFY_SCAN_EXTENSIONS[i], '.')
  {
  }

  lemma ShownExtension(name: string, listed: string)
    requires listed != [] && Lacks(listed, '.') && EndsInExtension(name, listed)
    ensures Extension(name).Some? && Lower(Extension(name).value) == Lower(listed)
  {
    var n := |name| - |listed|;
    var extension := name[n..];
    forall k | 0 <= k < |extension| ensures extension[k] != '.' {
      assert Lower(extension)[k] == Lower(listed)[k];
    }
    assert name[n - 1..] == "." + extension;
    ExtensionIs(name, extension);
  }

  function VerifyRules(): Rules { Rules(SkipsDirectory, ScansFile) }

  // ----- What the walk is to find -----

  /** The stamped files below a directory, each as often as it occurs. */
  ghost function Owned(rules: Rules, path: string, node: Node): multiset<Found>
    decreases node
  {
    match node
    case Directory(readable, entries) => if readable then OwnedEntries(rules, path, entries) else multiset{}
    case File(_) => multiset{}
    case Special => multiset{}
  }

  ghost function OwnedEntries(rules: Rules, path: string, entries: seq<Entry>): multiset<Found>
    decreases entries
  {
    if entries == [] then multiset{}
    else OwnedEntry(rules, path, entries[0]) + OwnedEntries(rules, path, entries[1..])
  }

  ghost function OwnedEntry(rules: Rules, path: string, entry: Entry): multiset<Found>
    decreases entry
  {
    match entry.node
    case Directory(_, _) =>
      if rules.skips(entry.name) then multiset{} else Owned(rules, Child(path, entry.name), entry.node)
    case File(text) => multiset(OwnedFile(rules, Child(path, entry.name), entry.name, text))
    case Special => multiset{}
  }

  /** A file counts when its extension is scanned, it is text and it carries a stamp. */
  function OwnedFile(rules: Rules, path: string, name: string, text: Option<string>): seq<Found> {
    if !rules.scans(name) || text.None? then []
    else
      match Stamp.Extract(text.value)
      case None => []
      case Some(hash) => [Found(path, hash)]
  }

  // ----- The walk -----

  /** Directories and files below a node, itself included. */
  ghost function Size(node: Node): (n: nat)
    ensures n > 0
    decreases node
  {
    1 + if node.Directory? then EntriesSize(node.entries) else 0
  }

  ghost function EntriesSize(entries: seq<Entry>): nat
    decreases entries
  {
    if entries == [] then 0 else Size(entries[0].node) + EntriesSize(entries[1..])
  }

  datatype Pending = Pending(path: string, node: Node)

  ghost function StackSize(stack: seq<Pending>): nat {
    if stack == [] then 0 else StackSize(stack[..|stack| - 1]) + Size(stack[|stack| - 1].node)
  }

  ghost function OwnedStack(rules: Rules, stack: seq<Pending>): multiset<Found> {
    if stack == [] then multiset{}
    else
      var top := stack[|stack| - 1];
      OwnedStack(rules, stack[..|stack| - 1]) + Owned(rules, top.path, top.node)
  }

  lemma Push(rules: Rules, stack: seq<Pending>, top: Pending)
    ensures StackSize(stack + [top]) == StackSize(stack) + Size(top.node)
    ensures OwnedStack(rules, stack + [top]) == OwnedStack(rules, stack) + Owned(rules, top.path, top.node)
  {
    assert (stack + [top])[..|stack|] == stack;
  }

  lemma Pop(rules: Rules, stack: seq<Pending>)
    requires stack != []
    ensures var rest, top := stack[..|stack| - 1], stack[|stack| - 1];
            StackSize(stack) == StackSize(rest) + Size(top.node)
            && OwnedStack(rules, stack) == OwnedStack(rules, rest) + Owned(rules, top.path, top.node)
  {
  }

  lemma NextEntry(rules: Rules, path: string, entries: seq<Entry>, i: nat)
    requires i < |entries|
    ensures OwnedEntries(rules, path, entries[i..])
         == OwnedEntry(rules, path, entries[i]) + OwnedEntries(rules, path, entries[i + 1..])
    ensures EntriesSize(entries[i..]) == Size(entries[i].node) + EntriesSize(entries[i + 1..])
  {
    assert entries[i..][1..] == entries[i + 1..];
  }

  /** One directory: its stamped files are found and its directories wait on the stack. */
  method ScanDirectory(rules: Rules, path: string, entries: seq<Entry>, found0: seq<Found>, stack0: seq<Pending>)
    returns (found: seq<Found>, stack: seq<Pending>)
    ensures multiset(found) + OwnedStack(rules, stack)
         == multiset(found0) + OwnedStack(rules, stack0) + OwnedEntries(rules, path, entries)
    ensures StackSize(stack) <= StackSize(stack0) + EntriesSize(entries)
  {
    found, stack := found0, stack0;
    assert entries[0..] == entries;
    for i := 0 to |entries|
      invariant multiset(found) + OwnedStack(rules, stack) + OwnedEntries(rules, path, entries[i..])
             == multiset(found0) + OwnedStack(rules, stack0) + OwnedEntries(rules, path, entries)
      invariant StackSize(stack) + EntriesSize(entries[i..]) <= StackSize(stack0) + EntriesSize(entries)
    {
      var entry := entries[i];
      var child := Child(path, entry.name);
      NextEntry(rules, path, entries, i);
      match entry.node
      case Directory(_, _) =>
        if !rules.skips(entry.name) {
          Push(rules, stack, Pending(child, entry.node));
          stack := stack + [Pending(child, entry.node)];
        }
      case File(text) =>
        if rules.scans(entry.name) && text.Some? {
          var hash := Stamp.ExtractHash(text.value);
          if hash.Some? {
            found := found + [Found(child, hash.value)];
          }
        }
      case Special =>
    }
    assert entries[|entries|..] == [];
  }

  /** The loop over the explicit stack, for any rules. */
  method CollectHashes(rules: Rules, base: string, tree: Node) returns (found: seq<Found>)
    ensures multiset(found) == Owned(rules, base, tree)
  {
    found := [];
    var stack := [Pending(base, tree)];
    Push(rules, [], Pending(base, tree));
    assert [] + stack == stack;
    while stack != []
      invariant multiset(found) + OwnedStack(rules, stack) == Owned(rules, base, tree)
      decreases StackSize(stack)
    {
      var dir := stack[|stack| - 1];
      Pop(rules, stack);
      stack := stack[..|stack| - 1];
      if dir.node.Directory? && dir.node.readable {
        found, stack := ScanDirectory(rules, dir.path, dir.node.entries, found, stack);
      }
    }
  }

  /** What the walk of a repository finds, by the lists above. */
  ghost function Stamped(base: string, tree: Node): multiset<Found> {
    Owned(VerifyRules(), base, tree)
  }

  /** `collect_alef_hashes`: terminates, and finds exactly the stamped files of the tree. */
  method CollectAlefHashes(base: string, tree: Node) returns (found: seq<Found>)
    ensures multiset(found) == Stamped(base, tree)
  {
    found := CollectHashes(VerifyRules(), base, tree);
  }

  // ----- Stale files -----

  datatype Stale = Stale(path: string, embedded: string, computed: seq<string>)

  function StaleKey(stale: Stale): seq<int> { TextKey(stale.path) }

  /** The filter of `verify_walk`. */
  function UnlikeOne(found: seq<Found>, hash: string): seq<Stale> {
    if found == [] then []
    else
      (if found[0].hash != hash then [Stale(found[0].path, found[0].hash, [hash])] else [])
      + UnlikeOne(found[1..], hash)
  }

  /** The filter of `verify_walk_multi`. */
  function UnlikeAll(found: seq<Found>, hashes: seq<string>): seq<Stale> {
    if found == [] then []
    else
      (if found[0].hash !in hashes then [Stale(found[0].path, found[0].hash, hashes)] else [])
      + UnlikeAll(found[1..], hashes)
  }

  /** Sorted by path, exactly the files whose stamp is none of the hashes. */
  ghost predicate Reports(owned: multiset<Found>, hashes: seq<string>, stale: seq<Stale>) {
    && Sorted(stale, StaleKey)
    && (forall s | s in stale :: s.computed == hashes)
    && forall path: string, hash: string ::
         multiset(stale)[Stale(path, hash, hashes)] == if hash in hashes then 0 else owned[Found(path, hash)]
  }

  /** `verify_walk`: the stale files for one hash. */
  method VerifyWalk(base: string, tree: Node, hash: string) returns (stale: seq<Stale>)
    ensures Reports(Stamped(base, tree), [hash], stale)
  {
    var found := CollectAlefHashes(base, tree);
    stale := SortBy(UnlikeOne(found, hash), StaleKey);
    ShortcutAgrees(found, hash);
    SortedReports(found, [hash]);
  }

  /** `verify_walk_multi`; no hashes at all means nothing is stale. */
  method VerifyWalkMulti(base: string, tree: Node, hashes: seq<string>) returns (stale: seq<Stale>)
    ensures hashes == [] ==> stale == []
    ensures hashes != [] ==> Reports(Stamped(base, tree), hashes, stale)
  {
    if hashes == [] {
      return [];
    }
    if |hashes| == 1 {
      assert hashes == [hashes[0]];
      stale := VerifyWalk(base, tree, hashes[0]);
      return;
    }
    var found := CollectAlefHashes(base, tree);
    stale := SortBy(UnlikeAll(found, hashes), StaleKey);
    SortedReports(found, hashes);
  }

  /** The shortcut for one hash filters like the general case. */
  lemma {:induction false} ShortcutAgrees(found: seq<Found>, hash: string)
    ensures UnlikeOne(found, hash) == UnlikeAll(found, [hash])
  {
    if found != [] {
      ShortcutAgrees(found[1..], hash);
      assert found[0].hash in [hash] <==> found[0].hash == hash;
    }
  }

  lemma CountCons<T>(x: T, xs: seq<T>, y: T)
    ensures multiset([x] + xs)[y] == multiset(xs)[y] + if x == y then 1 else 0
  {
    assert multiset([x] + xs) == multiset{x} + multiset(xs);
  }

  lemma {:induction false} UnlikeCounts(found: seq<Found>, hashes: seq<string>, path: string, hash: string)
    ensures multiset(UnlikeAll(found, hashes))[Stale(path, hash, hashes)]
         == if hash in hashes then 0 else multiset(found)[Found(path, hash)]
  {
    if found != [] {
      UnlikeCounts(found[1..], hashes, path, hash);
      var first, rest := found[0], UnlikeAll(found[1..], hashes);
      assert found == [first] + found[1..];
      CountCons(first, found[1..], Found(path, hash));
      CountCons(Stale(first.path, first.hash, hashes), rest, Stale(path, hash, hashes));
    }
  }

  lemma {:induction false} UnlikeComputed(found: seq<Found>, hashes: seq<string>, s: Stale)
    requires s in UnlikeAll(found, hashes)
    ensures s.computed == hashes
  {
    if s in UnlikeAll(found[1..], hashes) { UnlikeComputed(found[1..], hashes, s); }
  }

  lemma SortedReports(found: seq<Found>, hashes: seq<string>)
    ensures Reports(multiset(found), hashes, SortBy(UnlikeAll(found, hashes), StaleKey))
  {
    var unlike := UnlikeAll(found, hashes);
    var stale := SortBy(unlike, StaleKey);
    SortByIs(unlike, StaleKey);
    forall s | s in stale ensures s.computed == hashes {
      assert s in multiset(stale);
      UnlikeComputed(found, hashes, s);
    }
    forall path: string, hash: string
      ensures multiset(stale)[Stale(path, hash, hashes)]
           == if hash in hashes then 0 else multiset(found)[Found(path, hash)] {
      UnlikeCounts(found, hashes, path, hash);
    }
  }
}
