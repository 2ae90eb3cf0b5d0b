/** The pass that stamps the written files (src/cli/pipeline/generate/write.rs): every file
    with a marker is stripped and stamped anew, the others are left alone. */
module Finalize {
  import opened Text
  import opened Stamp

  /** A marker is on one of the first ten lines. */
  predicate Marked(content: string) {
    MarkerWithin(Lines(content), 10).Some?
  }

  function Finalized(content: string, hash: string): string {
    if Marked(content) then Inject(Strip(content), hash) else content
  }

  function Finalizer(hash: string): string -> string { (content: string) => Finalized(content, hash) }

  /** The files after `f` was applied to the listed ones. */
  function Rewritten(files: map<string, string>, paths: set<string>, f: string -> string): map<string, string> {
    map p | p in files :: if p in paths then f(files[p]) else files[p]
  }

  /** The listed files that `f` changes. */
  function Changed(files: map<string, string>, paths: set<string>, f: string -> string): set<string> {
    set p | p in paths && p in files && f(files[p]) != files[p]
  }

  /** What becomes of one file, and whether it is written. */
  method FinalizeFile(content: string, hash: string) returns (final: string, wrote: bool)
    ensures final == Finalized(content, hash) && (wrote <==> final != content)
  {
    if !Marked(content) { return content, false; }
    var stripped := StripHashLine(content);
    final := InjectHashLine(stripped, hash);
    return final, final != content;
  }

  /** The loop over the paths, in whatever order they are taken. */
  method FinalizeHashes(before: map<string, string>, paths: set<string>, hash: string)
    returns (files: map<string, string>, updated: nat)
    ensures files == Rewritten(before, paths, Finalizer(hash))
    ensures updated == |Changed(before, paths, Finalizer(hash))|
  {
    files := before;
    updated := 0;
    var rest := paths;
    NothingYet(before, Finalizer(hash));
    while rest != {}
      invariant rest <= paths
      invariant files == Rewritten(before, paths - rest, Finalizer(hash))
      invariant updated == |Changed(before, paths - rest, Finalizer(hash))|
      decreases rest
    {
      var path :| path in rest;
      Next(before, paths - rest, path, Finalizer(hash));
      assert paths - (rest - {path}) == paths - rest + {path};
      rest := rest - {path};
      if path in files {
        var final, wrote := FinalizeFile(files[path], hash);
        if wrote {
          files := files[path := final];
          updated := updated + 1;
        }
      }
    }
    assert paths - rest == paths;
  }

  lemma NothingYet(files: map<string, string>, f: string -> string)
    ensures Rewritten(files, {}, f) == files && Changed(files, {}, f) == {}
  {
  }

  predicate Changes(files: map<string, string>, path: string, f: string -> string) {
    path in files && f(files[path]) != files[path]
  }

  lemma NextFiles(files: map<string, string>, seen: set<string>, path: string, f: string -> string)
    requires path !in seen
    ensures Rewritten(files, seen + {path}, f)
         == if Changes(files, path, f) then Rewritten(files, seen, f)[path := f(files[path])]
            else Rewritten(files, seen, f)
  {
  }

  /** One more path. */
  lemma Next(files: map<string, string>, seen: set<string>, path: string, f: string -> string)
    requires path !in seen
    ensures Rewritten(files, seen + {path}, f)
         == if Changes(files, path, f) then Rewritten(files, seen, f)[path := f(files[path])]
            else Rewritten(files, seen, f)
    ensures |Changed(files, seen + {path}, f)| == |Changed(files, seen, f)| + if Changes(files, path, f) then 1 else 0
  {
    NextFiles(files, seen, path, f);
    assert Changed(files, seen + {path}, f) == Changed(files, seen, f) + if Changes(files, path, f) then {path} else {};
  }
}
