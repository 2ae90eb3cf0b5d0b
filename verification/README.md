# Alef: the algorithmic kernels, modelled and proved in Dafny

Alef generates language bindings from a Rust API. Most of it is string templates; this
project models the five kernels that are algorithms over unbounded inputs, and proves what
their documentation and tests promise:

1. **Conditional functions.** Functions of one name under different `#[cfg]` gates are
   collapsed into one whose gate is the OR of theirs; a recursive, depth-counting parser reads
   features back out of such gates (`Cfg`, `FnDedup`, `FnDedupLaws`).
2. **Freshness.** Stamping, extracting and stripping the `alef:hash:` line, the documentation
   header, the pass that stamps the written files, TOML canonicalisation, the hash stream over
   source files, and the verify walk (`Stamp`, `StampLaws`, `StampLines`, `Finalize`,
   `FinalizeLaws`, `DocsHeader`, `DocsHeaderLaws`, `Toml`, `Sources`, `SourcesLaws`, `Walk`,
   `WalkLaws`, `WalkNames`).
3. **The memo of the sources hash**, over every run of file edits and queries, and why each
   condition on the runs is needed (`Memo`, `MemoRuns`, `MemoLimits`).
4. **Names.** The greedy initialism rewriter, the acronym-aware snake-caser, the symbol
   sanitiser and JNI mangling (`Initialisms`, `InitialismsLaws`, `Snake`, `SnakeLaws`, `Symbols`,
   `SymbolWords`, `Jni`).
5. **Markdown passes** over documentation: heading demotion, blank lines before lists,
   removal of Rust-only sections, wrapping of bare URLs (`Fences`, `Headings`, `HeadingsLaws`,
   `HeadingLines`, `Lists`, `ListsLaws`, `Sections`, `SectionsLaws`, `SectionRules`, `Urls`,
   `UrlsLaws`, `UrlPlaces`).

`LfLaws` collects what the laws of 2 and 5 come to for texts without carriage returns.

`Text` holds the Rust string operations with their corner cases (`lines()` drops one carriage
return, trimming follows Unicode White_Space), `Order` the stable library sort, `Digest` the
hexadecimal digest. Every imperative routine is a method with its loops, proved equal to a
specification function or relation; the laws are lemmas about the specifications, and what each
specification decides is also stated on the characters of its input, without it. Where a
routine's body is split into several methods, each is one loop or one loop body of the source.

`dafny verify dfyconfig.toml` checks everything.

## Conventions

- A `string` stands for a Rust string; for hashing, a text stands for its UTF-8 bytes and a
  file content for its raw bytes.
- BLAKE3 is an arbitrary function from what was fed to the hasher to a number, shown as 64
  hexadecimal digits. No law assumes that it is injective.
- A hash map's iteration order is an arbitrary choice (`:|`) in the methods, so a result proved
  equal to a function of the input does not depend on it.
- The file system is a map (or, for the walk, a tree); errors are values.

## Where code and documentation part

- `inject_hash_line` is documented to return a text without a marker unchanged. It rebuilds the
  text from `lines()`, so this holds exactly when the text has no CRLF (`StampLaws.InjectUnchanged`;
  `StampLaws.CrLfIsRewritten` is such a text).
- A stamp is written after a marker on any of the first ten lines but read from the first ten
  only, and an earlier stamp wins: `StampLaws.StampReadsBack` gives the exact condition, and
  `StampLaws.LateMarkerUnread` a text whose stamp is read by nobody.
- `sources_hash` is documented to be always equivalent to recomputing. `MemoRuns.RunsAreFresh`
  proves that over every run in which queries name each path once, no queried path holds a tab
  or a line feed or is just `aggregate`, and no edit shows again a modification time and size
  that the path had with another content (and sizes and times fit in 64 bits). Each condition
  but the last is needed: `MemoLimits` gives, for every one of them, runs that break only that
  one, with the exact condition under which the answer is wrong (`RepeatedPathMisleads`,
  `TabbedPathMisleads`, `BrokenPathMisleads`, `SameStatMisleads`, `AggregateFileMisleads`) and a
  digest under which it is.
- `dedup_same_name_functions` is documented to collapse all functions of one name. Duplicates
  whose gates are all equal are kept (`FnDedupLaws.MergedIffDiffering`, `FnDedupLaws.DedupOfName`,
  `FnDedupLaws.EqualGatesBothKept`).
- `with_html_header` inserts a second header exactly below nine or more lines of frontmatter
  (`DocsHeaderLaws.HeaderIdempotent`; `DocsHeaderLaws.LongFrontHeadedTwice` is such a page).
- The initialism rewriter is idempotent for the C# list, not for the Go list
  (`InitialismsLaws.CsharpListStable`, `InitialismsLaws.GoListNotIdempotent`).
- `jni_symbol` leaves `$` as it is, where the JNI Specification, chapter 2 "Design Overview",
  section "Resolving Native Method Names", wants `_00024` (`Jni.FollowsStandardUnlessDollar`,
  `Jni.DollarStays`).
- When no crate's hash could be computed, the first check of the verify command is silent about
  every stamp, and the second still tolerates as many stamps as there are crates, or one;
  otherwise what the first lets pass is consistent (`WalkLaws.NothingOverlooked`).
- `demote_headings` is documented to leave code blocks alone. Its final trim drops blank lines at
  the end of unclosed code and whitespace at the end of its last line, and rebuilding drops
  carriage returns: `HeadingsLaws.DemoteKeepsCode` gives the exact condition for every line of
  code to stay, `HeadingsLaws.CodeLosesBlank` a document that loses a blank.
- The collector finds no feature in `not(feature = "x",)`, where a comma follows the element, and
  all of them otherwise (`Cfg.CollectedFeatures`, `Cfg.CommaHidesFeature`).
- `finalize_hashes` is documented to stamp every file with a marker. The stamp of a file with its
  only marker on the tenth line is read by nobody (`FinalizeLaws.FinalizedShows`,
  `FinalizeLaws.LateMarkerFinalized`).

## Model

| member | source | states |
|---|---|---|
| Cfg.ParseCfgList | src/codegen/cfg.rs:108-137 | The character loop with `depth` and `current` yields the top-level elements of a list, trimmed, empty ones dropped. |
| Cfg.CollectCfgFeatureNames | src/codegen/cfg.rs:27-48 | Adds to a feature set exactly the features of the condition that the text denotes, and terminates because every text it descends into is strictly shorter. |
| Cfg.CollectEach | src/codegen/cfg.rs:40-42 | The loop over the elements of one list adds the union of their features. |
| Cfg.NormalizePrint | src/codegen/cfg.rs:28-29 | Trimming and replacing `" ("` turns token-stream spacing into tight spacing and changes nothing else. |
| Cfg.SplitTopList | src/codegen/cfg.rs:108-137 | Splitting a printed list, tight or padded, with or without a comma at its end, gives back the printed elements and does not split inside nested groups. |
| Cfg.ReadPrint | src/codegen/cfg.rs:27-48 | What reading any printed condition gives, with any mixture of layouts: the condition, but that the inside of a `not` with a comma after its element is one unknown predicate. |
| Cfg.ReadsBack | src/codegen/cfg.rs:27-48 | Reading a printed condition gives back the condition exactly when no `not` in it has a comma after its element. |
| Cfg.CollectedFeatures | src/codegen/cfg.rs:14-26 | For every printed condition the collector finds exactly the features that occur in it, at any nesting, outside each `not` with a comma after its element; it finds all of them exactly when each also occurs outside. |
| Cfg.CommaHidesFeature | src/codegen/cfg.rs:44-47 | A `not` with such a comma of which the collector misses the only feature. |
| Cfg.PrintedMeaning | src/codegen/fn_dedup.rs:108-123 | No text prints two conditions of which one holds and the other does not, so a printed condition has one meaning. |
| Cfg.PrintInjective | src/codegen/cfg.rs:27-48 | Two conditions that print alike differ at most in layout, commas at the end included. |
| FnDedup.CollectFunctionGroups | src/codegen/fn_dedup.rs:76-82 | Maps every name to the positions of its functions, in order. |
| FnDedup.GroupsToMerge | src/codegen/fn_dedup.rs:84-98 | Yields, in whatever order the map iterates, each group of two or more whose gates are not all equal, and no other. |
| FnDedup.MergeCfgs | src/codegen/fn_dedup.rs:108-123 | No gate if some member has none, the single distinct gate, or `any(...)` over the distinct gates in first-occurrence order. |
| FnDedup.PickCanonicalEntry | src/codegen/fn_dedup.rs:129-138 | The first member whose parameters are not all underscored, else the first member. |
| FnDedup.MergeGroups | src/codegen/fn_dedup.rs:47-64 | Whatever the order of the groups, the loop records each group's canonical entry at its first position and skips its other positions. |
| FnDedup.DedupSameNameFunctions | src/codegen/fn_dedup.rs:40-74 | The pass computes one function of its input, independent of hash-map iteration order. |
| FnDedupLaws.MergeMeaning | src/codegen/fn_dedup.rs:100-123 | The merged gate holds under a valuation exactly when one of the merged gates does. |
| FnDedupLaws.MergedText | src/codegen/fn_dedup.rs:108-123 | Gates of which all are there are merged into a text that holds each once, in the order of first occurrence, alone or in `any(...)` separated by a comma and a space. |
| FnDedupLaws.MergedNothing | src/codegen/fn_dedup.rs:108-123 | There is no merged gate exactly for no gates at all or when some member has none. |
| FnDedupLaws.MergeFeatures | src/codegen/fn_dedup.rs:108-123 | Collecting from the merged gate of an all-conditional group yields the union of the members' features. |
| FnDedupLaws.DedupPositions | src/codegen/fn_dedup.rs:37-39 | The output is the surviving positions in input order, and entries outside merged groups keep their content. |
| FnDedupLaws.CanonicalSignature | src/codegen/fn_dedup.rs:125-138 | The surviving entry is a group member with only its gate replaced: the first whose parameters are none or not all underscored, or the first when there is no such member. |
| FnDedupLaws.DedupOfName | src/codegen/fn_dedup.rs:32-36 | A name with differing gates ends as exactly one entry; the functions of any other name are all kept. |
| FnDedupLaws.MergedIffDiffering | src/codegen/fn_dedup.rs:92-98 | A group is merged exactly when two functions of its name have different gates. |
| FnDedupLaws.EqualGatesBothKept | src/codegen/fn_dedup.rs:84-98 | Two functions of one name and one gate are both kept. |
| FnDedupLaws.DedupAvailability | src/codegen/fn_dedup.rs:14-25 | Under every feature valuation a name is available after the pass exactly when it was before. |
| FnDedupLaws.DedupIdempotent | src/codegen/fn_dedup.rs:40-74 | Running the pass on its own output changes nothing. |
| FnDedupLaws.CollectFunctionFeatures | src/codegen/cfg.rs:100-104 | The loop over an API's functions collects exactly the features of their gates. |
| FnDedupLaws.DedupFeatures | src/codegen/fn_dedup.rs:40-74 | The features collected from the functions are unchanged by the pass, except exactly those that only occur in merged groups with an unconditional member. |
| Stamp.InjectHashLine | src/core/hash.rs:345-371 | The line loop inserts the stamp after the first marker within ten lines and keeps the text's ending, as `StampLines.InjectedLine` writes out. |
| StampLines.InjectedLine | src/core/hash.rs:345-371 | A text with one of the two header texts among its first ten lines gets, behind the first of those lines, the hash in the comment style of that line: `<!-- -->`, `//`, `#`, ` *`, else `//`; nothing else is added. |
| StampLines.StampStyle | src/core/hash.rs:353-364 | The stamp of an HTML, slash, pound or star comment is such a comment. |
| StampLines.MarkerIs | src/core/hash.rs:352 | A marker line is one that holds one of the two header texts. |
| Stamp.ExtractHash | src/core/hash.rs:380-394 | The loop returns the first non-empty cleaned hash of the first ten lines. |
| StampLines.ExtractReads | src/core/hash.rs:380-394 | A first line with the prefix, among the first ten, that holds a hash with whitespace around it and one of the comment ends behind it shows that hash. |
| StampLines.NothingToRead | src/core/hash.rs:380-394 | Without the prefix on its first ten lines a text shows no hash. |
| Stamp.StripHashLine | src/core/hash.rs:397-410 | The loop drops exactly the lines that contain the hash prefix and keeps the text's ending. |
| StampLines.StripRemoves | src/core/hash.rs:397-410 | Stripping takes away a line with the prefix wherever it is. |
| StampLines.StripKeeps | src/core/hash.rs:397-410 | A text without such a line is left as it is, exactly when it has no CRLF. |
| Stamp.ComputeFileHash | src/core/hash.rs:330-338 | Hashes the sources hash and the stripped content, framed by their labels. |
| StampLines.FileHashIs | src/core/hash.rs:330-338 | For a text without stamps and CRLF the hash is that of `sources`, the sources hash, `content` and the text, with NUL characters between. |
| StampLaws.HashLineReadsBack | src/core/hash.rs:345-394 | In every comment style the stamp line reads back as the stamped hash. |
| StampLaws.ExtractOfInject | src/core/hash.rs:345-394 | What a stamped text shows, in all cases: the new hash, an earlier stamp, or what it showed before. |
| StampLaws.StampReadsBack | src/core/hash.rs:345-394 | Every hash reads back exactly when a marker is on one of the first nine lines and no stamp is read from the lines up to it. |
| StampLaws.LateMarkerUnread | src/core/hash.rs:345-394 | A text with a marker on its tenth line, whose stamp is not read back. |
| StampLaws.StripOfInject | src/core/hash.rs:345-410 | Stripping a stamped text gives what stripping the text gives, exactly when no kept line that stamping leaves ended by a line feed still ends in a carriage return. |
| StampLaws.FileHashIgnoresStamp | src/core/hash.rs:322-338 | The file hash of a stamped text is that of the text, for every digest and sources hash, exactly for the same texts. |
| StampLaws.StampedFileVerifies | src/core/hash/tests.rs:756-769 | A file stamped with its own hash shows the hash that hashing it again gives, for every digest and sources hash, exactly when its stamps read back and the hash ignores them. |
| Finalize.FinalizeFile | src/cli/pipeline/generate/write.rs:121-142 | One file: left alone without a marker in its first ten lines, else stripped and stamped anew; written exactly when that changes it. |
| StampLines.MarkedIs | src/cli/pipeline/generate/write.rs:125-131 | Exactly the files with one of the two header texts in their first ten lines are stamped. |
| Finalize.FinalizeHashes | src/cli/pipeline/generate/write.rs:119-145 | The loop over the paths, in any order, rewrites the listed files that exist and counts those that change. |
| FinalizeLaws.FinalizeTwice | src/cli/pipeline/generate/write.rs:114-145 | Finalising again with another hash gives what that hash alone gives, so a second run with one hash rewrites nothing, exactly when the file is without a marker, before or after its stamps are taken off, or no ended line of the stripped text still ends in a carriage return. |
| FinalizeLaws.FinalizedBodyStays | src/cli/pipeline/generate/write.rs:83-92 | A finalised file counts as unchanged when the same content is generated again, exactly when it is without a marker, or its stripped text has no CRLF and no ended line that ends in a carriage return. |
| FinalizeLaws.FinalizedShows | src/cli/pipeline/generate/write.rs:124-142 | Every hash a file with a marker is finalised with is the one it shows, exactly when a marker is on one of its first nine lines without stamps. |
| FinalizeLaws.LateMarkerFinalized | src/cli/pipeline/generate/write.rs:124-142 | A text with a marker on its tenth line, which is finalised and shows no hash. |
| LfLaws.StampPasses | src/core/hash.rs:340-410 | For texts without carriage returns: a stamp can be stripped again, no digest sees it, and a text without a marker is returned unchanged. |
| LfLaws.StampedFilePasses | src/core/hash/tests.rs:756-769 | For texts without carriage returns a file stamped with its own hash verifies exactly when its stamps read back. |
| LfLaws.FinalizePasses | src/cli/pipeline/generate/write.rs:78-145 | For texts without carriage returns the last finalising run decides, a second run with one hash rewrites nothing, and the body stays as generated. |
| StampLaws.RebuiltUnchanged | src/core/hash.rs:345-371 | Splitting a text into lines and rebuilding it changes nothing exactly when it has no CRLF. |
| StampLaws.InjectUnchanged | src/core/hash.rs:340-371 | A text without a marker in its first ten lines is returned unchanged exactly when it has no CRLF. |
| StampLaws.CrLfIsRewritten | src/core/hash.rs:340-371 | A text without a marker that is not returned unchanged. |
| StampLaws.StripLeavesNoStamp | src/core/hash.rs:397-410 | No line of a stripped text is a stamp. |
| StampLaws.StripIdempotent | src/core/hash.rs:397-410 | Stripping twice is stripping once exactly when no kept line, the last of an unended text aside, still ends in a carriage return after `lines()` dropped one. |
| StampLaws.CleanStrip | src/core/hash.rs:397-410 | For texts whose lines carry no carriage return of their own, stripping is idempotent. |
| DocsHeader.YamlFrontmatterEnd | src/docs/render.rs:327-343 | The offset loop returns the end of the line of the second `---`, when the text starts with one. |
| DocsHeader.FrontmatterEndIs | src/docs/render.rs:327-343 | The cut is at a line boundary directly after the closing `---`, no line in between is one, and the two parts make up the text. |
| DocsHeaderLaws.NewPage | src/docs/render.rs:298-325 | A page whose header is inserted after frontmatter starts with that frontmatter, a blank line and the header, is ended by a line feed, and is read again with frontmatter of as many lines. |
| DocsHeaderLaws.FrontedPage | src/docs/render.rs:306-325 | A page with frontmatter and no header becomes the frontmatter ended by a line feed, a blank line, the header and the rest once, without the whitespace in front of it, ended by a line feed. |
| DocsHeaderLaws.OtherPage | src/docs/render.rs:298-325 | Without frontmatter the header comes first; a page with a header only loses its leading whitespace and is ended by a line feed. |
| DocsHeaderLaws.FrontmatterCountIs | src/docs/render.rs:327-343 | The frontmatter has `k` lines exactly when the first and the `k`-th are fences and none in between is. |
| DocsHeaderLaws.FenceIs | src/docs/render.rs:327-343 | A fence is three dashes followed by carriage returns and line feeds only. |
| DocsHeaderLaws.HeaderWithinTen | src/docs/render.rs:300-304 | A page has a header exactly when one of its first ten lines holds the header text. |
| DocsHeader.WithHtmlHeader | src/docs/render.rs:298-325 | The page with the documentation header: kept when it has one, else inserted at the top or after the frontmatter. |
| DocsHeaderLaws.HeaderIdempotent | src/docs/render.rs:298-343 | Inserting the header twice is inserting it once exactly when the text has one already, has no frontmatter, or at most eight lines of it. |
| DocsHeaderLaws.PageShowsStamp | src/docs/render.rs:298-343 | A page shows every hash it is stamped with exactly when, up to its title line (in the whole content, where that has a header already), a marker is on one of the first nine lines and no stamp is read up to it. |
| DocsHeaderLaws.NewHeaderShowsStamp | src/docs/render.rs:298-343 | In particular a page whose header was just inserted does, when its frontmatter has at most seven lines and no stamp. |
| DocsHeaderLaws.LongFrontHeadedTwice | src/docs/render.rs:298-325 | A page with nine lines of frontmatter that gets a second header. |
| DocsHeaderLaws.DocsHeaderValid | src/docs/render.rs:289-325 | The header in use is one the two laws above apply to. |
| Toml.SortTomlValue | src/core/hash.rs:289-303 | The recursive sort with its in-place key sort and insertions computes the canonical form. |
| Toml.CanonicalIsEquivalent | src/core/hash.rs:287-303 | Canonicalising only reorders table keys. |
| Toml.CanonicalAscends | src/core/hash.rs:289-303 | In the canonical form the keys of every table, at every depth, ascend by code point. |
| Toml.CanonicalIffEquivalent | src/core/hash.rs:262-303 | Two values have the same canonical form exactly when they are equal up to the order of table keys at every depth, arrays keeping their order. |
| Toml.CanonicalIdempotent | src/core/hash.rs:289-303 | Canonicalising twice is canonicalising once. |
| Sources.HashPaths | src/core/hash.rs:160-168 | The hashing loop feeds the stream of the listed files, or fails at the first missing one. |
| Digest.HexIs | src/core/hash.rs:168 | The digest is shown as its 64 hexadecimal digits. |
| Sources.ComputeSourcesHash | src/core/hash.rs:156-169 | The fingerprint of the sorted list, with the laws of `SourcesLaws`. |
| SourcesLaws.FingerprintIff | src/core/hash.rs:156-169 | For paths and contents without NUL and paths without backslash: no digest tells two lists of files apart exactly when they name the same paths, each as often, with the same contents. |
| SourcesLaws.RelocationKeepsHash | src/core/hash.rs:306-319 | Files below the working directory have the fingerprint of their relative paths, wherever the directory is. |
| SourcesLaws.OutsideKeepsPath | src/core/hash.rs:306-319 | For files outside it the working directory does not matter. |
| SourcesLaws.OneFile | src/core/hash.rs:160-168 | What is hashed for one file: `src`, the path and the content, with NUL characters between; a backslash in the path counts as a slash. |
| SourcesLaws.FedInOrder | src/core/hash.rs:158-159 | The files are fed in the order of their paths, component by component. |
| SourcesLaws.MissingFails | src/core/hash.rs:154-161 | The fingerprint fails exactly when some file is missing, and names one that is. |
| Sources.ComputeCrateSourcesHash | src/core/hash.rs:195-222 | The fingerprint of the sorted union of a crate's own and its source crates' files, each path once. |
| Sources.UnframeStream | src/core/hash.rs:160-168 | For NUL-free names and contents a decoder recovers the list of files from the stream. |
| Sources.StreamInjective | src/core/hash.rs:160-168 | For NUL-free names and contents two streams are equal exactly when the lists of files are. |
| Sources.NulBreaksFraming | src/core/hash.rs:160-168 | A NUL in a content can make one file look like two. |
| Sources.CrateHashBySet | src/core/hash.rs:182-184 | The crate fingerprint depends only on the set of paths, in any order and multiplicity, over sources and source crates. |
| SourcesLaws.CrateFingerprintIff | src/core/hash.rs:171-222 | No digest tells two crates apart exactly when they have the same set of paths with the same contents, for such paths and contents. |
| Sources.CrateHashAgrees | src/core/hash.rs:171-222 | Without source crates and repeated paths the crate fingerprint is the plain one. |
| Memo.ReadPerFileMemo | src/cli/cache.rs:71-95 | The line loop over the memo file, with its prefix, field count and number rules. |
| Memo.WritePerFileMemo | src/cli/cache.rs:97-106 | The text built line by line. |
| Memo.OneLineMemo | src/cli/cache.rs:97-106 | The memo of one file, character by character. |
| Memo.DecimalRoundTrip | src/cli/cache.rs:88-89 | Every u64 survives the decimal text. |
| Memo.OtherNumbers | src/cli/cache.rs:88-89 | Texts that are no number and numbers that are too large read as zero; a plus sign in front is allowed. |
| Memo.MemoRoundTrip | src/cli/cache.rs:71-106 | Reading back a written memo gives the aggregate and the entries that were written. |
| MemoRuns.Workspace.SourcesHash | src/cli/cache.rs:28-63 | The query answers and updates the memo file as specified, and changes no source file. |
| MemoRuns.StatAndMatch | src/cli/cache.rs:34-54 | The stat loop yields the stats of all files, or the first missing one, and whether all match the memo. |
| MemoRuns.QueryIsFresh | src/cli/cache.rs:20-27 | In every state of a run a query answers what full recomputation would, and leaves a memo that can be trusted. |
| MemoRuns.StepKeepsInvariant | src/cli/cache.rs:28-63 | Every edit, removal and query keeps the invariant that the memo was taken from versions that were on disk. |
| MemoRuns.RunsAreFresh | src/cli/cache.rs:20-63 | Over every run that meets the conditions listed above, each query answers what full recomputation would. |
| MemoRuns.FirstRunsAreFresh | src/cli/cache.rs:20-63 | In particular over every run that starts from any files without a memo. |
| MemoLimits.AskAgain | src/cli/cache.rs:56-63 | Asking again before anything changes answers the same from the memo, without hashing and without writing. |
| MemoLimits.MemoStays | src/cli/cache.rs:30-63 | A query that fails or that cannot write leaves the memo as it is. |
| MemoLimits.RepeatedPathMisleads | src/cli/cache.rs:36-60 | A memo taken for two files answers a query that names one of them twice; the answers are right exactly when the two lists have one fingerprint. |
| MemoLimits.RepeatedPathMisled | src/cli/cache.rs:36-60 | For two NUL-free files that differ in name or content some digest makes that answer wrong. |
| MemoLimits.TabbedPathMisleads | src/cli/cache.rs:82-93 | The line of a path with a tab is skipped, so a memo taken for it and another file answers a query for the other alone, rightly exactly when both have one fingerprint. |
| MemoLimits.TabbedPathMisled | src/cli/cache.rs:82-93 | Some digest makes that answer wrong, whatever the files. |
| MemoLimits.BrokenPathMisleads | src/cli/cache.rs:77-93 | The line of a path with a line feed is read as that of what follows it, so it answers for that file when their stats agree, rightly exactly when both have one fingerprint. |
| MemoLimits.BrokenPathMisled | src/cli/cache.rs:77-93 | For two NUL-free files some digest makes that answer wrong. |
| MemoLimits.SameStatMisleads | src/cli/cache.rs:43-54 | An edit that keeps modification time and size goes unnoticed; the answer is right exactly when the fingerprint did not change either. |
| MemoLimits.SameStatMisled | src/cli/cache.rs:43-54 | When the content changed some digest makes that answer wrong. |
| MemoLimits.AggregateFileMisleads | src/cli/cache.rs:82-85 | A source file named `aggregate` makes the next query answer with a stat instead of a hash, which is wrong under every digest. |
| Initialisms.SplitWords | src/codegen/naming.rs:537-546 | The loop cuts a non-empty name before each uppercase letter; the words make up the name. |
| Initialisms.SpanFrom | src/codegen/naming.rs:551-561 | The inner loop finds the longest span of words that spells an initialism. |
| Initialisms.ApplyInitialisms | src/codegen/naming.rs:532-568 | The greedy word loop computes the rewriting defined directly on the text. |
| InitialismsLaws.RewriteListed | src/codegen/naming.rs:548-561 | The longest prefix that ends in front of a capital or at the end and spells an entry is replaced by the first entry it spells; the rest is rewritten alike. |
| InitialismsLaws.RewriteUnlisted | src/codegen/naming.rs:562-565 | Where no such prefix spells an entry, the first word stays and the rest is rewritten alike. |
| InitialismsLaws.RewriteConserves | src/codegen/naming.rs:526-568 | For every name and list the result equals the name up to ASCII case. |
| InitialismsLaws.RewriteIdempotent | src/codegen/naming.rs:532-568 | For lists with distinct, prefix-free, overlap-free spellings that start uppercase, rewriting twice is rewriting once, although results split into finer words. |
| InitialismsLaws.CsharpListStable | src/codegen/naming.rs:524 | The C# list is such a list. |
| InitialismsLaws.GoListNotIdempotent | src/codegen/naming.rs:512-521 | The Go list is not: a name whose second rewriting differs from its first. |
| Snake.PascalToSnake | src/codegen/naming.rs:777-822 | The run-scanning loops implement the rule for underscores that the next three rows write out. |
| SnakeLaws.SnakeOfWords | src/codegen/naming.rs:757-822 | A name made of words, each a run of capitals with no capital behind it and a boundary after it, is written as those words, lowercased and joined by underscores. |
| SnakeLaws.EveryNameHasWords | src/codegen/naming.rs:757-822 | Every name is made of such words. |
| SnakeLaws.AcronymThenWord | src/codegen/naming.rs:762-765 | A run of capitals in front of a capitalised word is a word of its own, as in `XMLHttp`. |
| Snake.SnakeIdempotent | src/codegen/naming.rs:777-822 | Snake-casing twice is snake-casing once. |
| Snake.SnakeTidy | src/codegen/naming.rs:777-822 | For names without underscores no underscore is leading, trailing or doubled. |
| Snake.EraseOfSnake | src/codegen/naming.rs:777-822 | Erasing underscores gives the lowercased name without its underscores. |
| Snake.EraseOfSnakeIsLower | src/codegen/naming.rs:777-822 | For names without underscores that is the lowercased name. |
| Snake.SnakeReversible | src/codegen/naming.rs:777-822 | Recapitalising after underscores recovers an underscore-free name exactly when it does not start lowercase and each later uppercase letter starts a word. |
| Snake.SnakeInjective | src/codegen/naming.rs:777-822 | No two such names share a snake case form. |
| Snake.CapitalizedWordsReversible | src/codegen/naming.rs:757-776 | Names made of capitalised words are such names. |
| Symbols.SanitizeSymbolComponent | src/codegen/naming.rs:400-418 | The character loop and the shrinking replace loop, which terminates, compute one-pass collapsing of underscore runs, trimmed and guarded against a leading digit. |
| SymbolWords.SanitizedWords | src/codegen/naming.rs:400-418 | A sanitised component is its longest runs of ASCII letters and digits, lowercased and joined by underscores, behind an underscore when the first starts with a digit. |
| Symbols.ReplaceCollapses | src/codegen/naming.rs:409-411 | One round of the replace loop keeps what collapsing runs would give. |
| Symbols.ReplaceShrinks | src/codegen/naming.rs:409-411 | One round of the replace loop makes the text shorter. |
| Symbols.SanitizeFixpoints | src/codegen/naming.rs:400-418 | A text is sanitised already exactly when it has the sanitised shape, and sanitising is idempotent. |
| Symbols.AbiSymbolFromComponents | src/codegen/naming.rs:253-278 | The component loop computes the joined symbol. |
| SymbolWords.SymbolIsWords | src/codegen/naming.rs:253-278 | A symbol is the words of all its components joined by underscores; in front of a digit comes one underscore when the first component starts with it, two when a later one does. |
| Symbols.AbiSymbolIs | src/codegen/naming.rs:248-278 | The symbol is non-empty exactly when some component has an ASCII letter or digit, and is then an ASCII identifier. |
| Jni.EncodeIsOnePass | src/core/jni.rs:125 | The two sequential replacements encode each character by itself. |
| Jni.SymbolEncodesDottedName | src/core/jni.rs:124-134 | The symbol is the prefix and the encoding of the dotted name, so separators and package dots are one encoding. |
| Jni.DecodeEncode | src/core/jni.rs:125 | A decoder undoes the encoding exactly when no dot is followed by the digit one. |
| Jni.JniSymbolInjective | src/core/jni.rs:111-134 | For packages, classes and methods of ASCII Java identifiers, two symbols are equal exactly when all three parts are. |
| Jni.DigitSegmentCollides | src/core/jni.rs:124-134 | A package segment that starts with a digit collides with an underscored one. |
| Jni.ClassPrefix | src/core/jni.rs:113-115 | The empty method gives the common prefix of the class, which is also the symbol of a method in the package of that name. |
| Jni.FollowsStandardUnlessDollar | src/core/jni.rs:111-114 | On identifier characters the encoding is the standard's exactly when there is no dollar sign. |
| Jni.DollarStays | src/core/jni.rs:111-125 | A name that the standard writes otherwise. |
| Headings.CheckMonotonicHeadings | src/docs/doc_cleaning.rs:11-45 | The loop returns the first level skip outside fenced code. |
| HeadingLines.CheckNamesHeading | src/docs/doc_cleaning.rs:29-39 | A failed check names the text of the first heading more than one level below the heading before it. |
| HeadingLines.LevelOfIs | src/docs/doc_cleaning.rs:19-27 | A line outside code is a heading exactly when it starts with one to six `#`, and that many are its level. |
| HeadingLines.FenceIs | src/docs/doc_cleaning.rs:16 | A fence is a line with three backticks behind its leading whitespace. |
| HeadingLines.InCodeIs | src/docs/doc_cleaning.rs:16-22 | What follows an odd number of fences is code. |
| Headings.DemoteHeadings | src/docs/doc_cleaning.rs:50-82 | The fence-toggling loop demotes exactly the heading lines and trims the end. |
| HeadingLines.DemotedLineText | src/docs/doc_cleaning.rs:50-82 | Every line of the demoted document, from the trimmed one: code and lines with no `#` or more than six stay, a heading keeps its text and gets that many more `#`, at most six. |
| HeadingLines.DemotionKeepsText | src/docs/doc_cleaning.rs:72-76 | No line changes behind its `#`. |
| HeadingLines.NothingToDemote | src/docs/doc_cleaning.rs:50-97 | Demoting by nothing, or to a level that the first heading reaches already or without a heading, returns the document. |
| Headings.FirstHeadingLevel | src/docs/doc_cleaning.rs:99-118 | The loop returns the level of the first heading outside fenced code. |
| Headings.DemoteHeadingsToStartAt | src/docs/doc_cleaning.rs:88-97 | Demotes by the distance from the first heading to the clamped target. |
| HeadingsLaws.DemotedLine | src/docs/doc_cleaning.rs:50-82 | Each line of the demoted document: the trimmed document's own line when it is a fence or fenced code, that line demoted otherwise, less the carriage return a second reading drops. |
| HeadingsLaws.DemoteKeepsCode | src/docs/doc_cleaning.rs:46-82 | Demotion keeps every fence and every line of fenced code in its place exactly when each of them is among the lines before the blank ones at the end, has no whitespace at its end if it is the last of those, and no carriage return otherwise. |
| HeadingsLaws.DemoteKeepsLength | src/docs/doc_cleaning.rs:50-82 | Demotion keeps the number of lines exactly when the document does not end in a blank line. |
| HeadingsLaws.CodeLosesBlank | src/docs/doc_cleaning.rs:80-81 | A document with unclosed code that demotion changes. |
| Fences.TrimLinesShape | src/docs/doc_cleaning.rs:80-81 | Trimming the end of a document drops its blank last lines and the whitespace at the end of the line before them. |
| HeadingsLaws.DemoteComposes | src/docs/doc_cleaning.rs:50-82 | Demoting by a and then b is demoting by their sum, exactly when no line of the trimmed text still ends in a carriage return after `lines()` dropped one. |
| HeadingsLaws.DemoteShiftsLevels | src/docs/doc_cleaning.rs:46-82 | Demotion adds the same amount to every heading level, capped at six, and adds or loses no heading. |
| HeadingsLaws.CheckIsMonotonic | src/docs/doc_cleaning.rs:6-45 | The check accepts exactly the documents whose levels never rise by more than one, and otherwise reports the first place they do. |
| HeadingsLaws.DemoteKeepsMonotonic | src/docs/doc_cleaning.rs:6-82 | Demotion turns no accepted document into a rejected one. |
| HeadingsLaws.StartAtSetsFirstLevel | src/docs/doc_cleaning.rs:84-97 | The first heading ends at its own level or the clamped target, whichever is deeper. |
| HeadingLines.StartLevel | src/docs/doc_cleaning.rs:84-97 | The same with the clamping written out: a target below one counts as one, above six as six. |
| HeadingsLaws.StartAtIdempotent | src/docs/doc_cleaning.rs:84-97 | Doing it twice is doing it once. |
| Lists.IsListItemStart | src/docs/doc_cleaning.rs:198-218 | Decides list items, with the digit loop of numbered ones. |
| ListsLaws.ListItemIs | src/docs/doc_cleaning.rs:198-218 | A list item is at most three spaces, then a bullet or digits with a dot or parenthesis, then a space or a tab. |
| ListsLaws.NeedsBlankIs | src/docs/doc_cleaning.rs:247-258 | An empty line is put before exactly the list items outside code that directly follow a line which is neither blank nor a list item. |
| ListsLaws.SpacedNext | src/docs/doc_cleaning.rs:228-261 | What is written for one more line: the line, behind an empty one exactly in that case. |
| Lists.EnsureBlankBeforeLists | src/docs/doc_cleaning.rs:222-264 | The loop writes each line, with an empty line before list items that break a text. |
| ListsLaws.UnchangedIffSeparated | src/docs/doc_cleaning.rs:220-221 | The pass adds nothing exactly when every list item outside code follows a blank line or another item, or comes first. |
| ListsLaws.SpaceListsSeparates | src/docs/doc_cleaning.rs:220-264 | After the pass no list item outside a fence directly follows a non-blank line that is no list item. |
| ListsLaws.SpacedInsertsBlanks | src/docs/doc_cleaning.rs:222-264 | The output is the input with at most one empty line put before each line. |
| ListsLaws.SpaceListsConserves | src/docs/doc_cleaning.rs:222-264 | The non-blank lines are kept in order, up to the carriage return a second reading drops. |
| ListsLaws.SpaceListsIdempotent | src/docs/doc_cleaning.rs:222-264 | Repeating the pass changes nothing exactly when no line still ends in a carriage return after `lines()` dropped one. |
| Sections.IsRustCodeBlock | src/docs/doc_cleaning.rs:750-775 | Decides Rust blocks by their fence language and the patterns in their lines. |
| Sections.PlainLine | src/docs/doc_cleaning.rs:714-741 | What becomes of a line outside fenced code, and whether a section is being skipped after it. |
| Sections.StripRustSections | src/docs/doc_cleaning.rs:679-747 | The state machine with its block buffer keeps and drops plain lines and whole fenced blocks as the chunk-wise definition says. |
| SectionRules.KeepIsStays | src/docs/doc_cleaning.rs:679-747 | A plain line stays unless it heads a Rust-only section, continues a skipped one or is Rust by itself; a closed block stays unless it is in a skipped section, or its language is Rust or none and a line inside holds one of the patterns. |
| SectionRules.SkipAfterIs | src/docs/doc_cleaning.rs:714-736 | A section is being skipped exactly when a Rust-only heading is before and every plain line since is no heading and blank or a list item. |
| SectionRules.DocumentChunks | src/docs/doc_cleaning.rs:679-712 | The closed blocks of a document hold their two fences and lines without line feeds. |
| SectionsLaws.FlattenChunks | src/docs/doc_cleaning.rs:679-747 | Plain lines and fenced blocks hold every line of the document in order. |
| SectionsLaws.ChunksOfStripped | src/docs/doc_cleaning.rs:675-747 | The output, read as a document, consists of exactly the kept chunks: blocks whole and verbatim, no Rust block, no Rust line, no Rust-only heading. |
| SectionsLaws.StrippedIsSubsequence | src/docs/doc_cleaning.rs:679-747 | The output lines are a subsequence of the input lines, and the output chunks of the input chunks. |
| SectionsLaws.StripRustIdempotent | src/docs/doc_cleaning.rs:679-747 | Repeating the pass changes nothing exactly when no kept line still ends in a carriage return after `lines()` dropped one. |
| SectionsLaws.StripRustCleanIdempotent | src/docs/doc_cleaning.rs:679-747 | In particular for every text without stray carriage returns. |
| LfLaws.DocPasses | src/docs/doc_cleaning.rs:50-747 | For texts without carriage returns, spacing lists and stripping Rust sections are idempotent and demotions add up. |
| Urls.WrapMatches | src/docs/doc_cleaning.rs:122-141 | The loop over the leftmost matches, with text held back since the last one written, wraps each unshielded match. |
| Urls.WrapBareUrls | src/docs/doc_cleaning.rs:122-141 | The same with the URL expression. |
| UrlPlaces.FirstUrl | src/docs/doc_cleaning.rs:122-141 | The first URL of a text, to its first whitespace, `)`, `>` or `]`, stays when it follows `(` or `<` directly and gets brackets otherwise; the text before it stays and the text behind is treated alike. |
| UrlPlaces.NoUrl | src/docs/doc_cleaning.rs:122-141 | A text without a URL stays. |
| UrlPlaces.EveryText | src/docs/doc_cleaning.rs:122-141 | Every other text has a first URL of that form. |
| UrlsLaws.WrapConserves | src/docs/doc_cleaning.rs:122-141 | The result is the input with brackets put around some of its matches; without them it is the input again. |
| UrlsLaws.UnchangedIffNoBare | src/docs/doc_cleaning.rs:120-121 | A text is returned unchanged exactly when every match in it follows an opening parenthesis or bracket. |
| UrlsLaws.UrlLenIsUrlLike | src/docs/doc_cleaning.rs:123 | The URL expression ends at terminators, starts at none, and finds nothing new in a wrapped text. |
| UrlsLaws.WrapUrlsIdempotent | src/docs/doc_cleaning.rs:122-141 | Wrapping leaves no bare URL, and wrapping again changes nothing. |
| Urls.PassOver | src/docs/mod.rs:62-67 | The loop over the pages wraps the URLs of each in place and ends it with a line feed. |
| UrlsLaws.PassIdempotent | src/docs/mod.rs:62-67 | Pages that go through this pass twice come out as after the first time, without a bare URL and ended by a line feed. |
| Walk.ExtensionIs | src/bin_cli/helpers.rs:288-297 | A name has an extension exactly when it is a non-empty stem, a dot and a dot-free rest; `..` has none. |
| Walk.ScanDirectory | src/bin_cli/helpers.rs:268-308 | One directory's stamped files are found and its unskipped directories pushed, with nothing lost or counted twice. |
| Walk.CollectHashes | src/bin_cli/helpers.rs:259-311 | The explicit-stack walk terminates and returns, as a multiset, exactly the stamped scannable files not below a skipped or unreadable directory, for any lists of skipped directories and scanned extensions. |
| Walk.CollectAlefHashes | src/bin_cli/helpers.rs:221-311 | The same with the lists in use. |
| Walk.ScannedName | src/bin_cli/helpers.rs:249-297 | With the extensions in use a name is scanned exactly when it is a non-empty stem, a dot and a dot-free rest that is one of them up to ASCII case. |
| Walk.VerifyWalk | src/bin_cli/helpers.rs:394-407 | Sorted by path, exactly the files whose stamp is not the hash, each as often as found. |
| Walk.VerifyWalkMulti | src/bin_cli/helpers.rs:356-379 | Sorted by path, exactly the files whose stamp is none of the hashes; with no hashes nothing. |
| Walk.ShortcutAgrees | src/bin_cli/helpers.rs:363-365 | The shortcut for one hash filters like the general case. |
| WalkLaws.DetectHashInconsistency | src/bin_cli/helpers.rs:330-348 | Reports exactly when there are more distinct stamps than crates, one sorted group per stamp with all its files sorted. |
| WalkLaws.VerifiedIsConsistent | src/bin_cli/helpers.rs:319-329 | When nothing is stale for a non-empty list of at most as many hashes as crates, the tree carries at most that many stamps. |
| WalkLaws.Verify | src/bin_cli/core_commands.rs:670-677 | The two checks of the verify command, in every case: what is reported as stale, when the second check reports, and that it is silent whenever some crate has a hash and the first finds nothing. |
| WalkLaws.NothingOverlooked | src/bin_cli/core_commands.rs:660-677 | For every number of crates: in no tree is the first check silent where the second reports, exactly when some crate's hash could be computed. |
| WalkLaws.OwnedIffReached | src/bin_cli/helpers.rs:259-311 | The walk finds a file exactly when a chain of readable, unskipped directories leads to it and it is a scanned, stamped file. |
| WalkLaws.StampedIffReached | src/bin_cli/helpers.rs:221-311 | The same with the lists in use. |
| WalkNames.StampedByName | src/bin_cli/helpers.rs:221-311 | With the lists in use: a stamp is found under a path exactly when the path is the base directory and names joined by separators that lead through readable directories, entered because their names neither start with a dot nor are on the list, to a stamped file with a scanned extension. |
| WalkNames.EnteredOnTheWay | src/bin_cli/helpers.rs:274-281 | No found file lies below a directory whose name starts with a dot or is on the list. |
| WalkNames.ReportsInOrder | src/bin_cli/helpers.rs:377 | Stale files are reported in the order of their paths, by code point. |
| WalkNames.GroupsInOrder | src/bin_cli/helpers.rs:338-346 | Groups are reported in the order of their stamps, the files of each in the order of their paths. |

## Left out

- MemoRuns.RunsAreFresh: for the runs described under "Where code and documentation part". Whether an answer outside them is wrong depends on the digest, so the converse is given for each condition by `MemoLimits`.
- InitialismsLaws.RewriteIdempotent: one direction; the condition on the list is sufficient, and the Go list shows that some condition is needed.
- WalkNames.StampedByName: for entry names as a file system gives them, not empty and without a separator.
- Sources.PathKey: path order is modelled on the text with the separator smallest; `.` components, repeated separators and Windows prefixes, which `Path` ordering normalises, are not, nor is that a `..` component sorts before every name.
- Sources.HashName: lossy conversion of non-UTF-8 paths.
- Memo.WritePerFileMemo: a write either happens whole or not at all; partial writes and concurrent runs are not modelled, nor is the truncation of nanoseconds to 64 bits.
- Walk.Child: paths are texts; two entries of one directory may carry the same name in the model, which no file system allows. Names that are not UTF-8 are left out.
- Cfg.Print: a comma after the outermost condition, as in `#[cfg(unix,)]`; merging would print it inside `any(...)`.
- Cfg.WellFormed: feature names and other predicates hold no parenthesis and no comma; `target_os = "..."` and the like are opaque predicates.
- Text.ToUpper: ASCII case mapping only, as the modelled code uses; the two Unicode lowerings in section removal are compared with words that only ASCII letters lower to.
- The `cfg` gates of types, enums and methods, which the API-wide feature collection also reads.
- `compute_inputs_hash`, `normalize_toml_bytes`: a TOML parser and serialiser around the canonical sort that is modelled.
- `csharp_type_name` and the naming functions built on it or on heck's casing, keyword tables and per-language templates: not idempotent or only table look-ups.
- `clean_doc` as a whole and its other passes: ad hoc replacements without a law.
- The regular expression engine: the one expression is written out as a scanner.
- BLAKE3, process spawning, clocks, logging, command-line handling and real file I/O.
