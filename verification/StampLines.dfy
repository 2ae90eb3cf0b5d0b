/** The stamp line, the marker lines it follows and the lines it is read from, written out. */
module StampLines {
  import opened Text
  import opened Digest
  import opened Stamp
  import opened StampLaws
  import opened Finalize

  // ----- The inserted line -----

  /** The stamp in the comment style of a marker line. */
  function StampFor(marker: string, hash: string): string {
    var trimmed := Trim(marker);
    if "<!--" <= trimmed then "<!-- alef:hash:" + hash + " -->"
    else if "//" <= trimmed then "// alef:hash:" + hash
    else if "#" <= trimmed then "# alef:hash:" + hash
    else if "/*" <= trimmed || "*" <= trimmed || EndsWith(trimmed, "*/") then " * alef:hash:" + hash
    else "// alef:hash:" + hash
  }

  lemma HashLineIs(marker: string, hash: string)
    ensures HashLine(marker, hash) == StampFor(marker, hash)
  {
    match StyleOf(marker)
    case Html => assert "<!-- " + "alef:hash:" == "<!-- alef:hash:";
    case Slashes => assert "// " + "alef:hash:" == "// alef:hash:" && hash + "" == hash;
    case Pound => assert "# " + "alef:hash:" == "# alef:hash:" && hash + "" == hash;
    case Star => assert " * " + "alef:hash:" == " * alef:hash:" && hash + "" == hash;
  }

  /** One of the two header texts is in the line. */
  ghost predicate MarkerText(line: string) {
    Occurs(line, "auto-generated by alef") || Occurs(line, "Generated by alef")
  }

  lemma MarkerIs(line: string)
    ensures IsMarker(line) <==> MarkerText(line)
  {
    ContainsIs(line, HEADER_MARKER);
    ContainsIs(line, ALT_HEADER_MARKER);
  }

  /** The first marker line of a text, among its first ten. */
  ghost predicate FirstMarker(lines: seq<string>, m: nat) {
    m < |lines| && m < 10 && MarkerText(lines[m]) && forall j | 0 <= j < m :: !MarkerText(lines[j])
  }

  lemma MarkerWithinFirst(lines: seq<string>, m: nat)
    ensures MarkerWithin(lines, 10) == Some(m) <==> FirstMarker(lines, m)
  {
    MarkerWithinIs(lines, 10);
    forall j | 0 <= j < |lines| ensures IsMarker(lines[j]) <==> MarkerText(lines[j]) { MarkerIs(lines[j]); }
  }

  /** A text with a marker line among the first ten gets a stamp in the style of the first of
      them, on the line after it; nothing else is added. */
  lemma InjectedLine(content: string, hash: string, m: nat)
    requires FirstMarker(Lines(content), m)
    ensures var lines := Lines(content);
      Inject(content, hash)
      == MatchEnding(content, Unlines(lines[..m + 1] + [StampFor(lines[m], hash)] + lines[m + 1..]))
  {
    MarkerWithinFirst(Lines(content), m);
    HashLineIs(Lines(content)[m], hash);
  }

  /** In particular the stamp is a comment where the marker is one. */
  lemma StampStyle(marker: string, hash: string)
    ensures var trimmed, stamp := Trim(marker), StampFor(marker, hash);
      && ("<!--" <= trimmed ==> "<!-- " <= stamp && EndsWith(stamp, " -->"))
      && ("//" <= trimmed ==> "// " <= stamp)
      && ("#" <= trimmed ==> "# " <= stamp)
      && ("/*" <= trimmed || "*" <= trimmed ==> " * " <= stamp)
  {
    var trimmed := Trim(marker);
    assert "<!--"[0] == '<' && "//"[0] == '/' && "//"[1] == '/' && "/*"[1] == '*';
    if "<!--" <= trimmed {
      var stamp := "<!-- alef:hash:" + hash + " -->";
      assert stamp[|stamp| - 4..] == " -->";
    }
  }

  lemma SomeMarker(lines: seq<string>)
    ensures MarkerWithin(lines, 10).Some? <==> exists m: nat :: FirstMarker(lines, m)
  {
    var marker := MarkerWithin(lines, 10);
    if marker.Some? { MarkerWithinFirst(lines, marker.value); }
    if m: nat :| FirstMarker(lines, m) { MarkerWithinFirst(lines, m); }
  }

  /** Finalising touches exactly the files with a header text in one of their first ten lines. */
  lemma MarkedIs(content: string)
    ensures Marked(content) <==> exists m: nat :: FirstMarker(Lines(content), m)
  {
    SomeMarker(Lines(content));
    assert MarkerWithin(Lines(content), 10).Some? <==> exists m: nat :: FirstMarker(Lines(content), m);
  }

  // ----- Reading -----

  /** What may close the comment behind a hash. */
  predicate Closes(end: string) { end == "" || end == "*/" || end == "-->" }

  lemma HexThenBlank(hash: string, gap: string)
    requires IsHex(hash) && Blank(gap)
    ensures var s := hash + gap; !EndsWith(s, "*/") && !EndsWith(s, "-->") && Trim(s) == hash
  {
    var s := hash + gap;
    HexEnds(hash);
    TrimAround("", hash, gap);
    assert "" + hash + gap == s;
    assert s[|s| - 1] == if gap == [] then hash[|hash| - 1] else gap[|gap| - 1];
    LastOfSuffix(s, "*/");
    LastOfSuffix(s, "-->");
  }

  lemma TwoTrims(s: string, end: string)
    requires Closes(end) && s != [] && !EndsWith(s, "*/") && !EndsWith(s, "-->")
    ensures TrimEndMatches(TrimEndMatches(s + end, "*/"), "-->") == s
  {
    TrimEndMatchesOnce(s, "*/");
    TrimEndMatchesOnce(s, "-->");
    assert s + "" == s;
    if end == "-->" {
      LastOfSuffix(s + end, "*/");
      assert (s + end)[|s + end| - 1] == '>';
      TrimEndMatchesOnce(s + end, "*/");
    }
  }

  /** Whitespace around the hash and behind the comment's end, and that end, are dropped. */
  lemma CleanHexIs(before: string, hash: string, gap: string, end: string, after: string)
    requires IsHex(hash) && Closes(end) && Blank(before) && Blank(gap) && Blank(after)
    requires end == "" ==> gap == ""
    ensures CleanHex(before + (hash + gap + end) + after) == hash
  {
    var core := hash + gap + end;
    HexEnds(hash);
    HexThenBlank(hash, gap);
    assert core[0] == hash[0];
    if end != "" { assert core[|core| - 1] == end[|end| - 1]; }
    assert hash + "" + "" == hash;
    TrimAround(before, core, after);
    TwoTrims(hash + gap, end);
  }

  /** A line that holds a hash behind its first prefix. */
  ghost predicate StampLine(line: string, hash: string) {
    exists lead: string, before: string, gap: string, end: string, after: string ::
      HoldsHash(line, hash, lead, before, gap, end, after)
  }

  ghost predicate HoldsHash(line: string, hash: string, lead: string,
                            before: string, gap: string, end: string, after: string) {
    && IsHex(hash) && Closes(end) && Blank(before) && Blank(gap) && Blank(after) && (end == "" ==> gap == "")
    && line == lead + "alef:hash:" + (before + (hash + gap + end) + after)
    && forall i: nat | i < |lead| :: !OccursAt(line, "alef:hash:", i)
  }

  lemma {:induction false} IndexOfFirst(s: string, pattern: string, n: nat)
    requires OccursAt(s, pattern, n) && forall i: nat | i < n :: !OccursAt(s, pattern, i)
    ensures IndexOf(s, pattern) == Some(n)
  {
    if n == 0 {
      assert s[0..0 + |pattern|] == s[..|pattern|];
    } else {
      assert !OccursAt(s, pattern, 0);
      assert s[1..][n - 1..n - 1 + |pattern|] == s[n..n + |pattern|];
      forall i: nat | i < n - 1 ensures !OccursAt(s[1..], pattern, i) {
        assert !OccursAt(s, pattern, i + 1);
        if i + |pattern| <= |s[1..]| { assert s[1..][i..i + |pattern|] == s[i + 1..i + 1 + |pattern|]; }
      }
      IndexOfFirst(s[1..], pattern, n - 1);
      if |pattern| <= |s| { assert s[0..0 + |pattern|] == s[..|pattern|]; }
    }
  }

  lemma StampLineReads(line: string, hash: string)
    requires StampLine(line, hash)
    ensures ExtractFromLine(line) == Some(hash)
  {
    var lead, before, gap, end, after :| HoldsHash(line, hash, lead, before, gap, end, after);
    var rest := before + (hash + gap + end) + after;
    assert line[|lead|..|lead| + |"alef:hash:"|] == "alef:hash:";
    IndexOfFirst(line, "alef:hash:", |lead|);
    assert line[|lead| + |"alef:hash:"|..] == rest;
    CleanHexIs(before, hash, gap, end, after);
  }

  lemma {:induction false} FirstHashAt(lines: seq<string>, i: nat)
    requires i < |lines| && ExtractFromLine(lines[i]).Some?
    requires forall j | 0 <= j < i :: ExtractFromLine(lines[j]).None?
    ensures FirstHash(lines) == ExtractFromLine(lines[i])
  {
    if i > 0 { FirstHashAt(lines[1..], i - 1); }
  }

  lemma NoPrefixNoHash(line: string)
    requires !Occurs(line, "alef:hash:")
    ensures ExtractFromLine(line).None?
  {
    ContainsIs(line, "alef:hash:");
  }

  /** The hash that a text shows is that of its first line with the prefix, when that is a stamp
      line among the first ten. */
  lemma ExtractReads(content: string, i: nat, hash: string)
    requires i < |Lines(content)| && i < 10 && StampLine(Lines(content)[i], hash)
    requires forall j | 0 <= j < i :: !Occurs(Lines(content)[j], "alef:hash:")
    ensures Extract(content) == Some(hash)
  {
    var lines := Lines(content);
    StampLineReads(lines[i], hash);
    forall j | 0 <= j < i ensures ExtractFromLine(FirstTen(lines)[j]).None? { NoPrefixNoHash(lines[j]); }
    FirstHashAt(FirstTen(lines), i);
  }

  /** Without the prefix on its first ten lines it shows none. */
  lemma NothingToRead(content: string)
    requires forall j | 0 <= j < |Lines(content)| && j < 10 :: !Occurs(Lines(content)[j], "alef:hash:")
    ensures Extract(content) == None
  {
    var ten := FirstTen(Lines(content));
    forall j | 0 <= j < |ten| ensures !IsStamp(ten[j]) { ContainsIs(Lines(content)[j], "alef:hash:"); }
    NoStampNoHash(ten);
  }

  // ----- Stripping -----

  lemma StripOfUnlines(lines: seq<string>)
    requires NewlineFree(lines) && CleanLines(lines)
    ensures Strip(Unlines(lines)) == Unlines(Unstamped(lines))
  {
    LinesOfTerminated(lines);
    UnlinesEndsWithNewline(lines);
    UnlinesEndsWithNewline(Unstamped(lines));
  }

  lemma WithoutOne(before: seq<string>, line: string, after: seq<string>)
    requires NewlineFree(before + [line] + after) && CleanLines(before + [line] + after)
    ensures NewlineFree(before + after) && CleanLines(before + after)
  {
    var all, rest := before + [line] + after, before + after;
    assert forall i | 0 <= i < |rest| :: rest[i] == all[if i < |before| then i else i + 1];
  }

  /** Stripping takes away a line that holds the prefix, wherever it is. */
  lemma StripRemoves(before: seq<string>, line: string, after: seq<string>)
    requires Occurs(line, "alef:hash:")
    requires NewlineFree(before + [line] + after) && CleanLines(before + [line] + after)
    ensures Strip(Unlines(before + [line] + after)) == Strip(Unlines(before + after))
  {
    ContainsIs(line, "alef:hash:");
    UnstampedAround(before, line, after);
    WithoutOne(before, line, after);
    StripOfUnlines(before + [line] + after);
    StripOfUnlines(before + after);
  }

  /** And leaves a text without such a line as it is, but for its CRLF line endings. */
  lemma StripKeeps(content: string)
    requires forall i | 0 <= i < |Lines(content)| :: !Occurs(Lines(content)[i], "alef:hash:")
    ensures Strip(content) == MatchEnding(content, Unlines(Lines(content)))
    ensures Strip(content) == content <==> !HasCrLf(content)
  {
    forall i | 0 <= i < |Lines(content)| ensures !IsStamp(Lines(content)[i]) {
      ContainsIs(Lines(content)[i], "alef:hash:");
    }
    NothingStamped(Lines(content));
    RebuiltUnchanged(content);
  }

  // ----- What the file hash is taken of -----

  /** For a text without stamps and CRLF line endings: the sources hash and the text, labelled. */
  lemma FileHashIs(blake3: string -> nat, sourcesHash: string, content: string)
    requires forall i | 0 <= i < |Lines(content)| :: !Occurs(Lines(content)[i], "alef:hash:")
    requires !HasCrLf(content)
    ensures FileHash(blake3, sourcesHash, content)
         == Hex(blake3("sources\0" + sourcesHash + "\0content\0" + content))
  {
    StripKeeps(content);
  }
}
