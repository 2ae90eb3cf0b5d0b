/** The `alef:hash:` line of generated files (src/core/hash.rs): stamping a text, reading
    the stamp back, stripping it, and the file hash that ignores it. */
module Stamp {
  import opened Text
  import opened Digest

  const HASH_PREFIX := "alef:hash:"
  const HEADER_MARKER := "auto-generated by alef"
  const ALT_HEADER_MARKER := "Generated by alef"

  // ----- Specification -----

  predicate IsMarker(line: string) {
    Contains(line, HEADER_MARKER) || Contains(line, ALT_HEADER_MARKER)
  }

  predicate IsStamp(line: string) { Contains(line, HASH_PREFIX) }

  datatype LineStyle = Html | Slashes | Pound | Star

  /** The comment style, inferred from the marker line. */
  function StyleOf(marker: string): LineStyle {
    var trimmed := Trim(marker);
    if "<!--" <= trimmed then Html
    else if "//" <= trimmed then Slashes
    else if "#" <= trimmed then Pound
    else if "/*" <= trimmed || "*" <= trimmed || EndsWith(trimmed, "*/") then Star
    else Slashes
  }

  function Lead(style: LineStyle): string {
    match style
    case Html => "<!-- "
    case Slashes => "// "
    case Pound => "# "
    case Star => " * "
  }

  function Tail(style: LineStyle): string { if style.Html? then " -->" else "" }

  /** The stamp line that follows a marker line. */
  function HashLine(marker: string, hash: string): string {
    var style := StyleOf(marker);
    Lead(style) + HASH_PREFIX + (hash + Tail(style))
  }

  /** The index of the first marker line among the first `limit` lines. */
  function MarkerWithin(lines: seq<string>, limit: nat): (r: Option<nat>)
    ensures r.Some? ==> r.value < limit && r.value < |lines|
  {
    if limit == 0 || lines == [] then None
    else if IsMarker(lines[0]) then Some(0)
    else
      var rest := MarkerWithin(lines[1..], limit - 1);
      if rest.Some? then Some(rest.value + 1) else None
  }

  lemma {:induction false} MarkerWithinIs(lines: seq<string>, limit: nat)
    ensures var r := MarkerWithin(lines, limit);
      && (r.Some? ==> IsMarker(lines[r.value]) && forall j | 0 <= j < r.value :: !IsMarker(lines[j]))
      && (r.None? ==> forall j | 0 <= j < |lines| && j < limit :: !IsMarker(lines[j]))
  {
    if limit > 0 && lines != [] && !IsMarker(lines[0]) {
      var tail := lines[1..];
      MarkerWithinIs(tail, limit - 1);
      assert forall j | 1 <= j < |lines| :: lines[j] == tail[j - 1];
    }
  }

  function Injected(lines: seq<string>, hash: string): seq<string> {
    match MarkerWithin(lines, 10)
    case None => lines
    case Some(m) => InsertAfter(lines, m, HashLine(lines[m], hash))
  }

  function InsertAfter(lines: seq<string>, m: nat, line: string): seq<string>
    requires m < |lines|
  {
    lines[..m + 1] + [line] + lines[m + 1..]
  }

  function Inject(content: string, hash: string): string {
    MatchEnding(content, Unlines(Injected(Lines(content), hash)))
  }

  /** What is left of the text after the prefix once whitespace and comment ends are gone. */
  function CleanHex(rest: string): string {
    Trim(TrimEndMatches(TrimEndMatches(Trim(rest), "*/"), "-->"))
  }

  function ExtractFromLine(line: string): Option<string> { ExtractAfter(line, HASH_PREFIX) }

  function ExtractAfter(line: string, prefix: string): Option<string> {
    match IndexOf(line, prefix)
    case None => None
    case Some(pos) => HashIn(line[pos + |prefix|..])
  }

  function HashIn(rest: string): Option<string> {
    var hex := CleanHex(rest);
    if hex != [] then Some(hex) else None
  }

  function FirstHash(lines: seq<string>): Option<string> {
    if lines == [] then None
    else if ExtractFromLine(lines[0]).Some? then ExtractFromLine(lines[0])
    else FirstHash(lines[1..])
  }

  function FirstTen(lines: seq<string>): seq<string> {
    if |lines| <= 10 then lines else lines[..10]
  }

  function Extract(content: string): Option<string> { FirstHash(FirstTen(Lines(content))) }

  function Unstamped(lines: seq<string>): seq<string> {
    if lines == [] then []
    else if IsStamp(lines[0]) then Unstamped(lines[1..])
    else [lines[0]] + Unstamped(lines[1..])
  }

  function Strip(content: string): string {
    MatchEnding(content, Unlines(Unstamped(Lines(content))))
  }

  function FileHash(blake3: string -> nat, sourcesHash: string, content: string): string {
    Hex(blake3("sources\0" + sourcesHash + "\0content\0" + Strip(content)))
  }

  // ----- The operations -----

  method InjectHashLine(content: string, hash: string) returns (result: string)
    ensures result == Inject(content, hash)
  {
    result := InjectLines(Lines(content), hash);
    if !LastIs(content, '\n') && LastIs(result, '\n') {
      result := result[..|result| - 1];
    }
  }

  method InjectLines(lines: seq<string>, hash: string) returns (result: string)
    ensures result == Unlines(Injected(lines, hash))
  {
    result := "";
    var injected := false;
    ghost var written: seq<string> := [];
    for i := 0 to |lines|
      invariant result == Unlines(written)
      invariant written + InjectedFrom(lines, i, hash, injected) == InjectedFrom(lines, 0, hash, false)
    {
      ghost var rest := InjectedFrom(lines, i, hash, injected);
      Regroup(written, lines[i], rest);
      UnlinesSnoc(written, lines[i]);
      result := result + lines[i] + "\n";
      written := written + [lines[i]];
      if !injected && i < 10 && IsMarker(lines[i]) {
        var hashLine := HashLine(lines[i], hash);
        Regroup(written, hashLine, rest[1..]);
        UnlinesSnoc(written, hashLine);
        result := result + hashLine + "\n";
        written := written + [hashLine];
        injected := true;
      }
    }
    InjectedFromStart(lines, hash);
    assert written == Injected(lines, hash);
  }

  lemma Regroup(written: seq<string>, line: string, rest: seq<string>)
    requires rest != [] && rest[0] == line
    ensures (written + [line]) + rest[1..] == written + rest
  {
  }

  /** What the loop still has to write from line `i` on. */
  function InjectedFrom(lines: seq<string>, i: nat, hash: string, injected: bool): seq<string>
    requires i <= |lines|
    decreases |lines| - i
  {
    if i == |lines| then []
    else if !injected && i < 10 && IsMarker(lines[i]) then
      [lines[i]] + ([HashLine(lines[i], hash)] + InjectedFrom(lines, i + 1, hash, true))
    else [lines[i]] + InjectedFrom(lines, i + 1, hash, injected)
  }

  lemma {:induction false} InjectedFromDone(lines: seq<string>, i: nat, hash: string, injected: bool)
    requires i <= |lines|
    requires injected || forall j | i <= j < |lines| && j < 10 :: !IsMarker(lines[j])
    ensures InjectedFrom(lines, i, hash, injected) == lines[i..]
    decreases |lines| - i
  {
    if i < |lines| { InjectedFromDone(lines, i + 1, hash, injected); }
  }

  lemma Prepend(first: string, front: seq<string>, line: string, after: seq<string>)
    ensures [first] + (front + [line] + after) == [first] + front + [line] + after
  {
  }

  lemma {:induction false} InjectedFromMarker(lines: seq<string>, i: nat, m: nat, hash: string)
    requires i <= m < |lines| && m < 10 && IsMarker(lines[m])
    requires forall j | i <= j < m :: !IsMarker(lines[j])
    ensures InjectedFrom(lines, i, hash, false) == lines[i..m + 1] + [HashLine(lines[m], hash)] + lines[m + 1..]
    decreases m - i
  {
    var line, after := HashLine(lines[m], hash), lines[m + 1..];
    if i == m {
      InjectedFromDone(lines, m + 1, hash, true);
      assert lines[i..m + 1] == [lines[i]];
    } else {
      InjectedFromMarker(lines, i + 1, m, hash);
      assert lines[i..m + 1] == [lines[i]] + lines[i + 1..m + 1];
      Prepend(lines[i], lines[i + 1..m + 1], line, after);
    }
  }

  lemma InjectedFromStart(lines: seq<string>, hash: string)
    ensures InjectedFrom(lines, 0, hash, false) == Injected(lines, hash)
  {
    MarkerWithinIs(lines, 10);
    match MarkerWithin(lines, 10)
    case None => InjectedFromDone(lines, 0, hash, false);
    case Some(m) => InjectedFromMarker(lines, 0, m, hash);
  }

  /** The loop body: the hash a line shows. */
  method ExtractLine(line: string) returns (hash: Option<string>)
    ensures hash == ExtractFromLine(line)
  {
    var pos := IndexOf(line, HASH_PREFIX);
    if pos.None? {
      return None;
    }
    var rest := line[pos.value + |HASH_PREFIX|..];
    var hex := CleanHex(rest);
    if hex != "" {
      return Some(hex);
    }
    return None;
  }

  method ExtractHash(content: string) returns (hash: Option<string>)
    ensures hash == Extract(content)
  {
    var lines := Lines(content);
    ghost var ten := FirstTen(lines);
    var i := 0;
    assert ten[0..] == ten;
    while i < |lines|
      invariant 0 <= i <= |ten|
      invariant FirstHash(ten) == FirstHash(ten[i..])
    {
      if i >= 10 { break; }
      assert ten[i] == lines[i] && ten[i..][1..] == ten[i + 1..];
      hash := ExtractLine(lines[i]);
      if hash.Some? { return; }
      i := i + 1;
    }
    assert ten[i..] == [];
    return None;
  }

  method StripHashLine(content: string) returns (result: string)
    ensures result == Strip(content)
  {
    result := "";
    var lines := Lines(content);
    ghost var written: seq<string> := [];
    for i := 0 to |lines|
      invariant result == Unlines(written)
      invariant written + Unstamped(lines[i..]) == Unstamped(lines)
    {
      assert lines[i..][1..] == lines[i + 1..];
      if !IsStamp(lines[i]) {
        UnlinesSnoc(written, lines[i]);
        result := result + lines[i] + "\n";
        written := written + [lines[i]];
      }
    }
    assert written == Unstamped(lines);
    if !LastIs(content, '\n') && LastIs(result, '\n') {
      result := result[..|result| - 1];
    }
  }

  method ComputeFileHash(blake3: string -> nat, sourcesHash: string, content: string) returns (hash: string)
    ensures hash == FileHash(blake3, sourcesHash, content)
  {
    var stripped := StripHashLine(content);
    var stream := "sources\0";
    stream := stream + sourcesHash;
    stream := stream + "\0content\0";
    stream := stream + stripped;
    hash := Hex(blake3(stream));
  }
}
