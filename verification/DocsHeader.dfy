/** The header of generated documentation pages (src/docs/render.rs): where YAML frontmatter
    ends, inserting the header after it, and how that works together with stamping. */
module DocsHeader {
  import opened Text
  import opened Digest
  import opened Stamp
  import opened StampLaws

  // ----- Specification -----

  /** `split_inclusive('\n')`: every piece but possibly the last ends in a line feed. */
  function Pieces(s: string): seq<string>
    decreases |s|
  {
    if s == [] then []
    else
      var i := NewlineAt(s);
      if i == |s| then [s] else [s[..i + 1]] + Pieces(s[i + 1..])
  }

  function TrimLineEnd(piece: string): string {
    if LastIs(piece, '\r') || LastIs(piece, '\n') then TrimLineEnd(piece[..|piece| - 1]) else piece
  }

  predicate IsFence(piece: string) { TrimLineEnd(piece) == "---" }

  function FirstFence(pieces: seq<string>): (r: Option<nat>)
    ensures r.Some? ==> r.value < |pieces|
  {
    if pieces == [] then None
    else if IsFence(pieces[0]) then Some(0)
    else
      var rest := FirstFence(pieces[1..]);
      if rest.Some? then Some(rest.value + 1) else None
  }

  /** The number of lines of the frontmatter, both `---` lines included. */
  function FrontmatterCount(pieces: seq<string>): (r: Option<nat>)
    ensures r.Some? ==> 2 <= r.value <= |pieces|
  {
    if pieces == [] || !IsFence(pieces[0]) then None
    else
      var rest := FirstFence(pieces[1..]);
      if rest.Some? then Some(rest.value + 2) else None
  }

  predicate IsHeaderLine(line: string) { Contains(line, HEADER_MARKER) }

  /** `lines().take(limit).any(|line| line.contains(...))` */
  predicate HeaderWithin(lines: seq<string>, limit: nat) {
    limit > 0 && lines != [] && (IsHeaderLine(lines[0]) || HeaderWithin(lines[1..], limit - 1))
  }

  /** A page header: its first line and what follows. */
  datatype PageHeader = PageHeader(title: string, rest: string) {
    function Text(): string { title + "\n" + rest }

    ghost predicate Valid() {
      && title != [] && !IsWhitespace(title[0]) && Lacks(title, '\n')
      && IsHeaderLine(title) && !IsStamp(title)
    }
  }

  const DOCS_HEADER := PageHeader(
    "<!-- This file is " + HEADER_MARKER + " \U{2014} DO NOT EDIT. -->",
    "<!-- To regenerate: alef docs -->\n<!-- To verify freshness: alef verify --exit-code -->\n\n")

  /** The page around frontmatter `front` and the rest of the content. */
  function AfterFrontmatter(header: PageHeader, front: string, rest: string): string {
    EndLine(EndLine(front) + "\n" + header.Text() + TrimStart(rest))
  }

  function WithHeader(header: PageHeader, content: string): string {
    var trimmed := TrimStart(content);
    var pieces := Pieces(trimmed);
    if HeaderWithin(Lines(trimmed), 10) then EndLine(trimmed)
    else match FrontmatterCount(pieces)
      case Some(k) => AfterFrontmatter(header, Concat(pieces[..k]), Concat(pieces[k..]))
      case None => EndLine(header.Text() + trimmed)
  }

  // ----- The operations -----

  function Shifted(r: Option<nat>, k: nat): Option<nat> {
    if r.Some? then Some(r.value + k) else None
  }

  lemma ScanStep(pieces: seq<string>, i: nat)
    requires i < |pieces|
    ensures |Concat(pieces[..i + 1])| == |Concat(pieces[..i])| + |pieces[i]|
    ensures FirstFence(pieces[i..]) == if IsFence(pieces[i]) then Some(0) else Shifted(FirstFence(pieces[i + 1..]), 1)
  {
    assert pieces[..i + 1] == pieces[..i] + [pieces[i]];
    ConcatSnoc(pieces[..i], pieces[i]);
    assert pieces[i..][1..] == pieces[i + 1..];
  }

  /** The cut is the end of the frontmatter's last line. */
  method YamlFrontmatterEnd(content: string) returns (end: Option<nat>)
    ensures var k := FrontmatterCount(Pieces(content));
            end == if k.Some? then Some(|Concat(Pieces(content)[..k.value])|) else None
  {
    var offset := 0;
    var pieces := Pieces(content);
    if pieces == [] || TrimLineEnd(pieces[0]) != "---" { return None; }
    ScanStep(pieces, 0);
    offset := offset + |pieces[0]|;
    ghost var fence := FirstFence(pieces[1..]);
    for i := 1 to |pieces|
      invariant offset == |Concat(pieces[..i])|
      invariant fence == Shifted(FirstFence(pieces[i..]), i - 1)
    {
      ScanStep(pieces, i);
      offset := offset + |pieces[i]|;
      if TrimLineEnd(pieces[i]) == "---" { return Some(offset); }
    }
    return None;
  }

  method AddAfterFrontmatter(header: PageHeader, front: string, rest: string) returns (out: string)
    ensures out == AfterFrontmatter(header, front, rest)
  {
    out := front;
    if !LastIs(out, '\n') {
      out := out + "\n";
    }
    out := out + "\n";
    out := out + header.Text();
    out := out + TrimStart(rest);
    out := EndLine(out);
  }

  method AddHeader(header: PageHeader, content: string) returns (out: string)
    ensures out == WithHeader(header, content)
  {
    var trimmed := TrimStart(content);
    if HeaderWithin(Lines(trimmed), 10) {
      out := EndLine(trimmed);
      return;
    }
    var end := YamlFrontmatterEnd(trimmed);
    if end.Some? {
      FrontmatterCut(trimmed, FrontmatterCount(Pieces(trimmed)).value);
      out := AddAfterFrontmatter(header, trimmed[..end.value], trimmed[end.value..]);
    } else {
      out := header.Text();
      out := out + trimmed;
      out := EndLine(out);
    }
  }

  lemma FrontmatterCut(content: string, k: nat)
    requires k <= |Pieces(content)|
    ensures var n := |Concat(Pieces(content)[..k])|;
      n <= |content| && content[..n] == Concat(Pieces(content)[..k]) && content[n..] == Concat(Pieces(content)[k..])
  {
    PiecesConcat(content);
    CutIs(Pieces(content), k);
  }

  method WithHtmlHeader(content: string) returns (out: string)
    ensures out == WithHeader(DOCS_HEADER, content)
  {
    out := AddHeader(DOCS_HEADER, content);
  }

  // ----- Pieces -----

  lemma {:induction false} PiecesConcat(s: string)
    ensures Concat(Pieces(s)) == s
    decreases |s|
  {
    if s != [] {
      var i := NewlineAt(s);
      if i == |s| {
        assert Concat([s]) == s + [];
      } else {
        PiecesConcat(s[i + 1..]);
      }
    }
  }

  lemma CutIs(pieces: seq<string>, k: nat)
    requires k <= |pieces|
    ensures |Concat(pieces[..k])| <= |Concat(pieces)|
    ensures Concat(pieces)[..|Concat(pieces[..k])|] == Concat(pieces[..k])
    ensures Concat(pieces)[|Concat(pieces[..k])|..] == Concat(pieces[k..])
  {
    ConcatAppend(pieces[..k], pieces[k..]);
    assert pieces == pieces[..k] + pieces[k..];
  }

  predicate Terminated(piece: string) {
    LastIs(piece, '\n') && forall i | 0 <= i < |piece| - 1 :: piece[i] != '\n'
  }

  /** Only the last piece may lack a line feed, and no piece has one before its end. */
  lemma {:induction false} PiecesAre(s: string)
    ensures forall i | 0 <= i < |Pieces(s)| - 1 :: Terminated(Pieces(s)[i])
    ensures forall i | 0 <= i < |Pieces(s)| :: Terminated(Pieces(s)[i]) || Lacks(Pieces(s)[i], '\n')
    decreases |s|
  {
    if s != [] {
      var i := NewlineAt(s);
      FirstNewline(s);
      if i < |s| {
        PiecesAre(s[i + 1..]);
        assert s[..i + 1] == s[..i] + "\n";
      } else {
        assert s[..i] == s;
      }
    }
  }

  lemma CutEndsLine(pieces: seq<string>, k: nat)
    requires 1 <= k <= |pieces| && LastIs(pieces[k - 1], '\n')
    ensures LastIs(Concat(pieces[..k]), '\n')
  {
    var front, last := pieces[..k - 1], pieces[k - 1];
    assert pieces[..k] == front + [last];
    ConcatSnoc(front, last);
  }

  lemma FencesAre(pieces: seq<string>)
    requires FrontmatterCount(pieces).Some?
    ensures var k := FrontmatterCount(pieces).value;
      && IsFence(pieces[0]) && IsFence(pieces[k - 1])
      && (forall i | 0 < i < k - 1 :: !IsFence(pieces[i]))
  {
    var tail := pieces[1..];
    FirstFenceIs(tail);
    forall i | 0 < i < FrontmatterCount(pieces).value - 1 ensures !IsFence(pieces[i]) {
      assert tail[i - 1] == pieces[i];
    }
  }

  /** The frontmatter ends at a line boundary, directly after its second `---` line; no line
      in between is a `---` line. */
  lemma FrontmatterEndIs(content: string)
    requires FrontmatterCount(Pieces(content)).Some?
    ensures var pieces := Pieces(content); var k := FrontmatterCount(pieces).value;
      && content == Concat(pieces[..k]) + Concat(pieces[k..])
      && IsFence(pieces[0]) && IsFence(pieces[k - 1])
      && (forall i | 0 < i < k - 1 :: !IsFence(pieces[i]))
      && (k < |pieces| ==> LastIs(Concat(pieces[..k]), '\n'))
  {
    var pieces := Pieces(content);
    var k := FrontmatterCount(pieces).value;
    FrontmatterCut(content, k);
    FencesAre(pieces);
    PiecesAre(content);
    if k < |pieces| {
      assert Terminated(pieces[k - 1]);
      CutEndsLine(pieces, k);
    }
  }

  lemma {:induction false} FirstFenceIs(pieces: seq<string>)
    requires FirstFence(pieces).Some?
    ensures IsFence(pieces[FirstFence(pieces).value])
    ensures forall i | 0 <= i < FirstFence(pieces).value :: !IsFence(pieces[i])
  {
    if !IsFence(pieces[0]) { FirstFenceIs(pieces[1..]); }
  }
}
