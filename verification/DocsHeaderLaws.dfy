/** When inserting the documentation header twice is inserting it once, and when a page with
    a freshly inserted header can be stamped. */
module DocsHeaderLaws {
  import opened Text
  import opened Digest
  import opened Stamp
  import opened StampLaws
  import opened DocsHeader

  // ----- Pieces and lines -----

  function LineOf(piece: string): string {
    if LastIs(piece, '\n') then DropCr(piece[..|piece| - 1]) else piece
  }

  function LinesOf(pieces: seq<string>): seq<string> {
    if pieces == [] then [] else [LineOf(pieces[0])] + LinesOf(pieces[1..])
  }

  lemma LinesOfAt(pieces: seq<string>)
    ensures |LinesOf(pieces)| == |pieces|
    ensures forall i | 0 <= i < |pieces| :: LinesOf(pieces)[i] == LineOf(pieces[i])
  {
  }

  ghost predicate AllTerminated(pieces: seq<string>) {
    forall i | 0 <= i < |pieces| :: Terminated(pieces[i])
  }

  lemma TerminatedCons(piece: string, rest: string)
    requires Terminated(piece)
    ensures Pieces(piece + rest) == [piece] + Pieces(rest)
    ensures Lines(piece + rest) == [LineOf(piece)] + Lines(rest)
  {
    PiecesCons(piece, rest);
    PieceLineCons(piece[..|piece| - 1], piece, rest);
  }

  lemma PieceLineCons(line: string, piece: string, rest: string)
    requires piece == line + "\n" && Lacks(line, '\n')
    ensures Lines(piece + rest) == [LineOf(piece)] + Lines(rest)
  {
    LinesCons(line, rest);
    assert piece[..|piece| - 1] == line;
  }

  lemma PiecesCons(piece: string, rest: string)
    requires Terminated(piece)
    ensures Pieces(piece + rest) == [piece] + Pieces(rest)
  {
    var n := |piece| - 1;
    var s := piece + rest;
    assert s[..n] == piece[..n] && s[..n + 1] == piece && s[n + 1..] == rest;
    NewlineAtIs(s, n);
  }

  lemma ConcatCons(pieces: seq<string>, rest: string)
    requires pieces != []
    ensures Concat(pieces) + rest == pieces[0] + (Concat(pieces[1..]) + rest)
  {
  }

  lemma {:induction false} PiecesAppend(pieces: seq<string>, rest: string)
    requires AllTerminated(pieces)
    ensures Pieces(Concat(pieces) + rest) == pieces + Pieces(rest)
  {
    if pieces == [] {
      assert Concat(pieces) + rest == rest;
    } else {
      var tail := Concat(pieces[1..]) + rest;
      PiecesAppend(pieces[1..], rest);
      TerminatedCons(pieces[0], tail);
      ConcatCons(pieces, rest);
      Uncons(pieces, Pieces(rest));
    }
  }

  lemma {:induction false} LinesAppend(pieces: seq<string>, rest: string)
    requires AllTerminated(pieces)
    ensures Lines(Concat(pieces) + rest) == LinesOf(pieces) + Lines(rest)
  {
    if pieces == [] {
      assert Concat(pieces) + rest == rest;
    } else {
      var tail := Concat(pieces[1..]) + rest;
      LinesAppend(pieces[1..], rest);
      TerminatedCons(pieces[0], tail);
      ConcatCons(pieces, rest);
      Uncons(LinesOf(pieces), Lines(rest));
    }
  }

  lemma {:induction false} LinesByPieces(s: string)
    ensures Lines(s) == LinesOf(Pieces(s))
    decreases |s|
  {
    if s != [] {
      var i := NewlineAt(s);
      FirstNewline(s);
      if i < |s| {
        var piece, rest := s[..i + 1], s[i + 1..];
        assert s == piece + rest && piece == s[..i] + "\n";
        TerminatedCons(piece, rest);
        LinesByPieces(rest);
      }
    }
  }

  lemma EndLineTerminates(piece: string)
    requires Terminated(piece) || Lacks(piece, '\n')
    ensures Terminated(EndLine(piece))
    ensures LineOf(EndLine(piece)) == LineOf(piece) || LineOf(EndLine(piece)) == DropCr(LineOf(piece))
    ensures IsFence(EndLine(piece)) == IsFence(piece)
  {
    if !LastIs(piece, '\n') {
      assert EndLine(piece)[..|piece|] == piece;
    }
  }

  // ----- The header test -----

  lemma HeaderLineDropCr(line: string)
    ensures IsHeaderLine(DropCr(line)) == IsHeaderLine(line)
  {
    if LastIs(line, '\r') {
      assert line == DropCr(line) + ['\r'];
      IndexOfSnoc(DropCr(line), '\r', HEADER_MARKER);
    }
  }

  lemma {:induction false} HeaderWithinIs(lines: seq<string>, limit: nat)
    ensures HeaderWithin(lines, limit) <==> exists i | 0 <= i < |lines| && i < limit :: IsHeaderLine(lines[i])
  {
    if limit > 0 && lines != [] {
      HeaderWithinIs(lines[1..], limit - 1);
      if i :| 0 <= i < |lines[1..]| && i < limit - 1 && IsHeaderLine(lines[1..][i]) {
        assert IsHeaderLine(lines[i + 1]);
      }
      if i :| 0 <= i < |lines| && i < limit && IsHeaderLine(lines[i]) {
        if i > 0 { assert IsHeaderLine(lines[1..][i - 1]); }
      }
    }
  }

  lemma {:induction false} HeaderWithinNear(a: seq<string>, b: seq<string>, limit: nat)
    requires Near(a, b)
    ensures HeaderWithin(a, limit) == HeaderWithin(b, limit)
  {
    if limit > 0 && a != [] {
      HeaderLineDropCr(a[0]);
      HeaderWithinNear(a[1..], b[1..], limit - 1);
    }
  }

  lemma NearCons(line: string, a: seq<string>, b: seq<string>)
    requires Near(a, b)
    ensures Near([line] + a, [line] + b)
  {
  }

  lemma EndLineNearStep(line: string, rest: string)
    requires Lacks(line, '\n') && rest != [] && !LastIs(rest, '\n')
    requires Near(Lines(rest), Lines(EndLine(rest)))
    ensures Near(Lines(line + "\n" + rest), Lines(EndLine(line + "\n" + rest)))
  {
    EndLineOfLast(line + "\n", rest);
    LinesCons(line, rest);
    LinesCons(line, EndLine(rest));
    assert line + "\n" + EndLine(rest) == (line + "\n") + EndLine(rest);
    NearCons(DropCr(line), Lines(rest), Lines(EndLine(rest)));
  }

  lemma EndLineSingle(s: string)
    requires s != [] && Lacks(s, '\n')
    ensures Near(Lines(s), Lines(EndLine(s)))
  {
    LinesSingle(s);
    LinesCons(s, []);
    assert s + "\n" + [] == s + "\n";
  }

  lemma RestUnended(s: string, line: string, rest: string)
    requires s == line + "\n" + rest && !LastIs(s, '\n')
    ensures rest != [] && !LastIs(rest, '\n')
  {
    assert s[|line|] == '\n' && s[|line| + 1..] == rest;
    assert rest != [] ==> s[|s| - 1] == rest[|rest| - 1];
  }

  lemma {:induction false} EndLineNear(s: string)
    requires s != []
    ensures Near(Lines(s), Lines(EndLine(s)))
    decreases |s|
  {
    if !LastIs(s, '\n') {
      var i := NewlineAt(s);
      FirstNewline(s);
      if i == |s| {
        assert s[..i] == s;
        EndLineSingle(s);
      } else {
        var line, rest := s[..i], s[i + 1..];
        assert s == line + "\n" + rest;
        RestUnended(s, line, rest);
        EndLineNear(rest);
        EndLineNearStep(line, rest);
      }
    }
  }

  // ----- The shape of a page with a new header -----

  /** The text after the title line: the rest of the header, the content, a line feed. */
  function AfterTitle(header: PageHeader, content: string): string {
    var t := header.rest + content;
    if t == [] then t else EndLine(t)
  }

  lemma EndLineAfter(a: string, b: string)
    requires LastIs(a, '\n')
    ensures EndLine(a + b) == a + if b == [] then [] else EndLine(b)
  {
    if b != [] {
      assert (a + b)[|a + b| - 1] == b[|b| - 1];
      assert a + b + "\n" == a + (b + "\n");
    } else {
      assert a + b == a;
    }
  }

  /** The frontmatter with its last line ended, a blank line, and the header's title line. */
  function Opening(header: PageHeader, front: seq<string>): seq<string>
    requires front != []
  {
    var n := |front| - 1;
    front[..n] + [EndLine(front[n]), "\n", header.title + "\n"]
  }

  ghost predicate Frontmatter(front: seq<string>) {
    && |front| >= 2
    && (forall i | 0 <= i < |front| - 1 :: Terminated(front[i]))
    && (Terminated(front[|front| - 1]) || Lacks(front[|front| - 1], '\n'))
    && FrontmatterCount(front) == Some(|front|)
  }

  lemma EndLineOfLast(a: string, b: string)
    requires b != []
    ensures EndLine(a + b) == a + EndLine(b)
  {
    assert (a + b)[|a + b| - 1] == b[|b| - 1];
    assert a + b + "\n" == a + (b + "\n");
  }

  lemma FenceIsNonempty(front: seq<string>)
    requires Frontmatter(front)
    ensures front[|front| - 1] != []
  {
    FencesAre(front);
    FenceStarts(front[|front| - 1]);
  }

  lemma EndedConcat(front: seq<string>)
    requires Frontmatter(front)
    ensures var n := |front| - 1; EndLine(Concat(front)) == Concat(front[..n] + [EndLine(front[n])])
  {
    FenceIsNonempty(front);
    EndedPieces(front);
  }

  lemma EndedSnoc(init: seq<string>, last: string)
    requires last != []
    ensures EndLine(Concat(init + [last])) == Concat(init + [EndLine(last)])
  {
    ConcatSnoc(init, last);
    ConcatSnoc(init, EndLine(last));
    EndLineOfLast(Concat(init), last);
  }

  lemma EndedPieces(pieces: seq<string>)
    requires pieces != [] && pieces[|pieces| - 1] != []
    ensures var n := |pieces| - 1; EndLine(Concat(pieces)) == Concat(pieces[..n] + [EndLine(pieces[n])])
  {
    var init, last := pieces[..|pieces| - 1], pieces[|pieces| - 1];
    assert pieces == init + [last];
    EndedSnoc(init, last);
  }

  lemma FenceStarts(piece: string)
    requires IsFence(piece)
    ensures piece != [] && piece[0] == '-'
  {
    TrimLineEndPrefix(piece);
  }

  lemma TrimLineEndPrefix(piece: string)
    ensures TrimLineEnd(piece) <= piece
  {
  }

  lemma OutputShape(header: PageHeader, front: seq<string>, rest: string)
    requires Frontmatter(front)
    ensures AfterFrontmatter(header, Concat(front), rest)
         == Concat(Opening(header, front)) + AfterTitle(header, TrimStart(rest))
  {
    var n := |front| - 1;
    var ended := front[..n] + [EndLine(front[n])];
    EndedConcat(front);
    ConcatSnoc(ended, "\n");
    ConcatSnoc(ended + ["\n"], header.title + "\n");
    assert Opening(header, front) == ended + ["\n"] + [header.title + "\n"];
    TitleSplit(Concat(ended) + "\n", header, TrimStart(rest));
  }

  lemma TitleSplit(before: string, header: PageHeader, content: string)
    ensures EndLine(before + header.Text() + content)
         == before + (header.title + "\n") + AfterTitle(header, content)
  {
    var a := before + (header.title + "\n");
    assert before + header.Text() + content == a + (header.rest + content);
    EndLineAfter(a, header.rest + content);
  }

  lemma TerminatedSnoc(pieces: seq<string>, piece: string)
    requires AllTerminated(pieces) && Terminated(piece)
    ensures AllTerminated(pieces + [piece])
  {
  }

  lemma LineTerminates(line: string)
    requires Lacks(line, '\n')
    ensures Terminated(line + "\n")
  {
  }

  lemma OpeningTerminated(header: PageHeader, front: seq<string>)
    requires header.Valid() && Frontmatter(front)
    ensures AllTerminated(Opening(header, front))
  {
    var init, last := front[..|front| - 1], EndLine(front[|front| - 1]);
    EndLineTerminates(front[|front| - 1]);
    LineTerminates(header.title);
    TerminatedSnoc(init, last);
    TerminatedSnoc(init + [last], "\n");
    TerminatedSnoc(init + [last] + ["\n"], header.title + "\n");
    assert Opening(header, front) == init + [last] + ["\n"] + [header.title + "\n"];
  }

  lemma OpeningIs(header: PageHeader, front: seq<string>)
    requires header.Valid() && Frontmatter(front)
    ensures var q := Opening(header, front); var n := |front|;
      && |q| == n + 2 && AllTerminated(q)
      && (forall i | 0 <= i < n - 1 :: q[i] == front[i])
      && q[n - 1] == EndLine(front[n - 1]) && q[n] == "\n" && q[n + 1] == header.title + "\n"
  {
    OpeningTerminated(header, front);
  }

  /** Up to dropped carriage returns, the lines of the frontmatter, a blank line, the title. */
  lemma OpeningLines(header: PageHeader, front: seq<string>)
    requires header.Valid() && Frontmatter(front)
    ensures Near(LinesOf(front) + [""] + [header.title], LinesOf(Opening(header, front)))
  {
    var init, last := front[..|front| - 1], front[|front| - 1];
    LinesOfEnded(init, last, header.title);
    assert front == init + [last];
    assert Opening(header, front) == init + [EndLine(last)] + ["\n"] + [header.title + "\n"];
  }

  lemma {:induction false} LinesOfSnoc(pieces: seq<string>, piece: string)
    ensures LinesOf(pieces + [piece]) == LinesOf(pieces) + [LineOf(piece)]
  {
    if pieces == [] {
      assert pieces + [piece] == [piece];
      assert LinesOf([piece]) == [LineOf(piece)] + [];
    } else {
      assert (pieces + [piece])[1..] == pieces[1..] + [piece];
      LinesOfSnoc(pieces[1..], piece);
    }
  }

  lemma NearSnoc(a: seq<string>, b: seq<string>, line: string, other: string)
    requires Near(a, b) && (other == line || other == DropCr(line))
    ensures Near(a + [line], b + [other])
  {
  }

  lemma NearSelf(a: seq<string>)
    ensures Near(a, a)
  {
  }

  lemma LinesOfEnded(init: seq<string>, last: string, title: string)
    requires Terminated(last) || Lacks(last, '\n')
    ensures Near(LinesOf(init + [last]) + [""] + [title], LinesOf(init + [EndLine(last)] + ["\n"] + [title + "\n"]))
  {
    LinesOfSnoc(init, last);
    LinesOfSnoc(init, EndLine(last));
    LinesOfSnoc(init + [EndLine(last)], "\n");
    LinesOfSnoc(init + [EndLine(last)] + ["\n"], title + "\n");
    EndLineTerminates(last);
    LineOfEnded(title);
    LineOfEnded("");
    assert "" + "\n" == "\n";
    NearSelf(LinesOf(init));
    NearSnoc(LinesOf(init), LinesOf(init), LineOf(last), LineOf(EndLine(last)));
    NearSnoc(LinesOf(init + [last]), LinesOf(init + [EndLine(last)]), "", "");
    NearSnoc(LinesOf(init + [last]) + [""], LinesOf(init + [EndLine(last)] + ["\n"]), title, DropCr(title));
  }

  lemma LineOfEnded(line: string)
    ensures LineOf(line + "\n") == DropCr(line)
  {
    assert (line + "\n")[..|line|] == line;
  }

  lemma {:induction false} FirstFenceAt(pieces: seq<string>, j: nat)
    requires j < |pieces| && IsFence(pieces[j])
    requires forall i | 0 <= i < j :: !IsFence(pieces[i])
    ensures FirstFence(pieces) == Some(j)
  {
    if j > 0 { FirstFenceAt(pieces[1..], j - 1); }
  }

  lemma CountOpening(header: PageHeader, front: seq<string>, more: seq<string>)
    requires header.Valid() && Frontmatter(front)
    ensures FrontmatterCount(Opening(header, front) + more) == Some(|front|)
  {
    var q := Opening(header, front);
    var n := |front|;
    OpeningIs(header, front);
    FirstFenceIs(front[1..]);
    EndLineTerminates(front[n - 1]);
    var tail := (q + more)[1..];
    assert tail[n - 2] == q[n - 1] && IsFence(q[n - 1]);
    forall i | 0 <= i < n - 2 ensures !IsFence(tail[i]) {
      assert tail[i] == front[1..][i];
    }
    FirstFenceAt(tail, n - 2);
  }

  lemma FrontIsFrontmatter(content: string, k: nat)
    requires FrontmatterCount(Pieces(content)) == Some(k)
    ensures Frontmatter(Pieces(content)[..k])
  {
    var pieces := Pieces(content);
    PiecesAre(content);
    FirstFenceIs(pieces[1..]);
    var front := pieces[..k];
    assert front[1..][k - 2] == pieces[1..][k - 2];
    forall i | 0 <= i < k - 2 ensures !IsFence(front[1..][i]) {
      assert front[1..][i] == pieces[1..][i];
    }
    FirstFenceAt(front[1..], k - 2);
  }

  lemma TrimmedStays(s: string)
    requires s != [] && !IsWhitespace(s[0])
    ensures TrimStart(s) == s
  {
  }

  /** The page that results when a header is inserted after frontmatter. */
  lemma NewPage(header: PageHeader, content: string, k: nat) returns (front: seq<string>, after: string)
    requires header.Valid()
    requires var trimmed := TrimStart(content);
      !HeaderWithin(Lines(trimmed), 10) && FrontmatterCount(Pieces(trimmed)) == Some(k)
    ensures var page := WithHeader(header, content);
      && |front| == k && front == Pieces(TrimStart(content))[..k] && Frontmatter(front)
      && page == Concat(Opening(header, front)) + after
      && after == AfterTitle(header, TrimStart(Concat(Pieces(TrimStart(content))[k..])))
      && Pieces(page) == Opening(header, front) + Pieces(after)
      && Lines(page) == LinesOf(Opening(header, front)) + Lines(after)
      && LastIs(page, '\n') && TrimStart(page) == page
      && FrontmatterCount(Pieces(page)) == Some(k)
  {
    var trimmed := TrimStart(content);
    var pieces := Pieces(trimmed);
    front := pieces[..k];
    after := AfterTitle(header, TrimStart(Concat(pieces[k..])));
    var q := Opening(header, front);
    FrontIsFrontmatter(trimmed, k);
    OutputShape(header, front, Concat(pieces[k..]));
    OpeningIs(header, front);
    PiecesAppend(q, after);
    LinesAppend(q, after);
    CountOpening(header, front, Pieces(after));
    var page := Concat(q) + after;
    PageStarts(q, after);
    PageEnds(q, after);
  }

  /** The page in one piece: the frontmatter ended by a line feed, a blank line, the header and
      the trimmed rest, ended by a line feed. */
  lemma FrontedPage(header: PageHeader, content: string, front: string, rest: string)
    requires var trimmed := TrimStart(content); var pieces := Pieces(trimmed);
      && !HeaderWithin(Lines(trimmed), 10) && FrontmatterCount(pieces).Some?
      && trimmed == front + rest && |front| == |Concat(pieces[..FrontmatterCount(pieces).value])|
    ensures var page := (if LastIs(front, '\n') then front else front + "\n") + "\n"
                        + (header.title + "\n" + header.rest) + TrimStart(rest);
            WithHeader(header, content) == if LastIs(page, '\n') then page else page + "\n"
  {
    var trimmed := TrimStart(content);
    var pieces := Pieces(trimmed);
    FrontmatterCut(trimmed, FrontmatterCount(pieces).value);
    assert trimmed[..|front|] == front && trimmed[|front|..] == rest;
  }

  /** Without frontmatter the header comes first, and a page that has one only loses the
      whitespace in front. */
  lemma OtherPage(header: PageHeader, content: string)
    requires var trimmed := TrimStart(content);
      HeaderWithin(Lines(trimmed), 10) || FrontmatterCount(Pieces(trimmed)).None?
    ensures var trimmed := TrimStart(content);
            var page := if HeaderWithin(Lines(trimmed), 10) then trimmed
                        else header.title + "\n" + header.rest + trimmed;
            WithHeader(header, content) == if LastIs(page, '\n') then page else page + "\n"
  {
  }

  // ----- What frontmatter and a header are, written out -----

  lemma {:induction false} TrimLineEndIs(piece: string)
    ensures var r := TrimLineEnd(piece);
      && r <= piece && (r != [] ==> r[|r| - 1] != '\r' && r[|r| - 1] != '\n')
      && forall i | |r| <= i < |piece| :: piece[i] == '\r' || piece[i] == '\n'
  {
    if LastIs(piece, '\r') || LastIs(piece, '\n') { TrimLineEndIs(piece[..|piece| - 1]); }
  }

  /** Three dashes, then nothing but carriage returns and line feeds. */
  lemma FenceIs(piece: string)
    ensures IsFence(piece) <==>
              "---" <= piece && forall i | 3 <= i < |piece| :: piece[i] == '\r' || piece[i] == '\n'
  {
    var r := TrimLineEnd(piece);
    TrimLineEndIs(piece);
    if "---" <= piece {
      assert piece[2] == "---"[2] == '-';
      if |r| > 3 { assert r[|r| - 1] == piece[|r| - 1]; }
    }
  }

  /** The second fence that ends the frontmatter of `k` lines, if there is one. */
  ghost predicate EndsFrontmatter(pieces: seq<string>, k: nat) {
    && 2 <= k <= |pieces| && IsFence(pieces[0]) && IsFence(pieces[k - 1])
    && forall i | 0 < i < k - 1 :: !IsFence(pieces[i])
  }

  lemma FrontmatterCountIs(pieces: seq<string>, k: nat)
    ensures FrontmatterCount(pieces) == Some(k) <==> EndsFrontmatter(pieces, k)
  {
    if FrontmatterCount(pieces) == Some(k) { FencesAre(pieces); }
    if EndsFrontmatter(pieces, k) {
      var tail := pieces[1..];
      assert tail[k - 2] == pieces[k - 1];
      assert forall i | 0 <= i < k - 2 :: tail[i] == pieces[i + 1];
      FirstFenceAt(tail, k - 2);
    }
  }

  /** A page has a header when the header text is in one of its first ten lines. */
  lemma HeaderWithinTen(lines: seq<string>)
    ensures HeaderWithin(lines, 10) <==>
              exists i | 0 <= i < |lines| && i < 10 :: Occurs(lines[i], "auto-generated by alef")
  {
    HeaderWithinIs(lines, 10);
    forall i | 0 <= i < |lines| ensures IsHeaderLine(lines[i]) <==> Occurs(lines[i], "auto-generated by alef") {
      ContainsIs(lines[i], HEADER_MARKER);
    }
  }

  lemma PageStarts(q: seq<string>, after: string)
    requires q != [] && FrontmatterCount(q + Pieces(after)).Some?
    ensures TrimStart(Concat(q) + after) == Concat(q) + after
  {
    assert (q + Pieces(after))[0] == q[0];
    FenceStarts(q[0]);
    ConcatCons(q, after);
    TrimmedStays(Concat(q) + after);
  }

  lemma PageEnds(q: seq<string>, after: string)
    requires q != [] && LastIs(q[|q| - 1], '\n')
    requires after != [] ==> LastIs(after, '\n')
    ensures LastIs(Concat(q) + after, '\n')
  {
    CutEndsLine(q, |q|);
    assert q[..|q|] == q;
    LastOfConcat(Concat(q), after);
  }

  lemma LastOfConcat(a: string, b: string)
    requires LastIs(a, '\n') && (b != [] ==> LastIs(b, '\n'))
    ensures LastIs(a + b, '\n')
  {
  }

  // ----- Idempotence -----

  lemma TitleMakesHeader(header: PageHeader, front: seq<string>, more: seq<string>)
    requires header.Valid() && Frontmatter(front) && |front| <= 8
    ensures HeaderWithin(LinesOf(Opening(header, front)) + more, 10)
  {
    OpeningLines(header, front);
    var lines := LinesOf(Opening(header, front));
    var n := |front|;
    LinesOfAt(front);
    HeaderLineDropCr(header.title);
    assert IsHeaderLine((lines + more)[n + 1]);
    HeaderWithinIs(lines + more, 10);
  }

  lemma NearOutOfReach(front: seq<string>, title: string, lines: seq<string>, i: nat)
    requires Near(front + [""] + [title], lines) && |front| >= 9 && i < 10
    requires i < |front| ==> !IsHeaderLine(front[i])
    ensures !IsHeaderLine(lines[i])
  {
    var line := (front + [""] + [title])[i];
    HeaderLineDropCr(line);
    if i < |front| {
      assert line == front[i];
    } else {
      EmptyLineIsNoHeader();
    }
  }

  lemma FrontLine(front: seq<string>, content: string, i: nat)
    requires i < |front| <= |Pieces(content)| && front == Pieces(content)[..|front|]
    ensures i < |Lines(content)| && |LinesOf(front)| == |front| && LinesOf(front)[i] == Lines(content)[i]
  {
    LinesByPieces(content);
    LinesOfAt(front);
    LinesOfAt(Pieces(content));
  }

  /** Nine or more lines of frontmatter push the title line out of the lines that are searched. */
  lemma TitleOutOfReach(header: PageHeader, front: seq<string>, content: string, more: seq<string>)
    requires header.Valid() && Frontmatter(front) && |front| >= 9
    requires |front| <= |Pieces(content)| && front == Pieces(content)[..|front|]
    requires !HeaderWithin(Lines(content), 10)
    ensures !HeaderWithin(LinesOf(Opening(header, front)) + more, 10)
  {
    var opening := LinesOf(Opening(header, front));
    FrontLine(front, content, 0);
    OpeningLines(header, front);
    HeaderWithinIs(Lines(content), 10);
    HeaderWithinIs(opening + more, 10);
    forall i: nat | i < |opening + more| && i < 10 ensures !IsHeaderLine((opening + more)[i]) {
      if i < |front| { FrontLine(front, content, i); }
      NearOutOfReach(LinesOf(front), header.title, opening, i);
      assert (opening + more)[i] == opening[i];
    }
  }

  lemma EmptyLineIsNoHeader()
    ensures !IsHeaderLine("")
  {
  }

  lemma StaysWithHeader(header: PageHeader, page: string)
    requires TrimStart(page) == page && LastIs(page, '\n') && HeaderWithin(Lines(page), 10)
    ensures WithHeader(header, page) == page
  {
  }

  /** The first line of an unfronted page is the title line. */
  lemma PlainPage(header: PageHeader, content: string)
    requires header.Valid()
    requires var trimmed := TrimStart(content);
      !HeaderWithin(Lines(trimmed), 10) && FrontmatterCount(Pieces(trimmed)).None?
    ensures var page := WithHeader(header, content); var after := AfterTitle(header, TrimStart(content));
      && page == header.title + "\n" + after
      && TrimStart(page) == page && LastIs(page, '\n')
      && Lines(page) == [DropCr(header.title)] + Lines(after)
      && HeaderWithin(Lines(page), 10)
  {
    TitleFirst(header, TrimStart(content));
    TitlePage(header.title, AfterTitle(header, TrimStart(content)));
  }

  lemma TitleFirst(header: PageHeader, content: string)
    ensures EndLine(header.Text() + content) == header.title + "\n" + AfterTitle(header, content)
  {
    TitleSplit([], header, content);
    assert [] + header.Text() == header.Text();
    assert [] + (header.title + "\n") == header.title + "\n";
  }

  lemma TitlePage(title: string, after: string)
    requires title != [] && !IsWhitespace(title[0]) && Lacks(title, '\n') && IsHeaderLine(title)
    requires after != [] ==> LastIs(after, '\n')
    ensures var page := title + "\n" + after;
      && TrimStart(page) == page && LastIs(page, '\n')
      && Lines(page) == [DropCr(title)] + Lines(after)
      && HeaderWithin(Lines(page), 10)
  {
    LinesCons(title, after);
    HeaderLineDropCr(title);
    TrimmedStays(title + "\n" + after);
  }

  lemma SecondHeaderIsLonger(header: PageHeader, front: seq<string>, after: string)
    requires header.Valid() && Frontmatter(front)
    ensures |AfterFrontmatter(header, Concat(Opening(header, front)[..|front|]), "\n" + (header.title + "\n" + after))|
          > |Concat(Opening(header, front)) + after|
  {
    var q := Opening(header, front);
    var n := |front|;
    OpeningIs(header, front);
    ConcatSnoc(q[..n], "\n");
    ConcatSnoc(q[..n] + ["\n"], header.title + "\n");
    assert q == q[..n] + ["\n"] + [header.title + "\n"];
    var rest := "\n" + (header.title + "\n" + after);
    assert rest[1..] == header.title + "\n" + after;
    TrimmedStays(header.title + "\n" + after);
    assert TrimStart(rest) == header.title + "\n" + after;
  }

  lemma OpeningRest(header: PageHeader, front: seq<string>, after: string)
    requires header.Valid() && Frontmatter(front)
    ensures var all := Opening(header, front) + Pieces(after);
      && all[..|front|] == Opening(header, front)[..|front|]
      && Concat(all[|front|..]) == "\n" + (header.title + "\n" + after)
  {
    OpeningIs(header, front);
    var q := Opening(header, front);
    var n := |front|;
    var all := q + Pieces(after);
    PiecesConcat(after);
    assert all[n..] == ["\n"] + ([header.title + "\n"] + Pieces(after));
  }

  /** Inserting the header a second time changes nothing exactly when the content already had
      one, has no frontmatter, or has at most eight lines of it. */
  lemma HeaderIdempotent(header: PageHeader, content: string)
    requires header.Valid()
    ensures var trimmed := TrimStart(content);
      var k := FrontmatterCount(Pieces(trimmed));
      WithHeader(header, WithHeader(header, content)) == WithHeader(header, content) <==>
        HeaderWithin(Lines(trimmed), 10) || k.None? || k.value <= 8
  {
    var trimmed := TrimStart(content);
    var count := FrontmatterCount(Pieces(trimmed));
    var page := WithHeader(header, content);
    if HeaderWithin(Lines(trimmed), 10) {
      EndLineNear(trimmed);
      HeaderWithinNear(Lines(trimmed), Lines(page), 10);
      TrimStartSuffix(content);
      TrimmedStays(page);
      StaysWithHeader(header, page);
    } else if count.None? {
      PlainPage(header, content);
      StaysWithHeader(header, page);
    } else {
      var front, after := NewPage(header, content, count.value);
      if count.value <= 8 {
        TitleMakesHeader(header, front, Lines(after));
        StaysWithHeader(header, page);
      } else {
        TitleOutOfReach(header, front, trimmed, Lines(after));
        OpeningRest(header, front, after);
        SecondHeaderIsLonger(header, front, after);
      }
    }
  }

  /** Nine lines of frontmatter. */
  const LONG_FRONT: seq<string> := seq(9, i => if i == 0 || i == 8 then "---\n" else "a\n")

  ghost predicate Long(front: seq<string>) {
    |front| == 9 && forall i | 0 <= i < 9 :: front[i] == if i == 0 || i == 8 then "---\n" else "a\n"
  }

  lemma FenceOrNot()
    ensures IsFence("---\n") && Terminated("---\n") && !IsFence("a\n") && Terminated("a\n")
  {
    assert "---\n"[..3] == "---" && "a\n"[..1] == "a";
  }

  lemma LongCount(front: seq<string>)
    requires Long(front)
    ensures FrontmatterCount(front) == Some(9) && AllTerminated(front)
  {
    FenceOrNot();
    FirstFenceAt(front[1..], 7);
  }

  lemma ShortLineIsNoHeader(line: string)
    requires |line| < |HEADER_MARKER|
    ensures !IsHeaderLine(line)
  {
  }

  lemma LongLines(front: seq<string>)
    requires Long(front)
    ensures !HeaderWithin(LinesOf(front), 10)
  {
    var lines := LinesOf(front);
    LinesOfAt(front);
    HeaderWithinIs(lines, 10);
    forall i: nat | i < |lines| ensures !IsHeaderLine(lines[i]) {
      ShortLineIsNoHeader(lines[i]);
    }
  }

  lemma LongContent(front: seq<string>)
    requires Long(front)
    ensures Pieces(Concat(front)) == front && TrimStart(Concat(front)) == Concat(front)
  {
    LongCount(front);
    PiecesAppend(front, []);
    assert Concat(front) + [] == Concat(front) && front + [] == front;
    TrimmedStays(Concat(front));
  }

  lemma LongHeadedTwice(header: PageHeader, front: seq<string>)
    requires header.Valid() && Long(front)
    ensures WithHeader(header, WithHeader(header, Concat(front))) != WithHeader(header, Concat(front))
  {
    LongContent(front);
    LongCount(front);
    LongLines(front);
    LinesByPieces(Concat(front));
    HeaderIdempotent(header, Concat(front));
  }

  /** A page that gets a second header. */
  lemma LongFrontHeadedTwice()
    ensures var content := Concat(LONG_FRONT);
            WithHeader(DOCS_HEADER, WithHeader(DOCS_HEADER, content)) != WithHeader(DOCS_HEADER, content)
  {
    DocsHeaderValid();
    LongHeadedTwice(DOCS_HEADER, LONG_FRONT);
  }

  // ----- Stamping a page with a header -----

  /** The lines of a page up to its title line, before any ending is changed; the whole content
      when it has a header already. */
  function Start(header: PageHeader, content: string): seq<string> {
    var trimmed := TrimStart(content);
    if HeaderWithin(Lines(trimmed), 10) then Lines(trimmed)
    else match FrontmatterCount(Pieces(trimmed))
      case None => [header.title]
      case Some(k) => LinesByPieces(trimmed); LinesOfAt(Pieces(trimmed)); Lines(trimmed)[..k] + [""] + [header.title]
  }

  lemma {:induction false} MarkerInFront(front: seq<string>, more: seq<string>, limit: nat)
    requires front != [] && IsMarker(front[|front| - 1])
    ensures MarkerWithin(front + more, limit) == MarkerWithin(front, limit)
  {
    if limit > 0 && !IsMarker(front[0]) {
      assert (front + more)[1..] == front[1..] + more;
      MarkerInFront(front[1..], more, limit - 1);
    }
  }

  lemma ShowsNear(a: seq<string>, b: seq<string>)
    requires Near(a, b)
    ensures StampShows(a) <==> StampShows(b)
  {
    MarkerNear(a, b, 9);
    var marker := MarkerWithin(a, 9);
    if marker.Some? { FirstHashNear(a[..marker.value + 1], b[..marker.value + 1]); }
  }

  lemma ShowsInFront(front: seq<string>, more: seq<string>)
    requires front != [] && IsMarker(front[|front| - 1])
    ensures StampShows(front + more) <==> StampShows(front)
  {
    MarkerInFront(front, more, 9);
    var marker := MarkerWithin(front, 9);
    if marker.Some? { assert (front + more)[..marker.value + 1] == front[..marker.value + 1]; }
  }

  /** The lines behind the title line do not matter. */
  lemma ShowsUpToTitle(start: seq<string>, front: seq<string>, more: seq<string>)
    requires start != [] && Near(start, front) && IsMarker(start[|start| - 1])
    ensures StampShows(front + more) <==> StampShows(start)
  {
    MarkerOfDropCr(start[|start| - 1]);
    ShowsInFront(front, more);
    ShowsNear(start, front);
  }

  lemma FrontLines(content: string, k: nat)
    requires k <= |Pieces(content)|
    ensures k <= |Lines(content)| && LinesOf(Pieces(content)[..k]) == Lines(content)[..k]
  {
    LinesByPieces(content);
    LinesOfAt(Pieces(content));
    LinesOfAt(Pieces(content)[..k]);
  }

  lemma FrontedStampable(header: PageHeader, content: string, k: nat)
    requires header.Valid() && !HeaderWithin(Lines(TrimStart(content)), 10)
    requires FrontmatterCount(Pieces(TrimStart(content))) == Some(k)
    ensures Stampable(WithHeader(header, content)) <==> StampShows(Start(header, content))
  {
    var front, after := NewPage(header, content, k);
    FrontLines(TrimStart(content), k);
    OpeningLines(header, front);
    ShowsUpToTitle(Start(header, content), LinesOf(Opening(header, front)), Lines(after));
  }

  lemma PlainStampable(header: PageHeader, content: string)
    requires header.Valid() && !HeaderWithin(Lines(TrimStart(content)), 10)
    requires FrontmatterCount(Pieces(TrimStart(content))).None?
    ensures Stampable(WithHeader(header, content)) <==> StampShows(Start(header, content))
  {
    PlainPage(header, content);
    ShowsUpToTitle([header.title], [DropCr(header.title)], Lines(AfterTitle(header, TrimStart(content))));
  }

  lemma KeptStampable(header: PageHeader, content: string)
    requires HeaderWithin(Lines(TrimStart(content)), 10)
    ensures Stampable(WithHeader(header, content)) <==> StampShows(Start(header, content))
  {
    EndLineNear(TrimStart(content));
    ShowsNear(Lines(TrimStart(content)), Lines(EndLine(TrimStart(content))));
  }

  /** A page shows every hash it is stamped with exactly when, up to its title line, a marker is
      on one of its first nine lines and no stamp is read up to it. */
  lemma PageShowsStamp(header: PageHeader, content: string)
    requires header.Valid()
    ensures (forall hash | IsHex(hash) :: Extract(Inject(WithHeader(header, content), hash)) == Some(hash))
       <==> StampShows(Start(header, content))
  {
    var trimmed := TrimStart(content);
    var count := FrontmatterCount(Pieces(trimmed));
    StampReadsBack(WithHeader(header, content));
    if HeaderWithin(Lines(trimmed), 10) {
      KeptStampable(header, content);
    } else if count.None? {
      PlainStampable(header, content);
    } else {
      FrontedStampable(header, content, count.value);
    }
  }

  // ----- In particular a page with a new header -----

  /** At most seven lines of frontmatter, and no stamp in them. */
  ghost predicate UnstampedFront(content: string) {
    var trimmed := TrimStart(content);
    var k := FrontmatterCount(Pieces(trimmed));
    k.Some? ==> k.value <= 7 && forall i | 0 <= i < k.value && i < |Lines(trimmed)| :: !IsStamp(Lines(trimmed)[i])
  }

  lemma UnstampedShows(lines: seq<string>)
    requires 0 < |lines| <= 9 && IsMarker(lines[|lines| - 1])
    requires forall i | 0 <= i < |lines| :: !IsStamp(lines[i])
    ensures StampShows(lines)
  {
    MarkerWithinIs(lines, 9);
    NoStampNoHash(lines[..MarkerWithin(lines, 9).value + 1]);
  }

  lemma FrontShows(front: seq<string>, title: string)
    requires |front| <= 7 && IsHeaderLine(title) && !IsStamp(title)
    requires forall i | 0 <= i < |front| :: !IsStamp(front[i])
    ensures StampShows(front + [""] + [title])
  {
    var lines := front + [""] + [title];
    assert !IsStamp("");
    assert forall i | 0 <= i < |front| :: lines[i] == front[i];
    UnstampedShows(lines);
  }

  lemma StartShows(header: PageHeader, content: string)
    requires header.Valid()
    requires !HeaderWithin(Lines(TrimStart(content)), 10) && UnstampedFront(content)
    ensures StampShows(Start(header, content))
  {
    var trimmed := TrimStart(content);
    var count := FrontmatterCount(Pieces(trimmed));
    if count.Some? {
      FrontLines(trimmed, count.value);
      FrontShows(Lines(trimmed)[..count.value], header.title);
    } else {
      UnstampedShows([header.title]);
    }
  }

  /** A page whose header was just inserted shows the hash it is stamped with, when its
      frontmatter has at most seven lines and no stamp among them. */
  lemma NewHeaderShowsStamp(header: PageHeader, content: string, hash: string)
    requires header.Valid() && IsHex(hash)
    requires !HeaderWithin(Lines(TrimStart(content)), 10) && UnstampedFront(content)
    ensures Extract(Inject(WithHeader(header, content), hash)) == Some(hash)
  {
    StartShows(header, content);
    PageShowsStamp(header, content);
  }

  lemma ContainsMiddle(before: string, middle: string, after: string)
    ensures Contains(before + middle + after, middle)
  {
    var s := before + middle + after;
    assert s[|before|..|before| + |middle|] == middle;
    ContainsAt(s, middle, |before|);
  }

  lemma LacksConcat(a: string, b: string, c: string, x: char)
    requires Lacks(a, x) && Lacks(b, x) && Lacks(c, x)
    ensures Lacks(a + b + c, x)
  {
  }

  /** The header of the documentation pages is one of these. */
  lemma DocsHeaderValid()
    ensures DOCS_HEADER.Valid()
  {
    var before, after := "<!-- This file is ", " \U{2014} DO NOT EDIT. -->";
    var title := DOCS_HEADER.title;
    assert title == before + HEADER_MARKER + after;
    LacksConcat(before, HEADER_MARKER, after, ':');
    LacksConcat(before, HEADER_MARKER, after, '\n');
    NoColonNoStamp(title);
    ContainsMiddle(before, HEADER_MARKER, after);
    assert title[0] == before[0] == '<';
  }
}
