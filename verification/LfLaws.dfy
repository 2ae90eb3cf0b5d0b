/** The laws of the text transformations on texts without carriage returns, which is what the
    generators emit: the conditions that speak of carriage returns are all met there. */
module LfLaws {
  import opened Text
  import opened Digest
  import opened Fences
  import Headings
  import HeadingsLaws
  import Lists
  import ListsLaws
  import Sections
  import SectionsLaws
  import opened Stamp
  import StampLaws
  import opened Finalize
  import FinalizeLaws

  lemma UnstampedClean(lines: seq<string>)
    requires CleanLines(lines)
    ensures CleanLines(Unstamped(lines))
  {
    StampLaws.UnstampedIs(lines);
    forall i | 0 <= i < |Unstamped(lines)| ensures !LastIs(Unstamped(lines)[i], '\r') {
      var j :| 0 <= j < |lines| && lines[j] == Unstamped(lines)[i];
    }
  }

  /** The documentation passes: spacing lists and stripping Rust sections are idempotent, and
      demotions add up. */
  lemma DocPasses(doc: string, a: nat, b: nat, sum: nat)
    requires Lacks(doc, '\r') && a >= 1 && b >= 1 && sum == a + b
    ensures Lists.SpaceLists(Lists.SpaceLists(doc)) == Lists.SpaceLists(doc)
    ensures Sections.StripRust(Sections.StripRust(doc)) == Sections.StripRust(doc)
    ensures Headings.Demote(Headings.Demote(doc, a), b) == Headings.Demote(doc, sum)
  {
    LfTextIsClean(doc);
    ListsLaws.SpaceListsIdempotent(doc);
    SectionsLaws.StripRustCleanIdempotent(doc);
    TrimLinesIs(Lines(doc));
    HeadingsLaws.DemoteComposes(doc, a, b, sum);
  }

  /** The stamp: it can be taken off again, no digest of the file sees it, and a text without
      a marker is left as it is. */
  lemma StampPasses(content: string, hash: string)
    requires Lacks(content, '\r') && IsHex(hash)
    ensures Strip(Inject(content, hash)) == Strip(content) == Strip(Strip(content))
    ensures StampLaws.StampUnseen(content, hash)
    ensures MarkerWithin(Lines(content), 10).None? ==> Inject(content, hash) == content
  {
    LfTextIsClean(content);
    UnstampedClean(StampLaws.EndedLines(content));
    StampLaws.StripOfInject(content, hash);
    StampLaws.FileHashIgnoresStamp(content, hash);
    StampLaws.CleanStrip(content);
    if MarkerWithin(Lines(content), 10).None? { StampLaws.InjectUnchanged(content, hash); }
  }

  /** A file stamped with its own hash verifies whenever the stamp is read back. */
  lemma StampedFilePasses(content: string)
    requires Lacks(content, '\r')
    ensures StampLaws.SelfVerifies(content) <==> StampLaws.Stampable(content)
  {
    LfTextIsClean(content);
    UnstampedClean(StampLaws.EndedLines(content));
    StampLaws.StampedFileVerifies(content);
  }

  lemma {:induction false} LinesLack(s: string, c: char)
    requires Lacks(s, c)
    ensures forall i | 0 <= i < |Lines(s)| :: Lacks(Lines(s)[i], c)
    decreases |s|
  {
    if s != [] {
      var i := NewlineAt(s);
      if i < |s| { LinesLack(s[i + 1..], c); }
    }
  }

  lemma {:induction false} UnlinesLack(lines: seq<string>, c: char)
    requires c != '\n' && forall i | 0 <= i < |lines| :: Lacks(lines[i], c)
    ensures Lacks(Unlines(lines), c)
  {
    if lines != [] { UnlinesLack(lines[1..], c); }
  }

  lemma StripLacks(content: string)
    requires Lacks(content, '\r')
    ensures Lacks(Strip(content), '\r')
  {
    var kept := Unstamped(Lines(content));
    LinesLack(content, '\r');
    StampLaws.UnstampedIs(Lines(content));
    forall i | 0 <= i < |kept| ensures Lacks(kept[i], '\r') {
      var j :| 0 <= j < |Lines(content)| && Lines(content)[j] == kept[i];
    }
    UnlinesLack(kept, '\r');
  }

  /** Stamping the written files: the last run decides, a second run with one hash rewrites
      nothing, and the body is left as it was generated. */
  lemma FinalizePasses(content: string, first: string, second: string)
    requires Lacks(content, '\r') && IsHex(first) && IsHex(second)
    ensures Finalized(Finalized(content, first), second) == Finalized(content, second)
    ensures Strip(Finalized(content, first)) == Strip(content)
  {
    LfTextIsClean(content);
    StripLacks(content);
    LfTextIsClean(Strip(content));
    StampLaws.CleanStrip(content);
    FinalizeLaws.FinalizeTwice(content, first, second);
    FinalizeLaws.FinalizedBodyStays(content, first);
  }
}
