/** How a page's content blocks and title property become the plain text
    of a page update: one prefixed line per recognised block that has
    text, lines joined by a line feed, and a title that falls back to
    "Untitled". */
module Blocks {
  import opened Wrappers
  import opened Text
  import opened Seqs
  import opened Options

  type BlockId = string

  /** The block types the walk distinguishes. `ToDo` carries the
      checkbox state; `ChildPage` is a nested page the walk descends
      into; every other type of block is `Other`. */
  datatype BlockKind =
    | Paragraph
    | Heading1
    | Heading2
    | Heading3
    | BulletedListItem
    | NumberedListItem
    | ToDo(checked: bool)
    | ChildPage
    | Other

  /** One entry of a block listing: its id (for a child page, the id of
      that page), its type, and the plain text of each run of its
      `rich_text` array in order (empty for types without one). */
  datatype Block = Block(id: BlockId, kind: BlockKind, richText: seq<string>)

  /** The seven types whose text goes into the page content. */
  predicate IsTextKind(kind: BlockKind) {
    !kind.ChildPage? && !kind.Other?
  }

  /** The marker put before the text of each text type. */
  function Prefix(kind: BlockKind): string
    requires IsTextKind(kind)
  {
    match kind
    case Paragraph => ""
    case Heading1 => "# "
    case Heading2 => "## "
    case Heading3 => "### "
    case BulletedListItem => "\U{2022} "
    case NumberedListItem => "1. "
    case ToDo(checked) => if checked then "[x] " else "[ ] "
  }

  /** The line a block contributes: its marker and its first run, when
      it is of a text type and has at least one run. */
  function LineOf(b: Block): Option<string> {
    if IsTextKind(b.kind) && |b.richText| > 0 then Some(Prefix(b.kind) + b.richText[0])
    else None
  }

  /** The lines of a listing, one per contributing block, in block
      order. */
  function ContentLines(blocks: seq<Block>): seq<string> {
    if blocks == [] then []
    else
      (match LineOf(blocks[0]) case Some(line) => [line] case None => [])
      + ContentLines(blocks[1..])
  }

  /** A page's `content` field: its lines joined by a line feed. */
  function Content(blocks: seq<Block>): string {
    Join(ContentLines(blocks), '\n')
  }

  /** The `for` loop that pushes each block's line onto `pageContent`,
      followed by `pageContent.join('\n')`. */
  method ExtractContent(blocks: seq<Block>) returns (content: string)
    ensures content == Content(blocks)
  {
    var pageContent: seq<string> := [];
    for i := 0 to |blocks|
      invariant pageContent == ContentLines(blocks[..i])
    {
      var block := blocks[i];
      ContentLinesAppend(blocks[..i], [block]);
      SliceSnoc(blocks, i);
      if IsTextKind(block.kind) && |block.richText| > 0 {
        pageContent := pageContent + [Prefix(block.kind) + block.richText[0]];
      }
    }
    SliceAll(blocks);
    content := Join(pageContent, '\n');
  }

  /** The lines of two listings side by side are the lines of each, in
      order. */
  lemma {:induction false} ContentLinesAppend(a: seq<Block>, b: seq<Block>)
    ensures ContentLines(a + b) == ContentLines(a) + ContentLines(b)
    decreases |a|
  {
    if a != [] {
      assert (a + b)[0] == a[0];
      assert (a + b)[1..] == a[1..] + b;
      ContentLinesAppend(a[1..], b);
    } else {
      assert a + b == b;
    }
  }

  /** The line each block would give, position by position. */
  function LinesOf(blocks: seq<Block>): (r: seq<Option<string>>)
    ensures |r| == |blocks| && forall i :: 0 <= i < |r| ==> r[i] == LineOf(blocks[i])
  {
    seq(|blocks|, i requires 0 <= i < |blocks| => LineOf(blocks[i]))
  }

  /** The indices of the contributing blocks, in increasing order. */
  function LineSources(blocks: seq<Block>): seq<nat> {
    SomeIndices(LinesOf(blocks))
  }

  lemma {:induction false} ContentLinesSomes(blocks: seq<Block>)
    ensures ContentLines(blocks) == Somes(LinesOf(blocks))
    decreases |blocks|
  {
    if blocks != [] {
      ContentLinesSomes(blocks[1..]);
      var xs := LinesOf(blocks);
      assert xs[0] == LineOf(blocks[0]);
      assert xs[1..] == LinesOf(blocks[1..]);
    }
  }

  /** Each contributing block gives exactly one line, in block order,
      and no other block gives anything: the j-th line of the content
      is the line of the j-th contributing block. */
  lemma ContentLinesExact(blocks: seq<Block>)
    ensures var lines, idx := ContentLines(blocks), LineSources(blocks);
      && |idx| == |lines|
      && (forall j :: 0 <= j < |idx| ==> idx[j] < |blocks| && LineOf(blocks[idx[j]]) == Some(lines[j]))
      && Increasing(idx)
      && (forall i :: 0 <= i < |blocks| && LineOf(blocks[i]).Some? ==> i in idx)
  {
    var xs := LinesOf(blocks);
    ContentLinesSomes(blocks);
    SomeIndicesSound(xs);
    SomeIndicesIncreasing(xs);
    SomeIndicesComplete(xs);
    var lines, idx := ContentLines(blocks), LineSources(blocks);
    forall j | 0 <= j < |idx|
      ensures idx[j] < |blocks| && LineOf(blocks[idx[j]]) == Some(lines[j])
    {
      assert xs[idx[j]] == Some(lines[j]);
    }
    forall i | 0 <= i < |blocks| && LineOf(blocks[i]).Some?
      ensures i in idx
    {
      assert xs[i].Some?;
    }
  }

  /** When its lines have no line feed of their own, a non-empty content
      splits back into exactly its lines. */
  lemma ContentSplitsIntoLines(blocks: seq<Block>)
    requires ContentLines(blocks) != []
    requires forall b :: b in blocks ==> forall t :: t in b.richText ==> '\n' !in t
    ensures Split(Content(blocks), '\n') == ContentLines(blocks)
  {
    var lines := ContentLines(blocks);
    ContentLinesExact(blocks);
    forall j | 0 <= j < |lines|
      ensures '\n' !in lines[j]
    {
      var b := blocks[LineSources(blocks)[j]];
      assert b in blocks && b.richText[0] in b.richText;
      assert lines[j] == Prefix(b.kind) + b.richText[0];
    }
    SplitJoin(lines, '\n');
  }

  /** The page title: the plain text of the first run of the `title`
      property when the page has one with at least one run, otherwise
      "Untitled". `titleRuns` is `None` when the page has no property
      named `title` (a database entry names its title column otherwise). */
  function PageTitle(titleRuns: Option<seq<string>>): (title: string)
    ensures titleRuns.Some? && |titleRuns.value| > 0 ==> title == titleRuns.value[0]
    ensures titleRuns.None? || |titleRuns.value| == 0 ==> title == "Untitled"
  {
    match titleRuns
    case Some(runs) => if |runs| > 0 then runs[0] else "Untitled"
    case None => "Untitled"
  }
}
