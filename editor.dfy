/**
 * EditManipulator: the editor commands that rewrite the plain-text document in place through
 * text cursors. The document is its list of blocks; the editor's own cursor is a position and
 * an anchor; an edit made through another cursor moves the editor's cursor as QTextCursor does.
 */
module Editing {

  import opened Document
  import opened LineText
  import opened Strings

  /** Where a cursor's position goes when n characters are inserted at p by another cursor. */
  function PositionAfterInsert(position: int, anchor: int, p: int, n: nat): int
  {
    if position < p || (position == p && anchor < position) then position else position + n
  }

  /** Where a cursor's anchor goes when n characters are inserted at p by another cursor. */
  function AnchorAfterInsert(anchor: int, p: int, n: nat): int
  {
    if anchor < p then anchor else anchor + n
  }

  /** Where a cursor position goes when [from, to) is removed by another cursor. */
  function AfterRemoval(x: int, from: int, to: int): int
  {
    if x <= from then x else if x < to then from else x - (to - from)
  }

  /** QTextCursor::setPosition: a target outside the document is ignored. */
  function SetPosition(target: int, length: int, current: int): int
  {
    if 0 <= target <= length then target else current
  }

  /**
   * The column a cursor at column c of a block ends at once n characters go in at the block's
   * start: past them, unless it stays in front of them (a position at the start with its anchor before it).
   */
  function ColumnAfterBlockIndent(c: nat, n: nat, staysInFront: bool): nat
  {
    if c == 0 && staysInFront then 0 else c + n
  }

  /** The column a cursor at column c of a block ends at once the block's first k characters go. */
  function ColumnAfterBlockUnindent(c: nat, k: nat): nat
  {
    if c <= k then 0 else c - k
  }

  /** Both ends of a cursor lie in the blocks its selection touches. */
  lemma SelectionEndsSelected(bs: seq<string>, position: int, anchor: int)
    requires |bs| >= 1 && 0 <= position <= Length(bs) && 0 <= anchor <= Length(bs)
    ensures FindBlock(bs, Min(position, anchor)) <= FindBlock(bs, position) <= FindBlock(bs, Max(position, anchor))
    ensures FindBlock(bs, Min(position, anchor)) <= FindBlock(bs, anchor) <= FindBlock(bs, Max(position, anchor))
  {
    FindBlockMonotonic(bs, Min(position, anchor), Max(position, anchor));
  }

  /** A cursor end at p lies in block b at column c. */
  ghost predicate Placed(bs: seq<string>, p: int, b: nat, c: nat)
  {
    b < |bs| && c <= |bs[b]| && p == BlockStart(bs, b) + c
  }

  /** Where a cursor end is placed is where QTextDocument::findBlock finds it. */
  lemma PlacedFound(bs: seq<string>, p: int, b: nat, c: nat)
    requires Placed(bs, p, b, c)
    ensures 0 <= p <= Length(bs) && FindBlock(bs, p) == b && Column(bs, p) == c
  {
    FindBlockAt(bs, b, c);
  }

  /**
   * One step of indent's selection loop, for one end x of the editor's cursor: s goes in at
   * the start of block e, and x keeps its block and its column so far (stays: x is a position
   * that stays in front of text inserted where it is).
   */
  lemma IndentStepKeepsPlace(before: seq<string>, e: nat, s: string, at: int,
                             x: int, xb: nat, xc: nat, stays: bool, after: seq<string>, x': int)
    requires e < |before| && at == BlockStart(before, e)
    requires Placed(before, x, xb, if xb < e then ColumnAfterBlockIndent(xc, |s|, stays) else xc)
    requires after == before[e := s + before[e]]
    requires x' == if x < at || (x == at && stays) then x else x + |s|
    ensures Placed(after, x', xb, if xb <= e then ColumnAfterBlockIndent(xc, |s|, stays) else xc)
  {
    var edited := s + before[e];
    if xb < e {
      BlockOrder(before, xb, e);
      BlockStartOfEdited(before, e, edited, xb);
    } else if xb == e {
      BlockStartOfEdited(before, e, edited, e);
    } else {
      BlockOrder(before, e, xb);
      BlockStartAfterEdited(before, e, edited, xb);
    }
  }

  /**
   * One step of unindent's selection loop, for one end x of the editor's cursor: the first k
   * characters of block e go, and x keeps its block and its column so far (kx is what
   * the removal takes from the block x is in).
   */
  lemma UnindentStepKeepsPlace(before: seq<string>, e: nat, k: nat, at: int,
                               x: int, xb: nat, xc: nat, kx: nat, after: seq<string>, x': int)
    requires e < |before| && k <= |before[e]| && at == BlockStart(before, e) && (xb == e ==> kx == k)
    requires Placed(before, x, xb, if xb < e then ColumnAfterBlockUnindent(xc, kx) else xc)
    requires after == before[e := before[e][k..]]
    requires x' == AfterRemoval(x, at, at + k)
    ensures Placed(after, x', xb, if xb <= e then ColumnAfterBlockUnindent(xc, kx) else xc)
  {
    var edited := before[e][k..];
    if xb < e {
      BlockOrder(before, xb, e);
      BlockStartOfEdited(before, e, edited, xb);
    } else if xb == e {
      BlockStartOfEdited(before, e, edited, e);
    } else {
      BlockOrder(before, e, xb);
      BlockStartAfterEdited(before, e, edited, xb);
    }
  }

  /** The document's blocks together with the editor's cursor. */
  datatype DocCursor = DocCursor(blocks: seq<string>, position: int, anchor: int)

  ghost predicate CursorInside(d: DocCursor)
  {
    WellFormed(d.blocks) && 0 <= d.position <= Length(d.blocks) && 0 <= d.anchor <= Length(d.blocks)
  }

  /**
   * Indent's selection loop after its first i passes: s went in at the start of each
   * of blocks first..first + i - 1, each through a cursor of its own, moving the editor's cursor.
   */
  ghost function IndentPasses(d: DocCursor, first: nat, i: nat, s: string): (r: DocCursor)
    requires first + i <= |d.blocks|
    ensures |r.blocks| == |d.blocks|
    decreases i
  {
    if i == 0 then d else IndentPass(IndentPasses(d, first, i - 1, s), first + i - 1, s)
  }

  /** One pass of indent's selection loop: s goes in at the start of block e through a cursor of its own. */
  ghost function IndentPass(prev: DocCursor, e: nat, s: string): (r: DocCursor)
    requires e < |prev.blocks|
    ensures |r.blocks| == |prev.blocks|
  {
    var at := BlockStart(prev.blocks, e);
    DocCursor(prev.blocks[e := s + prev.blocks[e]],
              PositionAfterInsert(prev.position, prev.anchor, at, |s|), AnchorAfterInsert(prev.anchor, at, |s|))
  }

  /** ks gives, for each block of bs, a number of characters it can lose from its start. */
  ghost predicate AmountsFit(bs: seq<string>, ks: seq<nat>)
  {
    |ks| == |bs| && forall j :: 0 <= j < |bs| ==> ks[j] <= |bs[j]|
  }

  /** What unindent(numChars) removes from the start of each block. */
  ghost function RemovedIndents(bs: seq<string>, numChars: int): (ks: seq<nat>)
    ensures AmountsFit(bs, ks)
  {
    seq(|bs|, j requires 0 <= j < |bs| => RemovedIndent(bs[j], numChars))
  }

  /**
   * Unindent's selection loop after its first i passes: each of blocks first..first + i - 1
   * lost the first ks[j] characters it had through a cursor of its own, moving the editor's cursor.
   */
  ghost function UnindentPasses(d: DocCursor, first: nat, i: nat, ks: seq<nat>): (r: DocCursor)
    requires first + i <= |d.blocks| && AmountsFit(d.blocks, ks)
    ensures |r.blocks| == |d.blocks|
    ensures forall j :: first + i <= j < |d.blocks| ==> r.blocks[j] == d.blocks[j]
    decreases i
  {
    if i == 0 then d else UnindentPass(UnindentPasses(d, first, i - 1, ks), first + i - 1, ks[first + i - 1])
  }

  /** One pass of unindent's selection loop: the first k characters of block e go, through a cursor of its own. */
  ghost function UnindentPass(prev: DocCursor, e: nat, k: nat): (r: DocCursor)
    requires e < |prev.blocks| && k <= |prev.blocks[e]|
    ensures |r.blocks| == |prev.blocks|
  {
    var at := BlockStart(prev.blocks, e);
    DocCursor(prev.blocks[e := prev.blocks[e][k..]], AfterRemoval(prev.position, at, at + k), AfterRemoval(prev.anchor, at, at + k))
  }

  /** After i passes of indent's selection loop from block first, those blocks carry n more spaces in front. */
  lemma {:induction false} IndentPassesBlocks(d: DocCursor, first: nat, i: nat, n: nat)
    requires first + i <= |d.blocks|
    ensures IndentPasses(d, first, i, Spaces(n)).blocks == IndentedBlocks(d.blocks, first, first + i - 1, n)
    decreases i
  {
    if i == 0 {
      IndentedNone(d.blocks, first, n);
    } else {
      IndentPassesBlocks(d, first, i - 1, n);
      var prev := IndentPasses(d, first, i - 1, Spaces(n));
      IndentedStep(d.blocks, first, first + i - 2, n);
      assert prev.blocks[first + i - 1] == d.blocks[first + i - 1];
    }
  }

  /**
   * After i passes of indent's selection loop from block first, each end of the cursor at or
   * after block first keeps its block: its column moves past the spaces when its block was
   * indented, except a position at the start of its block with the anchor before it, which
   * stays in front of them. Which end comes first does not change.
   */
  lemma {:induction false} IndentPassesPlace(d: DocCursor, first: nat, i: nat, s: string, pb: nat, pc: nat, ab: nat, ac: nat)
    requires first + i <= |d.blocks| && first <= pb && first <= ab
    requires Placed(d.blocks, d.position, pb, pc) && Placed(d.blocks, d.anchor, ab, ac)
    ensures var r := IndentPasses(d, first, i, s);
      && (r.anchor < r.position) == (d.anchor < d.position)
      && Placed(r.blocks, r.position, pb, if pb < first + i then ColumnAfterBlockIndent(pc, |s|, d.anchor < d.position) else pc)
      && Placed(r.blocks, r.anchor, ab, if ab < first + i then ColumnAfterBlockIndent(ac, |s|, false) else ac)
    decreases i
  {
    if i > 0 {
      IndentPassesPlace(d, first, i - 1, s, pb, pc, ab, ac);
      IndentPassKeepsPlace(IndentPasses(d, first, i - 1, s), first + i - 1, s, pb, pc, ab, ac, d.anchor < d.position);
    }
  }

  /** One pass of indent's selection loop, over block e, keeps both ends of the cursor placed, and their order. */
  lemma IndentPassKeepsPlace(prev: DocCursor, e: nat, s: string, pb: nat, pc: nat, ab: nat, ac: nat, stays: bool)
    requires e < |prev.blocks| && stays == (prev.anchor < prev.position)
    requires Placed(prev.blocks, prev.position, pb, if pb < e then ColumnAfterBlockIndent(pc, |s|, stays) else pc)
    requires Placed(prev.blocks, prev.anchor, ab, if ab < e then ColumnAfterBlockIndent(ac, |s|, false) else ac)
    ensures var r := IndentPass(prev, e, s);
      && (r.anchor < r.position) == stays
      && Placed(r.blocks, r.position, pb, if pb <= e then ColumnAfterBlockIndent(pc, |s|, stays) else pc)
      && Placed(r.blocks, r.anchor, ab, if ab <= e then ColumnAfterBlockIndent(ac, |s|, false) else ac)
  {
    var r := IndentPass(prev, e, s);
    var at := BlockStart(prev.blocks, e);
    IndentStepKeepsPlace(prev.blocks, e, s, at, prev.position, pb, pc, stays, r.blocks, r.position);
    IndentStepKeepsPlace(prev.blocks, e, s, at, prev.anchor, ab, ac, false, r.blocks, r.anchor);
  }

  /**
   * Indent's selection loop over blocks first..first + i - 1, with both ends of the cursor in
   * them: the ends keep their blocks, the anchor's column moves past the spaces and so does
   * the position's, unless it stays in front of them.
   */
  lemma IndentPassesFound(d: DocCursor, first: nat, i: nat, s: string)
    requires CursorInside(d) && first + i <= |d.blocks|
    requires first <= FindBlock(d.blocks, d.position) < first + i && first <= FindBlock(d.blocks, d.anchor) < first + i
    ensures var r := IndentPasses(d, first, i, s);
      && 0 <= r.position <= Length(r.blocks) && 0 <= r.anchor <= Length(r.blocks)
      && FindBlock(r.blocks, r.position) == FindBlock(d.blocks, d.position)
      && FindBlock(r.blocks, r.anchor) == FindBlock(d.blocks, d.anchor)
      && Column(r.blocks, r.position) == ColumnAfterBlockIndent(Column(d.blocks, d.position), |s|, d.anchor < d.position)
      && Column(r.blocks, r.anchor) == Column(d.blocks, d.anchor) + |s|
  {
    var r := IndentPasses(d, first, i, s);
    var pb, ab := FindBlock(d.blocks, d.position), FindBlock(d.blocks, d.anchor);
    var pc, ac := Column(d.blocks, d.position), Column(d.blocks, d.anchor);
    IndentPassesPlace(d, first, i, s, pb, pc, ab, ac);
    PlacedFound(r.blocks, r.position, pb, ColumnAfterBlockIndent(pc, |s|, d.anchor < d.position));
    PlacedFound(r.blocks, r.anchor, ab, ColumnAfterBlockIndent(ac, |s|, false));
  }

  /**
   * Indent's selection loop run over every block from the selection's start to its end: those
   * blocks carry n more spaces in front, and the cursor's ends keep their blocks and move as
   * IndentPassesFound says.
   */
  lemma IndentSelectionOutcome(d: DocCursor, first: nat, last: nat, count: nat, n: nat)
    requires CursorInside(d) && first == FindBlock(d.blocks, Min(d.position, d.anchor))
    requires last == FindBlock(d.blocks, Max(d.position, d.anchor)) && count == last - first + 1
    ensures var r := IndentPasses(d, first, count, Spaces(n));
      && r.blocks == IndentedBlocks(d.blocks, first, last, n)
      && 0 <= r.position <= Length(r.blocks) && 0 <= r.anchor <= Length(r.blocks)
      && FindBlock(r.blocks, r.position) == FindBlock(d.blocks, d.position)
      && FindBlock(r.blocks, r.anchor) == FindBlock(d.blocks, d.anchor)
      && Column(r.blocks, r.position) == ColumnAfterBlockIndent(Column(d.blocks, d.position), n, d.anchor < d.position)
      && Column(r.blocks, r.anchor) == Column(d.blocks, d.anchor) + n
  {
    SelectionEndsSelected(d.blocks, d.position, d.anchor);
    IndentPassesBlocks(d, first, count, n);
    IndentPassesFound(d, first, count, Spaces(n));
  }

  /** After i passes of unindent's selection loop from block first, each of those blocks lost its first ks[j] characters and no other block changed. */
  lemma {:induction false} UnindentPassesBlocks(d: DocCursor, first: nat, i: nat, ks: seq<nat>)
    requires first + i <= |d.blocks| && AmountsFit(d.blocks, ks)
    ensures var r := UnindentPasses(d, first, i, ks);
      forall j :: 0 <= j < |d.blocks| ==> r.blocks[j] == if first <= j < first + i then d.blocks[j][ks[j]..] else d.blocks[j]
    decreases i
  {
    if i > 0 {
      UnindentPassesBlocks(d, first, i - 1, ks);
      var prev := UnindentPasses(d, first, i - 1, ks);
      var r := UnindentPasses(d, first, i, ks);
      var e := first + i - 1;
      assert r.blocks == prev.blocks[e := prev.blocks[e][ks[e]..]];
      forall j | 0 <= j < |d.blocks|
        ensures r.blocks[j] == if first <= j < first + i then d.blocks[j][ks[j]..] else d.blocks[j]
      {
        if j == e {
          assert prev.blocks[e] == d.blocks[e];
        }
      }
    }
  }

  /**
   * After i passes of unindent's selection loop from block first, each end of the cursor at
   * or after block first keeps its block: in a block that lost its first ks[b] characters, an
   * end among them goes to the block's start and one after them moves back by their number.
   */
  lemma {:induction false} UnindentPassesPlace(d: DocCursor, first: nat, i: nat, ks: seq<nat>, pb: nat, pc: nat, ab: nat, ac: nat)
    requires first + i <= |d.blocks| && AmountsFit(d.blocks, ks) && first <= pb && first <= ab
    requires Placed(d.blocks, d.position, pb, pc) && Placed(d.blocks, d.anchor, ab, ac)
    ensures var r := UnindentPasses(d, first, i, ks);
      && Placed(r.blocks, r.position, pb, if pb < first + i then ColumnAfterBlockUnindent(pc, ks[pb]) else pc)
      && Placed(r.blocks, r.anchor, ab, if ab < first + i then ColumnAfterBlockUnindent(ac, ks[ab]) else ac)
    decreases i
  {
    if i > 0 {
      UnindentPassesPlace(d, first, i - 1, ks, pb, pc, ab, ac);
      var e := first + i - 1;
      UnindentPassKeepsPlace(UnindentPasses(d, first, i - 1, ks), e, ks[e], pb, pc, ks[pb], ab, ac, ks[ab]);
    }
  }

  /** One pass of unindent's selection loop, over block e, keeps both ends of the cursor placed. */
  lemma UnindentPassKeepsPlace(prev: DocCursor, e: nat, k: nat, pb: nat, pc: nat, kp: nat, ab: nat, ac: nat, ka: nat)
    requires e < |prev.blocks| && k <= |prev.blocks[e]|
    requires (pb == e ==> kp == k) && (ab == e ==> ka == k)
    requires Placed(prev.blocks, prev.position, pb, if pb < e then ColumnAfterBlockUnindent(pc, kp) else pc)
    requires Placed(prev.blocks, prev.anchor, ab, if ab < e then ColumnAfterBlockUnindent(ac, ka) else ac)
    ensures var r := UnindentPass(prev, e, k);
      && Placed(r.blocks, r.position, pb, if pb <= e then ColumnAfterBlockUnindent(pc, kp) else pc)
      && Placed(r.blocks, r.anchor, ab, if ab <= e then ColumnAfterBlockUnindent(ac, ka) else ac)
  {
    var r := UnindentPass(prev, e, k);
    var at := BlockStart(prev.blocks, e);
    UnindentStepKeepsPlace(prev.blocks, e, k, at, prev.position, pb, pc, kp, r.blocks, r.position);
    UnindentStepKeepsPlace(prev.blocks, e, k, at, prev.anchor, ab, ac, ka, r.blocks, r.anchor);
  }

  /**
   * Unindent's selection loop over blocks first..first + i - 1, with both ends of the cursor
   * in them: the ends keep their blocks, and each column loses what its block lost in front of it.
   */
  lemma UnindentPassesFound(d: DocCursor, first: nat, i: nat, numChars: int)
    requires CursorInside(d) && first + i <= |d.blocks|
    requires first <= FindBlock(d.blocks, d.position) < first + i && first <= FindBlock(d.blocks, d.anchor) < first + i
    ensures var r := UnindentPasses(d, first, i, RemovedIndents(d.blocks, numChars));
      && 0 <= r.position <= Length(r.blocks) && 0 <= r.anchor <= Length(r.blocks)
      && FindBlock(r.blocks, r.position) == FindBlock(d.blocks, d.position)
      && FindBlock(r.blocks, r.anchor) == FindBlock(d.blocks, d.anchor)
      && Column(r.blocks, r.position)
         == ColumnAfterBlockUnindent(Column(d.blocks, d.position), RemovedIndent(d.blocks[FindBlock(d.blocks, d.position)], numChars))
      && Column(r.blocks, r.anchor)
         == ColumnAfterBlockUnindent(Column(d.blocks, d.anchor), RemovedIndent(d.blocks[FindBlock(d.blocks, d.anchor)], numChars))
  {
    var ks := RemovedIndents(d.blocks, numChars);
    var r := UnindentPasses(d, first, i, ks);
    var pb, ab := FindBlock(d.blocks, d.position), FindBlock(d.blocks, d.anchor);
    var pc, ac := Column(d.blocks, d.position), Column(d.blocks, d.anchor);
    assert ks[pb] == RemovedIndent(d.blocks[pb], numChars) && ks[ab] == RemovedIndent(d.blocks[ab], numChars);
    UnindentPassesPlace(d, first, i, ks, pb, pc, ab, ac);
    PlacedFound(r.blocks, r.position, pb, ColumnAfterBlockUnindent(pc, ks[pb]));
    PlacedFound(r.blocks, r.anchor, ab, ColumnAfterBlockUnindent(ac, ks[ab]));
  }

  /**
   * Unindent's selection loop run over every block from the selection's start to its end: those
   * blocks lost their removable indentation, and the cursor's ends keep their blocks and move
   * as UnindentPassesFound says.
   */
  lemma UnindentSelectionOutcome(d: DocCursor, first: nat, last: nat, count: nat, numChars: int)
    requires CursorInside(d) && first == FindBlock(d.blocks, Min(d.position, d.anchor))
    requires last == FindBlock(d.blocks, Max(d.position, d.anchor)) && count == last - first + 1
    ensures var r := UnindentPasses(d, first, count, RemovedIndents(d.blocks, numChars));
      && r.blocks == UnindentedBlocks(d.blocks, first, last, numChars)
      && 0 <= r.position <= Length(r.blocks) && 0 <= r.anchor <= Length(r.blocks)
      && FindBlock(r.blocks, r.position) == FindBlock(d.blocks, d.position)
      && FindBlock(r.blocks, r.anchor) == FindBlock(d.blocks, d.anchor)
      && Column(r.blocks, r.position)
         == ColumnAfterBlockUnindent(Column(d.blocks, d.position), RemovedIndent(d.blocks[FindBlock(d.blocks, d.position)], numChars))
      && Column(r.blocks, r.anchor)
         == ColumnAfterBlockUnindent(Column(d.blocks, d.anchor), RemovedIndent(d.blocks[FindBlock(d.blocks, d.anchor)], numChars))
  {
    SelectionEndsSelected(d.blocks, d.position, d.anchor);
    var ks := RemovedIndents(d.blocks, numChars);
    var r := UnindentPasses(d, first, count, ks);
    UnindentPassesBlocks(d, first, count, ks);
    assert forall j :: 0 <= j < |d.blocks| ==> ks[j] == RemovedIndent(d.blocks[j], numChars);
    assert r.blocks == UnindentedBlocks(d.blocks, first, last, numChars);
    UnindentPassesFound(d, first, count, numChars);
  }

  /** After k characters go into block b at column c, the position just after them is in block b at column c + k. */
  lemma {:induction false} CursorMovedInBlock(before: seq<string>, after: seq<string>, b: nat, c: nat, k: nat)
    requires WellFormed(before) && WellFormed(after) && |after| == |before| && b < |before|
    requires c <= |before[b]| && |after[b]| == |before[b]| + k && after == before[b := after[b]]
    ensures BlockStart(before, b) + c + k <= Length(after)
    ensures FindBlock(after, BlockStart(before, b) + c + k) == b
    ensures Column(after, BlockStart(before, b) + c + k) == c + k
  {
    BlockStartOfEdited(before, b, after[b], b);
    FindBlockAt(after, b, c + k);
  }

  /** The last block emptied when it is the only one after kept: the one empty block after kept. */
  lemma {:induction false} ClearedLast(before: seq<string>, kept: seq<string>)
    requires |before| == |kept| + 1 && before[..|kept|] == kept
    ensures before[|kept| := ""] == kept + [""]
  {
    assert before[|kept| := ""] == before[..|kept|] + [""];
  }

  /** Deleting the break before an emptied last block drops that block. */
  lemma {:induction false} MergedLast(before: seq<string>)
    requires |before| >= 2
    ensures var last := |before| - 1; var cleared := before[last := ""];
      cleared[..last - 1] + [cleared[last - 1] + cleared[last]] + cleared[last + 1..] == before[..last]
  {
    var last := |before| - 1;
    var cleared := before[last := ""];
    assert cleared[last - 1] + cleared[last] == before[last - 1];
    assert cleared[..last - 1] == before[..last - 1];
  }

  /**
   * A break typed at the start of block b, where a selection [start, end] begins: the blocks gain an
   * empty block at b, and the selection moves one position on, one block down, its text unchanged.
   */
  lemma {:induction false} EmptyBlockBeforeSelection(bs: seq<string>, b: nat, at: int, start: int, end: int)
    requires WellFormed(bs) && b < |bs| && at == BlockStart(bs, b)
    requires 0 <= start <= end <= Length(bs) && FindBlock(bs, start) == b
    ensures 0 <= at <= start && Length(WithEmptyBlock(bs, b)) == Length(bs) + 1
    ensures Replace(bs, at, at, "\n") == WithEmptyBlock(bs, b)
    ensures FindBlock(WithEmptyBlock(bs, b), start + 1) == FindBlock(bs, start) + 1
    ensures FindBlock(WithEmptyBlock(bs, b), end + 1) == FindBlock(bs, end) + 1
    ensures Join(WithEmptyBlock(bs, b))[start + 1..end + 1] == Join(bs)[start..end]
  {
    FindBlockAfterEmpty(bs, b, start);
    FindBlockAfterEmpty(bs, b, end);
    TextAfterEmptyBlock(bs, b, at, start, end);
  }

  /** The text of the blocks with an empty block put in at b, from a position at or after the start of b on. */
  lemma {:induction false} TextAfterEmptyBlock(bs: seq<string>, b: nat, at: int, start: int, end: int)
    requires WellFormed(bs) && b < |bs| && at == BlockStart(bs, b) && at <= start <= end <= Length(bs)
    ensures Replace(bs, at, at, "\n") == WithEmptyBlock(bs, b)
    ensures |Join(WithEmptyBlock(bs, b))| == |Join(bs)| + 1
    ensures Join(WithEmptyBlock(bs, b))[start + 1..end + 1] == Join(bs)[start..end]
  {
    BreakAtBlockStart(bs, b, '\n', at);
    JoinOfReplace(bs, at, at, "\n");
    SliceAfterInsert(Join(bs), at, Normalize("\n"), start, end);
  }

  /**
   * A break typed at the start of the block after block e, where a selection [start, end] ends: the
   * blocks gain an empty block at e + 1, and the selection stays where it was, its text unchanged.
   */
  lemma {:induction false} EmptyBlockAfterSelection(bs: seq<string>, e: nat, at: int, start: int, end: int)
    requires WellFormed(bs) && e + 1 < |bs| && at == BlockStart(bs, e + 1)
    requires 0 <= start <= end <= Length(bs) && FindBlock(bs, end) == e
    ensures end < at <= Length(bs) && Length(WithEmptyBlock(bs, e + 1)) == Length(bs) + 1
    ensures Replace(bs, at, at, "\n") == WithEmptyBlock(bs, e + 1)
    ensures FindBlock(WithEmptyBlock(bs, e + 1), start) == FindBlock(bs, start)
    ensures FindBlock(WithEmptyBlock(bs, e + 1), end) == FindBlock(bs, end)
    ensures Join(WithEmptyBlock(bs, e + 1))[start..end] == Join(bs)[start..end]
  {
    BlockOrder(bs, e, e + 1);
    FindBlockBeforeEmpty(bs, e + 1, start);
    FindBlockBeforeEmpty(bs, e + 1, end);
    TextBeforeEmptyBlock(bs, e + 1, at, start, end);
  }

  /** The text of the blocks with an empty block put in at b, up to the start of b. */
  lemma {:induction false} TextBeforeEmptyBlock(bs: seq<string>, b: nat, at: int, start: int, end: int)
    requires WellFormed(bs) && b < |bs| && at == BlockStart(bs, b) && 0 <= start <= end <= at
    ensures at <= Length(bs)
    ensures Replace(bs, at, at, "\n") == WithEmptyBlock(bs, b)
    ensures Join(WithEmptyBlock(bs, b))[start..end] == Join(bs)[start..end]
  {
    BreakAtBlockStart(bs, b, '\n', at);
    JoinOfReplace(bs, at, at, "\n");
    SliceBeforeInsert(Join(bs), at, Normalize("\n"), start, end);
  }

  /**
   * The empty line put in after a selection [s, e] over blocks f to l, once the one before it is in:
   * the selection, its blocks and its text stay, and so does a blank block right above it.
   */
  lemma {:induction false} EmptyLineAfterBlankAround(bs: seq<string>, s: int, e: int, f: nat, l: nat, text: string)
    requires WellFormed(bs) && 0 <= s <= e <= Length(bs)
    requires FindBlock(bs, s) == f && FindBlock(bs, e) == l && Join(bs)[s..e] == text
    requires f == 0 || IsBlank(bs[f - 1])
    ensures var r := EmptyLineAfter(bs, l);
      && WellFormed(r) && e <= Length(r)
      && FindBlock(r, s) == f && FindBlock(r, e) == l && Join(r)[s..e] == text
      && (f == 0 || IsBlank(r[f - 1]))
      && (l + 1 == |r| || IsBlank(r[l + 1]))
  {
    FindBlockMonotonic(bs, s, e);
    EmptyLineAfterKeepsSelection(bs, s, e);
    EmptyLineAfterProperties(bs, l);
    var r := EmptyLineAfter(bs, l);
    if f > 0 {
      assert r[f - 1] == r[..l + 1][f - 1];
    }
  }

  /** The empty line ensureEmptyLines puts in before a selection [start, end] moves it on by d and keeps its text and blocks. */
  lemma {:induction false} EmptyLineBeforeKeepsSelection(bs: seq<string>, start: int, end: int)
    requires WellFormed(bs) && 0 <= start <= end <= Length(bs)
    ensures var b := FindBlock(bs, start);
      var r, d := EmptyLineBefore(bs, b), AddedBefore(bs, b);
      && WellFormed(r) && end + d <= Length(r)
      && FindBlock(r, start + d) == b + d && FindBlock(r, end + d) == FindBlock(bs, end) + d
      && Join(r)[start + d..end + d] == Join(bs)[start..end]
  {
    var b := FindBlock(bs, start);
    if b > 0 && !IsBlank(bs[b - 1]) {
      EmptyLineAddedBefore(bs, start, end);
    }
  }

  /** EmptyLineBeforeKeepsSelection when the block above the selection is not blank and an empty line goes in. */
  lemma {:induction false} EmptyLineAddedBefore(bs: seq<string>, start: int, end: int)
    requires WellFormed(bs) && 0 <= start <= end <= Length(bs)
    requires var b := FindBlock(bs, start); b > 0 && !IsBlank(bs[b - 1])
    ensures var b := FindBlock(bs, start);
      var r, d := EmptyLineBefore(bs, b), AddedBefore(bs, b);
      && WellFormed(r) && end + d <= Length(r)
      && FindBlock(r, start + d) == b + d && FindBlock(r, end + d) == FindBlock(bs, end) + d
      && Join(r)[start + d..end + d] == Join(bs)[start..end]
  {
    var b := FindBlock(bs, start);
    EmptyBlockBeforeSelection(bs, b, BlockStart(bs, b), start, end);
  }

  /** The empty line ensureEmptyLines puts in after a selection [start, end] leaves it where it was, on the same text and blocks. */
  lemma {:induction false} EmptyLineAfterKeepsSelection(bs: seq<string>, start: int, end: int)
    requires WellFormed(bs) && 0 <= start <= end <= Length(bs)
    ensures var e := FindBlock(bs, end);
      var r := EmptyLineAfter(bs, e);
      && WellFormed(r) && end <= Length(r)
      && FindBlock(r, start) == FindBlock(bs, start) && FindBlock(r, end) == e
      && Join(r)[start..end] == Join(bs)[start..end]
  {
    var e := FindBlock(bs, end);
    if e + 1 < |bs| && !IsBlank(bs[e + 1]) {
      EmptyLineAddedAfter(bs, start, end);
    }
  }

  /** EmptyLineAfterKeepsSelection when the block below the selection is not blank and an empty line goes in. */
  lemma {:induction false} EmptyLineAddedAfter(bs: seq<string>, start: int, end: int)
    requires WellFormed(bs) && 0 <= start <= end <= Length(bs)
    requires var e := FindBlock(bs, end); e + 1 < |bs| && !IsBlank(bs[e + 1])
    ensures var e := FindBlock(bs, end);
      var r := EmptyLineAfter(bs, e);
      && WellFormed(r) && end <= Length(r)
      && FindBlock(r, start) == FindBlock(bs, start) && FindBlock(r, end) == e
      && Join(r)[start..end] == Join(bs)[start..end]
  {
    var e := FindBlock(bs, end);
    EmptyBlockAfterSelection(bs, e, BlockStart(bs, e + 1), start, end);
  }

  class EditManipulator {
    var blocks: seq<string>
    var position: int
    var anchor: int
    var indentSize: int

    ghost predicate Valid()
      reads this
    {
      WellFormed(blocks) && 0 <= position <= Length(blocks) && 0 <= anchor <= Length(blocks) && indentSize >= 1
    }

    /** An editor over the given text, the cursor at its start, the indent size 4. */
    constructor(text: string)
      ensures Valid() && blocks == Lines(text) && position == 0 && anchor == 0 && indentSize == 4
    {
      blocks := Lines(text);
      LinesWellFormed(text);
      position := 0;
      anchor := 0;
      indentSize := 4;
    }

    /** The document text, U+2029 between blocks. */
    function Text(): string
      reads this
      requires Valid()
    {
      Join(blocks)
    }

    function SelectionStart(): int
      reads this
    {
      Min(position, anchor)
    }

    function SelectionEnd(): int
      reads this
    {
      Max(position, anchor)
    }

    predicate HasSelection()
      reads this
    {
      position != anchor
    }

    /** QTextCursor::selectedText. */
    function SelectedText(): string
      reads this
      requires Valid()
    {
      Text()[SelectionStart()..SelectionEnd()]
    }

    /** QTextCursor::blockNumber. */
    function CursorBlock(): nat
      reads this
      requires Valid()
    {
      FindBlock(blocks, position)
    }

    /** QTextCursor::positionInBlock. */
    function CursorColumn(): nat
      reads this
      requires Valid()
    {
      Column(blocks, position)
    }

    function FirstSelected(): nat
      reads this
      requires Valid()
    {
      FindBlock(blocks, SelectionStart())
    }

    function LastSelected(): nat
      reads this
      requires Valid()
    {
      FindBlock(blocks, SelectionEnd())
    }

    /** The block the anchor is in. */
    function AnchorBlock(): nat
      reads this
      requires Valid()
    {
      FindBlock(blocks, anchor)
    }

    /** The anchor's column in its block. */
    function AnchorColumn(): nat
      reads this
      requires Valid()
    {
      Column(blocks, anchor)
    }

    /** removeText: [from, to) deleted through a cursor of its own. */
    method RemoveText(from: int, to: int)
      requires Valid() && 0 <= from <= to <= Length(blocks)
      modifies this
      ensures Valid() && indentSize == old(indentSize)
      ensures blocks == Replace(old(blocks), from, to, "")
      ensures position == AfterRemoval(old(position), from, to)
      ensures anchor == AfterRemoval(old(anchor), from, to)
    {
      blocks := Replace(blocks, from, to, "");
      position := AfterRemoval(position, from, to);
      anchor := AfterRemoval(anchor, from, to);
    }

    /** insertText: text inserted at a position through a cursor of its own. */
    method InsertText(at: int, text: string)
      requires Valid() && 0 <= at <= Length(blocks)
      modifies this
      ensures Valid() && indentSize == old(indentSize)
      ensures blocks == Replace(old(blocks), at, at, text)
      ensures position == PositionAfterInsert(old(position), old(anchor), at, |text|)
      ensures anchor == AnchorAfterInsert(old(anchor), at, |text|)
    {
      blocks := Replace(blocks, at, at, text);
      position := PositionAfterInsert(position, anchor, at, |text|);
      anchor := AnchorAfterInsert(anchor, at, |text|);
    }

    /** QTextCursor::insertText on the editor's cursor: the selection is replaced and the cursor ends after the text. */
    method CursorInsertText(text: string)
      requires Valid()
      modifies this
      ensures Valid() && indentSize == old(indentSize)
      ensures blocks == Replace(old(blocks), old(SelectionStart()), old(SelectionEnd()), text)
      ensures position == anchor == old(SelectionStart()) + |text|
    {
      var start := SelectionStart();
      blocks := Replace(blocks, start, SelectionEnd(), text);
      position := start + |text|;
      anchor := position;
    }

    /** getLineIndentation: counts the leading spaces. */
    static method GetLineIndentation(text: string) returns (indentation: int)
      ensures indentation == Indentation(text)
    {
      indentation := 0;
      var i := 0;
      while i < |text|
        invariant 0 <= i <= |text| && indentation == i
        invariant forall k :: 0 <= k < i ==> text[k] == ' '
      {
        if text[i] == ' ' {
          indentation := indentation + 1;
        } else {
          break;
        }
        i := i + 1;
      }
      IndentationIs(text, indentation);
    }

    /** The numbers of the blocks from the one holding from to the one holding to. */
    method GetSelectedBlocks(from: int, to: int) returns (numbers: seq<nat>)
      requires Valid() && 0 <= from <= to <= Length(blocks)
      ensures |numbers| == FindBlock(blocks, to) - FindBlock(blocks, from) + 1
      ensures forall k :: 0 <= k < |numbers| ==> numbers[k] == FindBlock(blocks, from) + k
      ensures forall b: nat :: b in numbers <==>
        b < |blocks| && BlockStart(blocks, b) <= to && from <= BlockStart(blocks, b) + |blocks[b]|
    {
      var first := FindBlock(blocks, from);
      var last := FindBlock(blocks, to);
      FindBlockMonotonic(blocks, from, to);
      numbers := [];
      var i := first;
      while i <= last
        invariant first <= i <= last + 1
        invariant |numbers| == i - first
        invariant forall k :: 0 <= k < |numbers| ==> numbers[k] == first + k
      {
        numbers := numbers + [i];
        i := i + 1;
      }
      forall b: nat
        ensures b in numbers <==> b < |blocks| && BlockStart(blocks, b) <= to && from <= BlockStart(blocks, b) + |blocks[b]|
      {
        if b < |blocks| {
          SelectedBlocksTouch(blocks, from, to, b);
        }
        if first <= b <= last {
          assert numbers[b - first] == b;
        }
      }
    }

    /**
     * indent(numChars): with a selection, numChars spaces go in front of every block the
     * selection touches; without one, spaces up to the next multiple of numChars go in at the cursor.
     */
    method Indent(numChars: int)
      requires Valid() && numChars >= 1
      modifies this
      ensures Valid() && indentSize == old(indentSize)
      ensures old(HasSelection()) ==>
        && blocks == IndentedBlocks(old(blocks), old(FirstSelected()), old(LastSelected()), numChars)
        && CursorBlock() == old(CursorBlock()) && AnchorBlock() == old(AnchorBlock())
        && CursorColumn() == ColumnAfterBlockIndent(old(CursorColumn()), numChars, old(anchor < position))
        && AnchorColumn() == old(AnchorColumn()) + numChars
      ensures !old(HasSelection()) ==>
        var b, c := old(CursorBlock()), old(CursorColumn());
        var k := IndentWidth(c, numChars);
        && blocks == old(blocks)[b := old(blocks)[b][..c] + Spaces(k) + old(blocks)[b][c..]]
        && position == anchor == old(position) + k
        && CursorBlock() == b && CursorColumn() == c + k
    {
      if HasSelection() {
        IndentSelection(numChars);
      } else {
        IndentAtCursor(numChars);
      }
    }

    /**
     * The selection branch of indent: numChars spaces in front of every touched block. The
     * cursor's ends keep their blocks and move on past the spaces, except a position at the
     * start of its block with the anchor before it, which stays in front of them.
     */
    method IndentSelection(numChars: int)
      requires Valid() && numChars >= 1
      modifies this
      ensures Valid() && indentSize == old(indentSize)
      ensures blocks == IndentedBlocks(old(blocks), old(FirstSelected()), old(LastSelected()), numChars)
      ensures CursorBlock() == old(CursorBlock()) && AnchorBlock() == old(AnchorBlock())
      ensures CursorColumn() == ColumnAfterBlockIndent(old(CursorColumn()), numChars, old(anchor < position))
      ensures AnchorColumn() == old(AnchorColumn()) + numChars
    {
      var selected := GetSelectedBlocks(SelectionStart(), SelectionEnd());
      ghost var start := DocCursor(blocks, position, anchor);
      ghost var first, last := FirstSelected(), LastSelected();
      IndentBlocks(selected, Spaces(numChars), start, first);
      IndentSelectionOutcome(start, first, last, |selected|, numChars);
    }

    /** Indent's selection loop: indentation goes in at the start of each of the given blocks in turn. */
    method IndentBlocks(selected: seq<nat>, indentation: string, ghost start: DocCursor, ghost first: nat)
      requires Valid() && DocCursor(blocks, position, anchor) == start && SeparatorFree(indentation)
      requires first + |selected| <= |blocks| && forall k :: 0 <= k < |selected| ==> selected[k] == first + k
      modifies this
      ensures Valid() && indentSize == old(indentSize)
      ensures DocCursor(blocks, position, anchor) == IndentPasses(start, first, |selected|, indentation)
    {
      var i := 0;
      while i < |selected|
        invariant 0 <= i <= |selected|
        invariant Valid() && indentSize == old(indentSize)
        invariant DocCursor(blocks, position, anchor) == IndentPasses(start, first, i, indentation)
      {
        IndentBlock(selected[i], indentation, start, first, i);
        i := i + 1;
      }
    }

    /** One pass of indent's selection loop: indentation goes in at the start of block b. */
    method IndentBlock(b: nat, indentation: string, ghost start: DocCursor, ghost first: nat, ghost i: nat)
      requires Valid() && b == first + i < |blocks| == |start.blocks| && SeparatorFree(indentation)
      requires DocCursor(blocks, position, anchor) == IndentPasses(start, first, i, indentation)
      modifies this
      ensures Valid() && indentSize == old(indentSize)
      ensures DocCursor(blocks, position, anchor) == IndentPasses(start, first, i + 1, indentation)
    {
      InsertAtBlockStart(blocks, b, indentation, BlockStart(blocks, b));
      InsertText(BlockStart(blocks, b), indentation);
    }

    /** One pass of unindent's selection loop: block b loses its removable indentation. */
    method UnindentBlock(b: nat, numChars: int, ghost start: DocCursor, ghost first: nat, ghost i: nat, ghost ks: seq<nat>)
      requires Valid() && b == first + i < |blocks| == |start.blocks| && AmountsFit(start.blocks, ks)
      requires ks[b] == RemovedIndent(start.blocks[b], numChars)
      requires DocCursor(blocks, position, anchor) == UnindentPasses(start, first, i, ks)
      modifies this
      ensures Valid() && indentSize == old(indentSize)
      ensures DocCursor(blocks, position, anchor) == UnindentPasses(start, first, i + 1, ks)
    {
      assert blocks[b] == start.blocks[b];
      var numCharsToRemove := LeadingSpacesToRemove(blocks[b], numChars);
      if numCharsToRemove > 0 {
        RemoveAtBlockStart(blocks, b, numCharsToRemove, BlockStart(blocks, b), BlockStart(blocks, b) + numCharsToRemove);
        RemoveText(BlockStart(blocks, b), BlockStart(blocks, b) + numCharsToRemove);
      } else {
        assert blocks[b := blocks[b][0..]] == blocks;
      }
    }

    /** The cursor branch of indent: spaces up to the next multiple of numChars. */
    method IndentAtCursor(numChars: int)
      requires Valid() && numChars >= 1 && !HasSelection()
      modifies this
      ensures Valid() && indentSize == old(indentSize)
      ensures var b, c := old(CursorBlock()), old(CursorColumn());
        var k := IndentWidth(c, numChars);
        && blocks == old(blocks)[b := old(blocks)[b][..c] + Spaces(k) + old(blocks)[b][c..]]
        && position == anchor == old(position) + k
        && CursorBlock() == b && CursorColumn() == c + k
    {
      var b := CursorBlock();
      var pos := CursorColumn();
      var numSpaces := CeilDiv(pos, numChars) * numChars - pos;
      ghost var k := IndentWidth(pos, numChars);
      ghost var before := blocks;
      ghost var at := position;
      CursorInsertText(Spaces(if 0 == numSpaces then numChars else numSpaces));
      ReplaceInBlock(before, b, pos, pos, Spaces(k), at, at);
      CursorMovedInBlock(before, blocks, b, pos, k);
    }

    /**
     * unindent(numChars): with a selection, up to numChars leading spaces leave every block the
     * selection touches; without one, the spaces just before the cursor back to the previous
     * multiple of numChars go.
     */
    method Unindent(numChars: int)
      requires Valid()
      modifies this
      ensures Valid() && indentSize == old(indentSize)
      ensures old(HasSelection()) ==>
        && blocks == UnindentedBlocks(old(blocks), old(FirstSelected()), old(LastSelected()), numChars)
        && CursorBlock() == old(CursorBlock()) && AnchorBlock() == old(AnchorBlock())
        && CursorColumn() == ColumnAfterBlockUnindent(old(CursorColumn()), RemovedIndent(old(blocks)[old(CursorBlock())], numChars))
        && AnchorColumn() == ColumnAfterBlockUnindent(old(AnchorColumn()), RemovedIndent(old(blocks)[old(AnchorBlock())], numChars))
      ensures !old(HasSelection()) ==>
        var b, c := old(CursorBlock()), old(CursorColumn());
        var k := CursorUnindent(old(blocks)[b], c, numChars);
        && blocks == old(blocks)[b := old(blocks)[b][..c - k] + old(blocks)[b][c..]]
        && position == anchor == old(position) - k
    {
      if HasSelection() {
        UnindentSelection(numChars);
      } else {
        UnindentAtCursor(numChars);
      }
    }

    /**
     * The selection branch of unindent. The cursor's ends keep their blocks; one inside the
     * removed spaces goes to the start of its block, one after them moves back by their number.
     */
    method UnindentSelection(numChars: int)
      requires Valid()
      modifies this
      ensures Valid() && indentSize == old(indentSize)
      ensures blocks == UnindentedBlocks(old(blocks), old(FirstSelected()), old(LastSelected()), numChars)
      ensures CursorBlock() == old(CursorBlock()) && AnchorBlock() == old(AnchorBlock())
      ensures CursorColumn() == ColumnAfterBlockUnindent(old(CursorColumn()), RemovedIndent(old(blocks)[old(CursorBlock())], numChars))
      ensures AnchorColumn() == ColumnAfterBlockUnindent(old(AnchorColumn()), RemovedIndent(old(blocks)[old(AnchorBlock())], numChars))
    {
      var selected := GetSelectedBlocks(SelectionStart(), SelectionEnd());
      ghost var start := DocCursor(blocks, position, anchor);
      ghost var first, last := FirstSelected(), LastSelected();
      ghost var ks := RemovedIndents(start.blocks, numChars);
      UnindentBlocks(selected, numChars, start, first, ks);
      UnindentSelectionOutcome(start, first, last, |selected|, numChars);
    }

    /** Unindent's selection loop: each of the given blocks in turn loses its removable indentation. */
    method UnindentBlocks(selected: seq<nat>, numChars: int, ghost start: DocCursor, ghost first: nat, ghost ks: seq<nat>)
      requires Valid() && DocCursor(blocks, position, anchor) == start && AmountsFit(start.blocks, ks)
      requires first + |selected| <= |blocks| && forall k :: 0 <= k < |selected| ==> selected[k] == first + k
      requires forall k :: 0 <= k < |selected| ==> ks[selected[k]] == RemovedIndent(start.blocks[selected[k]], numChars)
      modifies this
      ensures Valid() && indentSize == old(indentSize)
      ensures DocCursor(blocks, position, anchor) == UnindentPasses(start, first, |selected|, ks)
    {
      var i := 0;
      while i < |selected|
        invariant 0 <= i <= |selected|
        invariant Valid() && indentSize == old(indentSize)
        invariant DocCursor(blocks, position, anchor) == UnindentPasses(start, first, i, ks)
      {
        UnindentBlock(selected[i], numChars, start, first, i, ks);
        i := i + 1;
      }
    }

    /** The inner loop of unindent's selection branch: the leading spaces among the first numChars characters. */
    static method LeadingSpacesToRemove(text: string, numChars: int) returns (numCharsToRemove: int)
      ensures (if numCharsToRemove > 0 then numCharsToRemove else 0) == RemovedIndent(text, numChars)
      ensures numCharsToRemove > 0 ==> numCharsToRemove <= |text|
    {
      numCharsToRemove := numChars;
      var j := 0;
      // A QString read past its end yields '\0', which ends the run of spaces.
      while j < numChars
        invariant 0 <= j <= |text| && j <= Max(numChars, 0)
        invariant forall k :: 0 <= k < j ==> text[k] == ' '
        invariant numCharsToRemove == numChars
      {
        if j >= |text| || text[j] != ' ' {
          numCharsToRemove := j;
          IndentationIs(text, j);
          return;
        }
        j := j + 1;
      }
      if numChars > 0 {
        IndentationAtLeast(text, numChars);
      }
    }

    /** The cursor branch of unindent, with the stop distance taken from numChars. */
    method UnindentAtCursor(numChars: int)
      requires Valid() && !HasSelection()
      modifies this
      ensures Valid() && indentSize == old(indentSize)
      ensures var b, c := old(CursorBlock()), old(CursorColumn());
        var k := CursorUnindent(old(blocks)[b], c, numChars);
        && blocks == old(blocks)[b := old(blocks)[b][..c - k] + old(blocks)[b][c..]]
        && position == anchor == old(position) - k
    {
      var b := CursorBlock();
      var pos := CursorColumn();
      BlockInside(blocks, b);
      var numBackspaces := CursorBackspaces(blocks[b], pos, numChars);
      if numBackspaces > 0 {
        var start := BlockStart(blocks, b);
        var c1 := pos - numBackspaces;
        var from, to := start + c1, start + pos;
        ghost var before := blocks;
        RemoveText(from, to);
        RemoveInBlock(before, b, c1, pos, from, to);
      } else {
        assert blocks[b][..pos] + blocks[b][pos..] == blocks[b];
      }
    }

    /** How many spaces before column pos unindent's cursor branch deletes. */
    static method CursorBackspaces(text: string, pos: nat, numChars: int) returns (numBackspaces: int)
      requires pos <= |text|
      ensures numBackspaces == CursorUnindent(text, pos, numChars)
    {
      numBackspaces := 0;
      if numChars >= 1 {
        numBackspaces := pos - pos / numChars * numChars;
        if 0 == numBackspaces && pos > 0 {
          numBackspaces := numChars;
        }
        numBackspaces := BackspacesBefore(text, pos, numBackspaces);
        TrailingSpacesIs(text[..pos], numBackspaces, StopDistance(pos, numChars));
      }
    }

    /** The inner loop of unindent's cursor branch: the spaces just before pos, at most limit of them. */
    static method BackspacesBefore(text: string, pos: nat, limit: int) returns (numBackspaces: int)
      requires pos <= |text| && limit <= pos
      ensures 0 <= numBackspaces <= Max(limit, 0)
      ensures forall k :: pos - numBackspaces <= k < pos ==> text[k] == ' '
      ensures numBackspaces < limit ==> text[pos - 1 - numBackspaces] != ' '
    {
      numBackspaces := Max(limit, 0);
      var i := 1;
      while i <= limit
        invariant 1 <= i <= Max(limit, 0) + 1
        invariant numBackspaces == Max(limit, 0)
        invariant forall k :: pos - (i - 1) <= k < pos ==> text[k] == ' '
      {
        if text[pos - i] != ' ' {
          numBackspaces := i - 1;
          return;
        }
        i := i + 1;
      }
    }

    /** trimTrailingWhitespace: the trailing spaces of every block are removed, block by block. */
    method TrimTrailingWhitespace()
      requires Valid()
      modifies this
      ensures Valid() && indentSize == old(indentSize)
      ensures blocks == TrimmedBlocks(old(blocks))
    {
      ghost var orig := blocks;
      var i := 0;
      while i < |blocks|
        invariant 0 <= i <= |blocks| && |blocks| == |orig|
        invariant Valid() && indentSize == old(indentSize)
        invariant blocks == TrimmedUpTo(orig, i)
      {
        TrimmedUpToSteps(orig, i);
        var text := blocks[i];
        var numTrailingSpaces := CountTrailingSpaces(text);
        var keep := |text| - numTrailingSpaces;
        if numTrailingSpaces > 0 {
          var start := BlockStart(blocks, i);
          var from, to := start + keep, start + |text|;
          BlockInside(blocks, i);
          ghost var before := blocks;
          RemoveText(from, to);
          RemoveInBlock(before, i, keep, |text|, from, to);
          assert text[..keep] + text[|text|..] == text[..keep];
        } else {
          assert text[..keep] == text;
        }
        i := i + 1;
      }
      TrimmedUpToSteps(orig, 0);
    }

    /** The inner loop of trimTrailingWhitespace: spaces counted back from the end of the line. */
    static method CountTrailingSpaces(text: string) returns (numTrailingSpaces: int)
      ensures numTrailingSpaces == TrailingSpaces(text)
    {
      numTrailingSpaces := 0;
      var j := |text| - 1;
      while j >= 0
        invariant -1 <= j < |text| && numTrailingSpaces == |text| - 1 - j
        invariant forall k :: j < k < |text| ==> text[k] == ' '
      {
        if text[j] == ' ' {
          numTrailingSpaces := numTrailingSpaces + 1;
        } else {
          break;
        }
        j := j - 1;
      }
      TrailingSpacesIs(text, numTrailingSpaces, if numTrailingSpaces == |text| then |text| else numTrailingSpaces + 1);
    }

    /**
     * ensureSingleBlankLineAtEnd: the blank blocks at the end are emptied and merged into one,
     * or an empty block is added when the last block is not blank.
     */
    method EnsureSingleBlankLineAtEnd()
      requires Valid()
      modifies this
      ensures Valid() && indentSize == old(indentSize)
      ensures blocks == SingleBlankLineAtEnd(old(blocks))
    {
      ghost var orig := blocks;
      var numEmptyLinesAtEnd := CountBlankLinesAtEnd(blocks);
      ghost var kept := orig[..|orig| - numEmptyLinesAtEnd];
      if numEmptyLinesAtEnd >= 1 {
        var i := numEmptyLinesAtEnd;
        while i > 0
          invariant 0 <= i <= numEmptyLinesAtEnd
          invariant Valid() && indentSize == old(indentSize)
          invariant i >= 1 ==> blocks == orig[..|kept| + i]
          invariant i == 0 ==> blocks == kept + [""]
        {
          ghost var before := blocks;
          ClearLastBlock(i > 1);
          if i == 1 {
            ClearedLast(before, kept);
          }
          i := i - 1;
        }
      } else {
        var last := |blocks| - 1;
        var at := BlockStart(blocks, last) + |blocks[last]|;
        LastBlockEnd(blocks);
        ghost var before := blocks;
        InsertText(at, "\n");
        BreakAtEnd(before, '\n', at);
      }
    }

    /** One step of ensureSingleBlankLineAtEnd: the last line emptied and, if asked, the break before it deleted. */
    method ClearLastBlock(deletePrevious: bool)
      requires Valid() && (deletePrevious ==> |blocks| >= 2)
      modifies this
      ensures Valid() && indentSize == old(indentSize)
      ensures blocks == if deletePrevious then old(blocks)[..|old(blocks)| - 1] else old(blocks)[|old(blocks)| - 1 := ""]
    {
      var last := |blocks| - 1;
      var start := BlockStart(blocks, last);
      var end := start + |blocks[last]|;
      LastBlockEnd(blocks);
      ghost var before := blocks;
      RemoveText(start, end);
      RemoveAtBlockStart(before, last, |before[last]|, start, end);
      assert before[last][|before[last]|..] == "";
      if deletePrevious {
        ghost var cleared := blocks;
        BlockStartOfEdited(before, last, "", last);
        RemoveText(start - 1, start);
        RemoveBreak(cleared, last, start - 1, start);
        MergedLast(before);
      }
    }

    /** The scan of ensureSingleBlankLineAtEnd: blank blocks counted back from the end. */
    static method CountBlankLinesAtEnd(bs: seq<string>) returns (numEmptyLinesAtEnd: int)
      ensures numEmptyLinesAtEnd == BlankTail(bs)
    {
      numEmptyLinesAtEnd := 0;
      var i := |bs| - 1;
      while i >= 0
        invariant -1 <= i < |bs| && numEmptyLinesAtEnd == |bs| - 1 - i
        invariant forall k :: i < k < |bs| ==> IsBlank(bs[k])
      {
        if IsBlank(bs[i]) {
          numEmptyLinesAtEnd := numEmptyLinesAtEnd + 1;
        } else {
          break;
        }
        i := i - 1;
      }
      BlankTailIs(bs, numEmptyLinesAtEnd);
    }

    /**
     * insertAndSelectText: the text replaces the selection, then the selection runs from
     * selectionOffsetLeft characters into the text to selectionOffsetRight characters before its end.
     */
    method InsertAndSelectText(text: string, selectionOffsetLeft: int, selectionOffsetRight: int)
      requires Valid()
      modifies this
      ensures Valid() && indentSize == old(indentSize)
      ensures blocks == Replace(old(blocks), old(SelectionStart()), old(SelectionEnd()), text)
      ensures anchor == SetPosition(old(SelectionStart()) + |text| - selectionOffsetRight, Length(blocks), 0)
      ensures position == SetPosition(old(SelectionStart()) + selectionOffsetLeft, Length(blocks), anchor)
      ensures 0 <= selectionOffsetLeft && 0 <= selectionOffsetRight && selectionOffsetLeft + selectionOffsetRight <= |text| ==>
        && position == SelectionStart() == old(SelectionStart()) + selectionOffsetLeft
        && anchor == SelectionEnd() == old(SelectionStart()) + |text| - selectionOffsetRight
        && SelectedText() == Normalize(text)[selectionOffsetLeft..|text| - selectionOffsetRight]
    {
      var start := SelectionStart();
      ghost var end, before := SelectionEnd(), blocks;
      CursorInsertText(text);
      var selectionAnchor := SetPosition(position - selectionOffsetRight, Length(blocks), 0);
      anchor := selectionAnchor;
      position := SetPosition(start + selectionOffsetLeft, Length(blocks), selectionAnchor);
      if 0 <= selectionOffsetLeft && 0 <= selectionOffsetRight && selectionOffsetLeft + selectionOffsetRight <= |text| {
        JoinOfReplace(before, start, end, text);
        var j := Join(before);
        SliceOfMiddle(j[..start], Normalize(text), j[end..], selectionOffsetLeft, |text| - selectionOffsetRight);
      }
    }

    /**
     * formatSelection: the format with its "%1" markers replaced by the selected text (or by the
     * default text when nothing is selected) replaces the selection; with one marker the argument
     * ends up selected, with none the whole inserted text.
     */
    method FormatSelection(format: string, defaultText: string)
      requires Valid()
      modifies this
      ensures Valid() && indentSize == old(indentSize)
      ensures var arg := if old(SelectedText()) != [] then old(SelectedText()) else defaultText;
        var k := IndexOfMarker(format);
        var left, right := if k >= 0 then k else 0, if k >= 0 then |format| - k - 2 else 0;
        && blocks == Replace(old(blocks), old(SelectionStart()), old(SelectionEnd()), Arg(format, arg))
        && anchor == SetPosition(old(SelectionStart()) + |Arg(format, arg)| - right, Length(blocks), 0)
        && position == SetPosition(old(SelectionStart()) + left, Length(blocks), anchor)
        && (SingleMarker(format) ==> SelectionStart() == old(SelectionStart()) + k && SelectedText() == Normalize(arg))
        && (k == -1 ==> SelectionStart() == old(SelectionStart()) && SelectedText() == Normalize(format))
    {
      var selectedText := SelectedText();
      var selectionOffsetLeft, selectionOffsetRight := 0, 0;
      var placeholderOffset := IndexOfMarker(format);
      if placeholderOffset >= 0 {
        selectionOffsetLeft := placeholderOffset;
        selectionOffsetRight := |format| - placeholderOffset - 2;
      }
      var arg := if selectedText != [] then selectedText else defaultText;
      var text := Arg(format, arg);
      if SingleMarker(format) {
        NormalizedArgSlice(format, arg);
      } else if placeholderOffset == -1 {
        ArgWithoutMarker(format, arg);
        assert Normalize(text)[0..|text|] == Normalize(format);
      }
      InsertAndSelectText(text, selectionOffsetLeft, selectionOffsetRight);
    }

    /**
     * formatSelectionAsHeading: the selected text (or "Heading") becomes a title set off by empty
     * lines, underlined (and overlined) with the symbol repeated once per character, and selected.
     */
    method FormatSelectionAsHeading(symbol: string, overline: bool)
      requires Valid()
      modifies this
      ensures Valid() && indentSize == old(indentSize)
      ensures var text := if old(HasSelection()) then old(SelectedText()) else "Heading";
        var spaced := EmptyLines(old(blocks), old(SelectionStart()), old(SelectionEnd()), true, true);
        var d := AddedBefore(old(blocks), old(FirstSelected()));
        && old(SelectionEnd()) + d <= Length(spaced)
        && blocks == Replace(spaced, old(SelectionStart()) + d, old(SelectionEnd()) + d, HeadingText(text, symbol, overline))
        && SelectedText() == text
        && position == SelectionStart()
    {
      var text := if HasSelection() then SelectedText() else "Heading";
      assert forall i :: 0 <= i < |text| ==> text[i] != '\n' by {
        JoinHasNoLineFeed(blocks);
      }
      InsertHeading(text, symbol, overline);
    }

    /** formatSelectionAsHeading once the title is known. */
    method InsertHeading(text: string, symbol: string, overline: bool)
      requires Valid() && forall i :: 0 <= i < |text| ==> text[i] != '\n'
      modifies this
      ensures Valid() && indentSize == old(indentSize)
      ensures old(SelectionEnd()) + AddedBefore(old(blocks), old(FirstSelected()))
                <= Length(EmptyLines(old(blocks), old(SelectionStart()), old(SelectionEnd()), true, true))
      ensures blocks == Replace(EmptyLines(old(blocks), old(SelectionStart()), old(SelectionEnd()), true, true),
                                old(SelectionStart()) + AddedBefore(old(blocks), old(FirstSelected())),
                                old(SelectionEnd()) + AddedBefore(old(blocks), old(FirstSelected())),
                                HeadingText(text, symbol, overline))
      ensures SelectedText() == text && position == SelectionStart()
    {
      EnsureEmptyLines(true, true);
      PutHeading(text, symbol, overline,
                 EmptyLines(old(blocks), old(SelectionStart()), old(SelectionEnd()), true, true),
                 old(SelectionStart()) + AddedBefore(old(blocks), old(FirstSelected())),
                 old(SelectionEnd()) + AddedBefore(old(blocks), old(FirstSelected())));
    }

    /** The heading text in place of the selection, the title selected. */
    method PutHeading(text: string, symbol: string, overline: bool, ghost spaced: seq<string>, ghost start: int, ghost end: int)
      requires Valid() && forall i :: 0 <= i < |text| ==> text[i] != '\n'
      requires blocks == spaced && SelectionStart() == start && SelectionEnd() == end
      modifies this
      ensures Valid() && indentSize == old(indentSize)
      ensures WellFormed(spaced) && 0 <= start <= end <= Length(spaced)
      ensures blocks == Replace(spaced, start, end, HeadingText(text, symbol, overline))
      ensures SelectedText() == text && position == SelectionStart()
    {
      var line := Repeat(symbol, |text|);
      var toInsert := HeadingText(text, symbol, overline);
      var left, right := if overline then |line| + 1 else 0, |line| + 1;
      HeadingSelectsTitle(text, symbol, overline, left, right);
      InsertAndSelectText(toInsert, left, right);
    }

    /** ensureEmptyLines: an empty line before and/or after the selection unless one is there already. */
    method EnsureEmptyLines(before: bool, after: bool)
      requires Valid()
      modifies this
      ensures Valid() && indentSize == old(indentSize)
      ensures blocks == EmptyLines(old(blocks), old(SelectionStart()), old(SelectionEnd()), before, after)
      ensures var d := if before then AddedBefore(old(blocks), old(FirstSelected())) else 0;
        position == old(position) + d && anchor == old(anchor) + d
    {
      if before && after {
        EnsureEmptyLinesAround();
      } else if before {
        EnsureEmptyLineBefore();
      } else if after {
        EnsureEmptyLineAfter();
      }
    }

    /** ensureEmptyLines(true, true): the empty line before the selection goes in first, then the one after it. */
    method EnsureEmptyLinesAround()
      requires Valid()
      modifies this
      ensures Valid() && indentSize == old(indentSize)
      ensures blocks == EmptyLines(old(blocks), old(SelectionStart()), old(SelectionEnd()), true, true)
      ensures var d := AddedBefore(old(blocks), old(FirstSelected()));
        position == old(position) + d && anchor == old(anchor) + d
    {
      ghost var bs, start, end := blocks, SelectionStart(), SelectionEnd();
      ghost var d := AddedBefore(bs, FindBlock(bs, start));
      EnsureEmptyLineBefore();
      assert blocks == EmptyLineBefore(bs, FindBlock(bs, start)) && SelectionEnd() == end + d;
      EnsureEmptyLineAfter();
    }

    /** ensureEmptyLines, before: a break at the start of the first selected block when the block above is not blank. */
    method EnsureEmptyLineBefore()
      requires Valid()
      modifies this
      ensures Valid() && indentSize == old(indentSize)
      ensures blocks == EmptyLineBefore(old(blocks), old(FirstSelected()))
      ensures var d := AddedBefore(old(blocks), old(FirstSelected()));
        position == old(position) + d && anchor == old(anchor) + d
    {
      var start := SelectionStart();
      var startBlock := FindBlock(blocks, start);
      if startBlock > 0 && !IsBlank(blocks[startBlock - 1]) {
        ghost var before := blocks;
        var at := BlockStart(blocks, startBlock);
        BreakAtBlockStart(before, startBlock, '\n', at);
        InsertText(at, "\n");
      }
    }

    /** ensureEmptyLines, after: a break at the start of the block after the last selected one when that block is not blank. */
    method EnsureEmptyLineAfter()
      requires Valid()
      modifies this
      ensures Valid() && indentSize == old(indentSize)
      ensures blocks == EmptyLineAfter(old(blocks), old(LastSelected()))
      ensures position == old(position) && anchor == old(anchor)
    {
      var end := SelectionEnd();
      var endBlock := FindBlock(blocks, end);
      if endBlock + 1 < |blocks| && !IsBlank(blocks[endBlock + 1]) {
        ghost var before := blocks;
        var at := BlockStart(blocks, endBlock + 1);
        BlockOrder(before, endBlock, endBlock + 1);
        BreakAtBlockStart(before, endBlock + 1, '\n', at);
        InsertText(at, "\n");
      }
    }

    /** indentText: indentSize spaces in front of every line of the text, the lines joined by U+2029. */
    method IndentText(text: string) returns (output: string)
      requires Valid()
      ensures output == Join(Padded(Split(text), Spaces(indentSize)))
      ensures Split(output) == Padded(Split(text), Spaces(indentSize))
    {
      var indentation := Spaces(indentSize);
      var lines := Split(text);
      output := "";
      var i := 0;
      while i < |lines|
        invariant 0 <= i <= |lines|
        invariant i == 0 ==> output == ""
        invariant i > 0 ==> output == Join(Padded(lines[..i], indentation))
      {
        var padded := Padded(lines[..i + 1], indentation);
        if i > 0 {
          output := output + [ParagraphSeparator];
          assert padded == Padded(lines[..i], indentation) + [indentation + lines[i]];
          JoinSnoc(Padded(lines[..i], indentation), indentation + lines[i]);
        }
        output := output + indentation + lines[i];
        i := i + 1;
      }
      assert lines[..|lines|] == lines;
      PaddedLines(text, indentSize);
    }

    /** indentNewLine: the indentation of the previous line is inserted at the cursor. */
    method IndentNewLine()
      requires Valid()
      modifies this
      ensures Valid() && indentSize == old(indentSize)
      ensures var b := old(CursorBlock());
        var k := if b > 0 then Indentation(old(blocks)[b - 1]) else 0;
        && (k > 0 ==> Text() == old(Text())[..old(SelectionStart())] + Spaces(k) + old(Text())[old(SelectionEnd())..]
                      && position == anchor == old(SelectionStart()) + k)
        && (k == 0 ==> blocks == old(blocks) && position == old(position) && anchor == old(anchor))
    {
      var currentBlockNumber := CursorBlock();
      if currentBlockNumber > 0 {
        var currentIndentSize := GetLineIndentation(blocks[currentBlockNumber - 1]);
        if currentIndentSize > 0 {
          ghost var before := blocks;
          ghost var s, e := SelectionStart(), SelectionEnd();
          CursorInsertText(Spaces(currentIndentSize));
          JoinOfReplace(before, s, e, Spaces(currentIndentSize));
          NormalizeFixed(Spaces(currentIndentSize));
        }
      }
    }

    /** jumpToStartOfLine: to the first non-space of the line, or to column 0 when already there. */
    method JumpToStartOfLine(anchored: bool)
      requires Valid()
      modifies this
      ensures Valid() && blocks == old(blocks) && indentSize == old(indentSize)
      ensures var b, c := old(CursorBlock()), old(CursorColumn());
        var indentation := Indentation(blocks[b]);
        && CursorBlock() == b
        && CursorColumn() == (if c == indentation then 0 else indentation)
        && anchor == (if anchored then old(anchor) else position)
    {
      var b := CursorBlock();
      var indentation := GetLineIndentation(blocks[b]);
      var start := BlockStart(blocks, b);
      FindBlockAt(blocks, b, 0);
      FindBlockAt(blocks, b, indentation);
      var target := if CursorColumn() == indentation then start else start + indentation;
      position := target;
      if !anchored {
        anchor := target;
      }
    }

    /** setIndentSize. */
    method SetIndentSize(size: int)
      requires Valid() && size >= 1
      modifies this
      ensures Valid() && indentSize == size
      ensures blocks == old(blocks) && position == old(position) && anchor == old(anchor)
    {
      indentSize := size;
    }

    /** gotoLine: a line number from 1 to the block count puts the cursor at that line's start. */
    method GotoLine(line: int) returns (moved: bool)
      requires Valid()
      modifies this
      ensures Valid() && blocks == old(blocks) && indentSize == old(indentSize)
      ensures moved <==> 1 <= line <= |blocks|
      ensures moved ==> position == anchor && CursorBlock() == line - 1 && CursorColumn() == 0
      ensures !moved ==> position == old(position) && anchor == old(anchor)
    {
      if line >= 1 && line <= |blocks| {
        FindBlockAt(blocks, line - 1, 0);
        position := BlockStart(blocks, line - 1);
        anchor := position;
        return true;
      } else {
        return false;
      }
    }
  }
}
