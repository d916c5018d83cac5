/**
 * The plain-text document the editor works on: a sequence of blocks (lines) and flat
 * positions that count one character for each block break, as QTextDocument does.
 */
module Document {

  const ParagraphSeparator: char := '\U{2029}'

  /** The characters QTextCursor::insertText turns into block breaks (of those modelled). */
  predicate IsSeparator(c: char)
  {
    c == '\n' || c == ParagraphSeparator
  }

  predicate SeparatorFree(s: string)
  {
    forall i :: 0 <= i < |s| ==> !IsSeparator(s[i])
  }

  /** A document has at least one block and no block holds a break. */
  predicate WellFormed(bs: seq<string>)
  {
    |bs| >= 1 && forall i :: 0 <= i < |bs| ==> SeparatorFree(bs[i])
  }

  /** The document's text with U+2029 between blocks, as QTextCursor::selectedText reports it. */
  function Join(bs: seq<string>): string
    requires |bs| >= 1
    decreases |bs|
  {
    if |bs| == 1 then bs[0] else bs[0] + [ParagraphSeparator] + Join(bs[1..])
  }

  /** The largest cursor position. */
  function Length(bs: seq<string>): nat
    requires |bs| >= 1
  {
    |Join(bs)|
  }

  /** QTextBlock::position(). */
  function BlockStart(bs: seq<string>, i: nat): nat
    requires i < |bs|
    decreases i
  {
    if i == 0 then 0 else |bs[0]| + 1 + BlockStart(bs[1..], i - 1)
  }

  /** QTextDocument::findBlock(p): the block holding position p (a block's end belongs to it). */
  function FindBlock(bs: seq<string>, p: int): (b: nat)
    requires |bs| >= 1 && 0 <= p <= Length(bs)
    ensures b < |bs| && BlockStart(bs, b) <= p <= BlockStart(bs, b) + |bs[b]|
    decreases |bs|
  {
    if |bs| == 1 || p <= |bs[0]| then 0 else 1 + FindBlock(bs[1..], p - |bs[0]| - 1)
  }

  /** QTextCursor::positionInBlock(). */
  function Column(bs: seq<string>, p: int): nat
    requires |bs| >= 1 && 0 <= p <= Length(bs)
  {
    p - BlockStart(bs, FindBlock(bs, p))
  }

  /** Every block lies inside the document. */
  lemma {:induction false} BlockInside(bs: seq<string>, b: nat)
    requires |bs| >= 1 && b < |bs|
    ensures BlockStart(bs, b) + |bs[b]| <= Length(bs)
    ensures b + 1 < |bs| ==> BlockStart(bs, b + 1) == BlockStart(bs, b) + |bs[b]| + 1
    decreases b
  {
    if b > 0 {
      BlockInside(bs[1..], b - 1);
    } else if |bs| > 1 {
      assert BlockStart(bs, 1) == |bs[0]| + 1 + BlockStart(bs[1..], 0);
    }
  }

  /** A position given by block and column is found in that block. */
  lemma {:induction false} FindBlockAt(bs: seq<string>, b: nat, c: nat)
    requires |bs| >= 1 && b < |bs| && c <= |bs[b]|
    ensures BlockStart(bs, b) + c <= Length(bs)
    ensures FindBlock(bs, BlockStart(bs, b) + c) == b
    decreases b
  {
    BlockInside(bs, b);
    if b > 0 {
      FindBlockAt(bs[1..], b - 1, c);
    }
  }

  /** Later positions lie in the same or a later block. */
  lemma {:induction false} FindBlockMonotonic(bs: seq<string>, p: int, q: int)
    requires |bs| >= 1 && 0 <= p <= q <= Length(bs)
    ensures FindBlock(bs, p) <= FindBlock(bs, q)
    decreases |bs|
  {
    if |bs| > 1 && p > |bs[0]| {
      FindBlockMonotonic(bs[1..], p - |bs[0]| - 1, q - |bs[0]| - 1);
    }
  }

  /** Inserted text cut at its breaks: the blocks it becomes. */
  function Lines(s: string): (r: seq<string>)
    ensures |r| >= 1
  {
    if s == [] then [""]
    else
      var rest := Lines(s[1..]);
      if IsSeparator(s[0]) then [""] + rest else [[s[0]] + rest[0]] + rest[1..]
  }

  /** The blocks of a text hold no breaks, and the document they form is as long as the text. */
  lemma {:induction false} LinesWellFormed(s: string)
    ensures WellFormed(Lines(s)) && Length(Lines(s)) == |s|
  {
    if s != [] {
      LinesWellFormed(s[1..]);
      var rest := Lines(s[1..]);
      if IsSeparator(s[0]) {
        assert ([""] + rest)[1..] == rest;
      } else {
        var r := [[s[0]] + rest[0]] + rest[1..];
        assert |rest| > 1 ==> r[1..] == rest[1..] && Join(rest) == rest[0] + [ParagraphSeparator] + Join(rest[1..]);
        assert forall i :: 1 <= i < |r| ==> r[i] == rest[i];
      }
    }
  }

  /** The text with every break written as U+2029. */
  function Normalize(s: string): (r: string)
    ensures |r| == |s|
  {
    if s == [] then [] else [if IsSeparator(s[0]) then ParagraphSeparator else s[0]] + Normalize(s[1..])
  }

  /** Text without breaks is one block. */
  lemma {:induction false} LinesOfFree(s: string)
    requires SeparatorFree(s)
    ensures Lines(s) == [s]
  {
    if s != [] {
      LinesOfFree(s[1..]);
      assert [s[0]] + s[1..] == s;
    }
  }

  /** Cutting at a break: the blocks before it, then the blocks after it. */
  lemma {:induction false} LinesAtBreak(x: string, c: char, y: string)
    requires IsSeparator(c)
    ensures Lines(x + [c] + y) == Lines(x) + Lines(y)
    decreases |x|
  {
    if x == [] {
      assert x + [c] + y == [c] + y;
      assert ([c] + y)[1..] == y;
    } else {
      assert (x + [c] + y)[1..] == x[1..] + [c] + y;
      LinesAtBreak(x[1..], c, y);
      assert (x + [c] + y)[0] == x[0];
    }
  }

  /** The blocks of x + y, given the blocks of x and of y. */
  ghost predicate GluedLines(x: string, y: string)
  {
    var lx, ly := Lines(x), Lines(y);
    Lines(x + y) == lx[..|lx| - 1] + [lx[|lx| - 1] + ly[0]] + ly[1..]
  }

  /** The step of LinesOfConcat for a leading break. */
  lemma {:induction false} GluedAfterBreak(c: char, x: string, y: string)
    requires IsSeparator(c) && GluedLines(x, y)
    ensures GluedLines([c] + x, y)
  {
    assert ([c] + x + y)[1..] == x + y && ([c] + x)[1..] == x;
    var tail, ly := Lines(x), Lines(y);
    var lx := Lines([c] + x);
    assert lx == [""] + tail;
    assert lx[..|lx| - 1] == [""] + tail[..|tail| - 1];
    assert Lines([c] + x + y) == [""] + Lines(x + y);
  }

  /** The sequence algebra of GluedAfterChar, with the blocks named. */
  lemma {:induction false} GluedAfterCharBlocks(c: char, tail: seq<string>, r: seq<string>, ly: seq<string>)
    requires |tail| >= 1 && |ly| >= 1
    requires r == tail[..|tail| - 1] + [tail[|tail| - 1] + ly[0]] + ly[1..]
    ensures var lx := [[c] + tail[0]] + tail[1..];
            [[c] + r[0]] + r[1..] == lx[..|lx| - 1] + [lx[|lx| - 1] + ly[0]] + ly[1..]
  {
    var n := |tail|;
    var lx := [[c] + tail[0]] + tail[1..];
    if n == 1 {
      assert r[0] == tail[0] + ly[0] && r[1..] == ly[1..];
      assert [c] + r[0] == ([c] + tail[0]) + ly[0];
      assert lx[..|lx| - 1] == [];
    } else {
      assert r[0] == tail[0];
      assert r[1..] == tail[1..n - 1] + [tail[n - 1] + ly[0]] + ly[1..];
      assert lx[..|lx| - 1] == [[c] + tail[0]] + tail[1..n - 1];
    }
  }

  /** The step of LinesOfConcat for a leading character other than a break. */
  lemma {:induction false} GluedAfterChar(c: char, x: string, y: string)
    requires !IsSeparator(c) && GluedLines(x, y)
    ensures GluedLines([c] + x, y)
  {
    assert ([c] + x + y)[1..] == x + y && ([c] + x)[1..] == x;
    assert ([c] + x + y)[0] == c && ([c] + x)[0] == c;
    var tail, r := Lines(x), Lines(x + y);
    assert Lines([c] + x) == [[c] + tail[0]] + tail[1..];
    assert Lines([c] + x + y) == [[c] + r[0]] + r[1..];
    GluedAfterCharBlocks(c, tail, r, Lines(y));
  }

  /** Gluing two texts merges the last block of the first with the first block of the second. */
  lemma {:induction false} LinesOfConcat(x: string, y: string)
    ensures GluedLines(x, y)
    decreases |x|
  {
    if x == [] {
      assert x + y == y;
      var lx, ly := Lines(x), Lines(y);
      assert lx == [""];
      assert lx[0] + ly[0] == ly[0];
      assert [lx[0] + ly[0]] + ly[1..] == ly;
    } else {
      LinesOfConcat(x[1..], y);
      assert [x[0]] + x[1..] == x;
      if IsSeparator(x[0]) {
        GluedAfterBreak(x[0], x[1..], y);
      } else {
        GluedAfterChar(x[0], x[1..], y);
      }
    }
  }

  /** Cutting the joined document gives its blocks back. */
  lemma {:induction false} LinesOfJoin(bs: seq<string>)
    requires WellFormed(bs)
    ensures Lines(Join(bs)) == bs
    decreases |bs|
  {
    LinesOfFree(bs[0]);
    if |bs| > 1 {
      LinesOfJoin(bs[1..]);
      LinesAtBreak(bs[0], ParagraphSeparator, Join(bs[1..]));
      assert [bs[0]] + bs[1..] == bs;
    }
  }

  /** Joining the blocks of a text gives the text with its breaks written as U+2029. */
  lemma {:induction false} JoinOfLines(s: string)
    ensures Join(Lines(s)) == Normalize(s)
  {
    if s != [] {
      JoinOfLines(s[1..]);
      var rest := Lines(s[1..]);
      if IsSeparator(s[0]) {
        assert ([""] + rest)[1..] == rest;
      } else {
        var r := [[s[0]] + rest[0]] + rest[1..];
        if |rest| > 1 {
          assert r[1..] == rest[1..];
        }
      }
    }
  }

  /** The document split before block b (0 < b): the blocks before, a break, the blocks from b. */
  lemma {:induction false} JoinAround(bs: seq<string>, b: nat)
    requires |bs| >= 1 && 0 < b < |bs|
    ensures Join(bs) == Join(bs[..b]) + [ParagraphSeparator] + Join(bs[b..])
    ensures BlockStart(bs, b) == |Join(bs[..b])| + 1
    decreases b
  {
    if b > 1 {
      JoinAround(bs[1..], b - 1);
      assert bs[1..][..b - 1] == bs[..b][1..];
      assert bs[1..][b - 1..] == bs[b..];
    } else {
      assert bs[..1] == [bs[0]];
    }
  }

  /** The last block ends where the document ends. */
  lemma {:induction false} LastBlockEnd(bs: seq<string>)
    requires |bs| >= 1
    ensures BlockStart(bs, |bs| - 1) + |bs[|bs| - 1]| == Length(bs)
    decreases |bs|
  {
    if |bs| > 1 {
      LastBlockEnd(bs[1..]);
    }
  }

  /** One more block at the end: one more break and the block's text. */
  lemma {:induction false} JoinSnoc(xs: seq<string>, x: string)
    requires |xs| >= 1
    ensures Join(xs + [x]) == Join(xs) + [ParagraphSeparator] + x
  {
    var ys := xs + [x];
    JoinAround(ys, |xs|);
    assert ys[..|xs|] == xs && ys[|xs|..] == [x];
  }

  /** Replacing the text between two positions (the effect of an edit through a cursor). */
  function Replace(bs: seq<string>, from: int, to: int, text: string): (r: seq<string>)
    requires WellFormed(bs) && 0 <= from <= to <= Length(bs)
    ensures WellFormed(r) && Length(r) == Length(bs) - (to - from) + |text|
  {
    var t := Join(bs)[..from] + text + Join(bs)[to..];
    LinesWellFormed(t);
    Lines(t)
  }

  /** The text in front of block b: the blocks before it, each followed by a break. */
  function Before(bs: seq<string>, b: nat): string
    requires b < |bs|
  {
    if b == 0 then [] else Join(bs[..b]) + [ParagraphSeparator]
  }

  /** The text after block b: a break and the blocks after it, if there are any. */
  function After(bs: seq<string>, b: nat): string
    requires b < |bs|
  {
    if b + 1 == |bs| then [] else [ParagraphSeparator] + Join(bs[b + 1..])
  }

  /** The blocks from b on, joined: block b, then the text after it. */
  lemma {:induction false} JoinFrom(bs: seq<string>, b: nat)
    requires b < |bs|
    ensures Join(bs[b..]) == bs[b] + After(bs, b)
  {
    var t := bs[b..];
    assert t[0] == bs[b];
    if |t| > 1 {
      assert t[1..] == bs[b + 1..];
    }
  }

  /** The document's text around block b; the block starts where the text before it ends. */
  lemma {:induction false} SplitAtBlock(bs: seq<string>, b: nat)
    requires b < |bs|
    ensures Join(bs) == Before(bs, b) + bs[b] + After(bs, b)
    ensures |Before(bs, b)| == BlockStart(bs, b)
  {
    if b == 0 {
      SplitAtFirstBlock(bs);
    } else {
      SplitAtLaterBlock(bs, b);
    }
  }

  lemma {:induction false} SplitAtFirstBlock(bs: seq<string>)
    requires 0 < |bs|
    ensures Join(bs) == Before(bs, 0) + bs[0] + After(bs, 0)
  {
    JoinFrom(bs, 0);
    assert bs[0..] == bs;
    assert [] + bs[0] == bs[0];
  }

  lemma {:induction false} SplitAtLaterBlock(bs: seq<string>, b: nat)
    requires 0 < b < |bs|
    ensures Join(bs) == Before(bs, b) + bs[b] + After(bs, b)
    ensures |Before(bs, b)| == BlockStart(bs, b)
  {
    JoinFrom(bs, b);
    JoinAround(bs, b);
    Associative(Before(bs, b), bs[b], After(bs, b));
  }

  /** Appending is associative (stated for the solver, which does not know it). */
  lemma {:induction false} Associative(x: string, y: string, z: string)
    ensures x + (y + z) == x + y + z
  {
  }

  /** A piece of the middle part of a text, found at the middle part's offset. */
  lemma {:induction false} SliceOfMiddle(pre: string, mid: string, post: string, x: nat, y: nat)
    requires x <= y <= |mid|
    ensures (pre + mid + post)[|pre| + x..|pre| + y] == mid[x..y]
  {
    var t := pre + mid + post;
    assert forall i :: 0 <= i < y - x ==> t[|pre| + x..|pre| + y][i] == mid[x..y][i];
  }

  /** Editing block b leaves the text around it alone. */
  lemma {:induction false} EditKeepsSurroundings(bs: seq<string>, b: nat, x: string)
    requires b < |bs|
    ensures Before(bs[b := x], b) == Before(bs, b) && After(bs[b := x], b) == After(bs, b)
  {
    assert bs[b := x][..b] == bs[..b];
    assert bs[b := x][b + 1..] == bs[b + 1..];
  }

  /** Replacing columns c1 up to c2 of the middle piece of a text. */
  lemma {:induction false} Splice(pre: string, x: string, post: string, c1: nat, c2: nat, s: string)
    requires c1 <= c2 <= |x|
    ensures (pre + x + post)[..|pre| + c1] + s + (pre + x + post)[|pre| + c2..]
            == pre + (x[..c1] + s + x[c2..]) + post
  {
    var whole := pre + x + post;
    assert whole[..|pre| + c1] == pre + x[..c1];
    assert whole[|pre| + c2..] == x[c2..] + post;
  }

  /** The joined text of a block edited in place. */
  lemma {:induction false} JoinOfEditedBlock(bs: seq<string>, b: nat, c1: nat, c2: nat, s: string)
    requires b < |bs| && c1 <= c2 <= |bs[b]|
    ensures BlockStart(bs, b) + c2 <= Length(bs)
    ensures Join(bs)[..BlockStart(bs, b) + c1] + s + Join(bs)[BlockStart(bs, b) + c2..]
            == Join(bs[b := bs[b][..c1] + s + bs[b][c2..]])
  {
    var before, after := Before(bs, b), After(bs, b);
    var y := bs[b][..c1] + s + bs[b][c2..];
    var e := bs[b := y];
    SplitAtBlock(bs, b);
    SplitAtBlock(e, b);
    EditKeepsSurroundings(bs, b, y);
    assert e[b] == y;
    assert Join(e) == before + y + after;
    Splice(before, bs[b], after, c1, c2, s);
  }

  /** An edit inside one block with text free of breaks changes that block only. */
  lemma {:induction false} ReplaceInBlock(bs: seq<string>, b: nat, c1: nat, c2: nat, s: string, from: int, to: int)
    requires WellFormed(bs) && b < |bs| && c1 <= c2 <= |bs[b]| && SeparatorFree(s)
    requires from == BlockStart(bs, b) + c1 && to == BlockStart(bs, b) + c2
    ensures 0 <= from <= to <= Length(bs)
    ensures Replace(bs, from, to, s) == bs[b := bs[b][..c1] + s + bs[b][c2..]]
  {
    JoinOfEditedBlock(bs, b, c1, c2, s);
    EditedBlockFree(bs[b], c1, c2, s);
    EditedWellFormed(bs, b, bs[b][..c1] + s + bs[b][c2..]);
    ReplaceGivesBlocks(bs, from, to, s, bs[b := bs[b][..c1] + s + bs[b][c2..]]);
  }

  /** A block replaced by one without breaks keeps the document well formed. */
  lemma {:induction false} EditedWellFormed(bs: seq<string>, b: nat, x: string)
    requires WellFormed(bs) && b < |bs| && SeparatorFree(x)
    ensures WellFormed(bs[b := x])
  {
  }

  /** An edit whose text is that of a well-formed document gives that document's blocks. */
  lemma {:induction false} ReplaceGivesBlocks(bs: seq<string>, from: int, to: int, text: string, e: seq<string>)
    requires WellFormed(bs) && 0 <= from <= to <= Length(bs) && WellFormed(e)
    requires Join(bs)[..from] + text + Join(bs)[to..] == Join(e)
    ensures Replace(bs, from, to, text) == e
  {
    LinesOfJoin(e);
  }

  /** A block edited with text free of breaks stays free of breaks. */
  lemma {:induction false} EditedBlockFree(x: string, c1: nat, c2: nat, s: string)
    requires SeparatorFree(x) && SeparatorFree(s) && c1 <= c2 <= |x|
    ensures SeparatorFree(x[..c1] + s + x[c2..])
  {
    var t := x[..c1] + s + x[c2..];
    forall i | 0 <= i < |t| ensures !IsSeparator(t[i]) {
      if i < c1 {
        assert t[i] == x[i];
      } else if i < c1 + |s| {
        assert t[i] == s[i - c1];
      } else {
        assert t[i] == x[i - c1 - |s| + c2];
      }
    }
  }

  /** Two documents joined by one break: their blocks, one after the other. */
  lemma {:induction false} LinesOfJoinedPair(xs: seq<string>, ys: seq<string>, c: char)
    requires WellFormed(xs) && WellFormed(ys) && IsSeparator(c)
    ensures Lines(Join(xs) + [c] + Join(ys)) == xs + ys
  {
    LinesAtBreak(Join(xs), c, Join(ys));
    LinesOfJoin(xs);
    LinesOfJoin(ys);
  }

  /** A trailing empty block adds one break to the joined text. */
  lemma {:induction false} JoinWithEmptyLast(xs: seq<string>)
    requires |xs| >= 1
    ensures Join(xs + [""]) == Join(xs) + [ParagraphSeparator]
  {
    JoinAround(xs + [""], |xs|);
    assert (xs + [""])[..|xs|] == xs;
    assert (xs + [""])[|xs|..] == [""];
  }

  /** The text of a break typed at the start of block b (0 < b). */
  lemma {:induction false} BreakTextInside(bs: seq<string>, b: nat, c: char)
    requires WellFormed(bs) && 0 < b < |bs|
    ensures BlockStart(bs, b) <= Length(bs)
    ensures Join(bs)[..BlockStart(bs, b)] + [c] + Join(bs)[BlockStart(bs, b)..]
            == Join(bs[..b] + [""]) + [c] + Join(bs[b..])
  {
    BlockInside(bs, b);
    JoinAround(bs, b);
    JoinWithEmptyLast(bs[..b]);
  }

  /** A break typed at the start of the document opens an empty first block. */
  lemma {:induction false} BreakAtFirstBlock(bs: seq<string>, c: char)
    requires WellFormed(bs) && IsSeparator(c)
    ensures Lines([] + [c] + Join(bs)) == [""] + bs
  {
    assert [] + [c] + Join(bs) == Join([""]) + [c] + Join(bs);
    LinesOfJoinedPair([""], bs, c);
  }

  /** Text without breaks inserted at the start of block b goes in front of that block. */
  lemma {:induction false} InsertAtBlockStart(bs: seq<string>, b: nat, s: string, at: int)
    requires WellFormed(bs) && b < |bs| && SeparatorFree(s) && at == BlockStart(bs, b)
    ensures 0 <= at <= Length(bs)
    ensures Replace(bs, at, at, s) == bs[b := s + bs[b]]
  {
    var z: nat :| z == 0;
    assert bs[b][..z] + s + bs[b][z..] == s + bs[b];
    ReplaceInBlock(bs, b, z, z, s, at, at);
  }

  /** Removing columns c1 up to c2 of block b. */
  lemma {:induction false} RemoveInBlock(bs: seq<string>, b: nat, c1: nat, c2: nat, from: int, to: int)
    requires WellFormed(bs) && b < |bs| && c1 <= c2 <= |bs[b]|
    requires from == BlockStart(bs, b) + c1 && to == BlockStart(bs, b) + c2
    ensures 0 <= from <= to <= Length(bs)
    ensures Replace(bs, from, to, "") == bs[b := bs[b][..c1] + bs[b][c2..]]
  {
    assert bs[b][..c1] + "" + bs[b][c2..] == bs[b][..c1] + bs[b][c2..];
    ReplaceInBlock(bs, b, c1, c2, "", from, to);
  }

  /** Removing the first k characters of block b. */
  lemma {:induction false} RemoveAtBlockStart(bs: seq<string>, b: nat, k: nat, from: int, to: int)
    requires WellFormed(bs) && b < |bs| && k <= |bs[b]|
    requires from == BlockStart(bs, b) && to == from + k
    ensures 0 <= from <= to <= Length(bs)
    ensures Replace(bs, from, to, "") == bs[b := bs[b][k..]]
  {
    var z: nat :| z == 0;
    RemoveInBlock(bs, b, z, k, from, to);
    assert bs[b][..z] + bs[b][k..] == bs[b][k..];
  }

  /** A break typed at the start of block b (0 < b) opens an empty block before it. */
  lemma {:induction false} BreakAtLaterBlock(bs: seq<string>, b: nat, c: char)
    requires WellFormed(bs) && 0 < b < |bs| && IsSeparator(c)
    ensures BlockStart(bs, b) <= Length(bs)
    ensures Lines(Join(bs)[..BlockStart(bs, b)] + [c] + Join(bs)[BlockStart(bs, b)..]) == bs[..b] + [""] + bs[b..]
  {
    BreakTextInside(bs, b, c);
    var xs, ys := bs[..b] + [""], bs[b..];
    assert WellFormed(xs) && WellFormed(ys);
    LinesOfJoinedPair(xs, ys, c);
  }

  /** A break typed at the start of block b opens an empty block before it. */
  lemma {:induction false} BreakAtBlockStart(bs: seq<string>, b: nat, c: char, at: int)
    requires WellFormed(bs) && b < |bs| && IsSeparator(c) && at == BlockStart(bs, b)
    ensures 0 <= at <= Length(bs)
    ensures Replace(bs, at, at, [c]) == bs[..b] + [""] + bs[b..]
  {
    BlockInside(bs, b);
    if b == 0 {
      var j := Join(bs);
      assert j[..0] + [c] + j[0..] == [] + [c] + j;
      BreakAtFirstBlock(bs, c);
      assert bs[..0] + [""] + bs[0..] == [""] + bs;
    } else {
      BreakAtLaterBlock(bs, b, c);
    }
  }

  /** A break typed at the very end adds an empty last block. */
  lemma {:induction false} BreakAtEnd(bs: seq<string>, c: char, at: int)
    requires WellFormed(bs) && IsSeparator(c) && at == Length(bs)
    ensures Replace(bs, at, at, [c]) == bs + [""]
  {
    var j := Join(bs);
    assert j[..|j|] + [c] + j[|j|..] == j + [c] + [];
    LinesAtBreak(j, c, []);
    LinesOfJoin(bs);
  }

  /** Deleting the break before block b joins it to the previous block. */
  lemma {:induction false} RemoveBreak(bs: seq<string>, b: nat, from: int, to: int)
    requires WellFormed(bs) && 0 < b < |bs| && to == BlockStart(bs, b) && from == to - 1
    ensures 0 <= from <= to <= Length(bs)
    ensures Replace(bs, from, to, "") == bs[..b - 1] + [bs[b - 1] + bs[b]] + bs[b + 1..]
  {
    BlockInside(bs, b);
    JoinAround(bs, b);
    var p := to;
    var j := Join(bs);
    var x, y := Join(bs[..b]), Join(bs[b..]);
    assert j[..p - 1] == x && j[p..] == y;
    assert j[..p - 1] + "" + j[p..] == x + y;
    LinesOfConcat(x, y);
    assert WellFormed(bs[..b]) && WellFormed(bs[b..]);
    LinesOfJoin(bs[..b]);
    LinesOfJoin(bs[b..]);
    assert bs[..b][..b - 1] == bs[..b - 1] && bs[b..][1..] == bs[b + 1..];
  }

  /** Normalize works character by character. */
  lemma {:induction false} NormalizeConcat(x: string, y: string)
    ensures Normalize(x + y) == Normalize(x) + Normalize(y)
    decreases |x|
  {
    if x == [] {
      assert x + y == y;
    } else {
      var xy := x + y;
      assert xy[1..] == x[1..] + y && xy[0] == x[0];
      NormalizeConcat(x[1..], y);
      var head := [if IsSeparator(x[0]) then ParagraphSeparator else x[0]];
      calc {
        Normalize(xy);
        head + Normalize(x[1..] + y);
        head + (Normalize(x[1..]) + Normalize(y));
        (head + Normalize(x[1..])) + Normalize(y);
      }
    }
  }

  /** Text holding no line feed is its own normal form. */
  lemma {:induction false} NormalizeFixed(s: string)
    requires forall i :: 0 <= i < |s| ==> s[i] != '\n'
    ensures Normalize(s) == s
  {
    if s != [] {
      NormalizeFixed(s[1..]);
    }
  }

  /** The joined document holds no line feed. */
  lemma {:induction false} JoinHasNoLineFeed(bs: seq<string>)
    requires WellFormed(bs)
    ensures forall i :: 0 <= i < |Join(bs)| ==> Join(bs)[i] != '\n'
    decreases |bs|
  {
    if |bs| > 1 {
      JoinHasNoLineFeed(bs[1..]);
      var j := Join(bs);
      forall i | 0 <= i < |j| ensures j[i] != '\n' {
        if i < |bs[0]| {
          assert j[i] == bs[0][i];
        } else if i > |bs[0]| {
          assert j[i] == Join(bs[1..])[i - |bs[0]| - 1];
        }
      }
    }
  }

  /** The text after a replacement: the text before it with the new text, breaks as U+2029, in place. */
  lemma {:induction false} JoinOfReplace(bs: seq<string>, from: int, to: int, text: string)
    requires WellFormed(bs) && 0 <= from <= to <= Length(bs)
    ensures Join(Replace(bs, from, to, text)) == Join(bs)[..from] + Normalize(text) + Join(bs)[to..]
  {
    var j := Join(bs);
    JoinOfLines(j[..from] + text + j[to..]);
    NormalizeConcat(j[..from] + text, j[to..]);
    NormalizeConcat(j[..from], text);
    JoinHasNoLineFeed(bs);
    NormalizeFixed(j[..from]);
    NormalizeFixed(j[to..]);
  }

  /** Normalize is idempotent. */
  lemma {:induction false} NormalizeTwice(s: string)
    ensures Normalize(Normalize(s)) == Normalize(s)
  {
    if s != [] {
      NormalizeTwice(s[1..]);
    }
  }

  /** QString::split(QChar::ParagraphSeparator): the pieces between the U+2029 characters. */
  function Split(s: string): (r: seq<string>)
    ensures |r| >= 1
    ensures forall i :: 0 <= i < |r| ==> ParagraphSeparator !in r[i]
  {
    if s == [] then [""]
    else
      var rest := Split(s[1..]);
      if s[0] == ParagraphSeparator then [""] + rest
      else
        assert forall i :: 1 <= i < |rest| ==> ([[s[0]] + rest[0]] + rest[1..])[i] == rest[i];
        [[s[0]] + rest[0]] + rest[1..]
  }

  /** Splitting and joining again gives the text back. */
  lemma {:induction false} JoinOfSplit(s: string)
    ensures Join(Split(s)) == s
  {
    if s != [] {
      JoinOfSplit(s[1..]);
      var rest := Split(s[1..]);
      if s[0] == ParagraphSeparator {
        assert ([""] + rest)[1..] == rest;
      } else {
        var r := [[s[0]] + rest[0]] + rest[1..];
        if |rest| > 1 {
          assert r[1..] == rest[1..];
        }
      }
    }
  }

  /** Pieces without U+2029, joined and split again, come back unchanged. */
  lemma {:induction false} SplitOfJoin(ls: seq<string>)
    requires |ls| >= 1 && forall i :: 0 <= i < |ls| ==> ParagraphSeparator !in ls[i]
    ensures Split(Join(ls)) == ls
    decreases |ls|, |ls[0]|
  {
    if |ls| == 1 {
      SplitOfFree(ls[0]);
    } else if ls[0] == [] {
      assert Join(ls) == [ParagraphSeparator] + Join(ls[1..]);
      assert Join(ls)[1..] == Join(ls[1..]);
      SplitOfJoin(ls[1..]);
      assert [""] + ls[1..] == ls;
    } else {
      var c := ls[0][0];
      var ls' := [ls[0][1..]] + ls[1..];
      assert ls'[1..] == ls[1..];
      assert Join(ls) == [c] + Join(ls');
      assert Join(ls)[1..] == Join(ls');
      assert ParagraphSeparator !in ls[0][1..] by {
        assert forall k :: 0 <= k < |ls[0][1..]| ==> ls[0][1..][k] == ls[0][k + 1];
      }
      SplitOfJoin(ls');
      assert [c] + ls[0][1..] == ls[0];
      assert [[c] + ls'[0]] + ls'[1..] == ls;
    }
  }

  /** A piece without U+2029 splits into itself. */
  lemma {:induction false} SplitOfFree(s: string)
    requires ParagraphSeparator !in s
    ensures Split(s) == [s]
  {
    if s != [] {
      assert s[1..] == s[1..] && ParagraphSeparator !in s[1..] by {
        assert forall k :: 0 <= k < |s[1..]| ==> s[1..][k] == s[k + 1];
      }
      SplitOfFree(s[1..]);
      assert [s[0]] + s[1..] == s;
    }
  }

  /** Editing block j leaves the start of every block up to j where it was. */
  lemma {:induction false} BlockStartOfEdited(bs: seq<string>, j: nat, x: string, b: nat)
    requires b <= j < |bs|
    ensures BlockStart(bs[j := x], b) == BlockStart(bs, b)
    decreases b
  {
    if b > 0 {
      assert bs[j := x][1..] == bs[1..][j - 1 := x];
      BlockStartOfEdited(bs[1..], j - 1, x, b - 1);
    }
  }

  /** Editing block j moves the start of every later block by the change in its length. */
  lemma {:induction false} BlockStartAfterEdited(bs: seq<string>, j: nat, x: string, b: nat)
    requires j < b < |bs|
    ensures BlockStart(bs[j := x], b) == BlockStart(bs, b) + |x| - |bs[j]|
    decreases j
  {
    if j == 0 {
      assert bs[j := x][1..] == bs[1..];
    } else {
      assert bs[j := x][1..] == bs[1..][j - 1 := x];
      BlockStartAfterEdited(bs[1..], j - 1, x, b - 1);
    }
  }

  /** The blocks with an empty block put in at index j: a break typed at the start of block j. */
  function WithEmptyBlock(bs: seq<string>, j: nat): (r: seq<string>)
    requires j <= |bs|
    ensures |r| == |bs| + 1 && r[j] == ""
    ensures forall i {:trigger r[i]} :: 0 <= i < j ==> r[i] == bs[i]
    ensures forall i {:trigger r[i]} :: j < i < |r| ==> r[i] == bs[i - 1]
    ensures WellFormed(bs) ==> WellFormed(r)
  {
    bs[..j] + [""] + bs[j..]
  }

  /** Text put in at a position leaves the text before it where it was. */
  lemma {:induction false} SliceBeforeInsert(t: string, at: nat, s: string, x: nat, y: nat)
    requires x <= y <= at <= |t|
    ensures (t[..at] + s + t[at..])[x..y] == t[x..y]
  {
    var u := t[..at] + s + t[at..];
    assert forall i :: 0 <= i < y - x ==> u[x..y][i] == t[x..y][i];
  }

  /** Text put in at a position moves the text after it on by its length. */
  lemma {:induction false} SliceAfterInsert(t: string, at: nat, s: string, x: nat, y: nat)
    requires at <= x <= y <= |t|
    ensures (t[..at] + s + t[at..])[x + |s|..y + |s|] == t[x..y]
  {
    var u := t[..at] + s + t[at..];
    assert forall i :: 0 <= i < y - x ==> u[x + |s|..y + |s|][i] == t[x..y][i];
  }

  /** Where a block starts depends only on the blocks before it. */
  lemma {:induction false} BlockStartSamePrefix(xs: seq<string>, ys: seq<string>, b: nat)
    requires b < |xs| && b < |ys| && forall i :: 0 <= i < b ==> xs[i] == ys[i]
    ensures BlockStart(xs, b) == BlockStart(ys, b)
    decreases b
  {
    if b > 0 {
      BlockStartSamePrefix(xs[1..], ys[1..], b - 1);
    }
  }

  /** After an empty block at j, the blocks from j on start one position later. */
  lemma {:induction false} BlockStartAfterEmpty(bs: seq<string>, j: nat, i: nat)
    requires j <= i < |bs|
    ensures BlockStart(WithEmptyBlock(bs, j), i + 1) == BlockStart(bs, i) + 1
    decreases j
  {
    var r := WithEmptyBlock(bs, j);
    if j == 0 {
      assert r[1..] == bs;
    } else {
      assert r[1..] == WithEmptyBlock(bs[1..], j - 1);
      BlockStartAfterEmpty(bs[1..], j - 1, i - 1);
    }
  }

  /** Positions before block j are found in the same block once an empty block is put in at j. */
  lemma {:induction false} FindBlockBeforeEmpty(bs: seq<string>, j: nat, p: int)
    requires WellFormed(bs) && 0 < j < |bs| && 0 <= p < BlockStart(bs, j)
    ensures p <= Length(bs) && Length(WithEmptyBlock(bs, j)) == Length(bs) + 1
    ensures FindBlock(WithEmptyBlock(bs, j), p) == FindBlock(bs, p)
  {
    BlockInside(bs, j);
    var r := WithEmptyBlock(bs, j);
    var b := FindBlock(bs, p);
    if j <= b {
      if j < b {
        BlockOrder(bs, j, b);
      }
      assert false;
    }
    BlockStartSamePrefix(r, bs, b);
    LengthAfterEmpty(bs, j);
    FindBlockAt(r, b, p - BlockStart(bs, b));
  }

  /** Positions from block j on are found one block later, one position on, once an empty block is put in at j. */
  lemma {:induction false} FindBlockAfterEmpty(bs: seq<string>, j: nat, p: int)
    requires WellFormed(bs) && j < |bs| && BlockStart(bs, j) <= p <= Length(bs)
    ensures Length(WithEmptyBlock(bs, j)) == Length(bs) + 1
    ensures FindBlock(WithEmptyBlock(bs, j), p + 1) == FindBlock(bs, p) + 1
  {
    var r := WithEmptyBlock(bs, j);
    var b := FindBlock(bs, p);
    if b < j {
      BlockOrder(bs, b, j);
      assert false;
    }
    BlockStartAfterEmpty(bs, j, b);
    LengthAfterEmpty(bs, j);
    FindBlockAt(r, b + 1, p - BlockStart(bs, b));
  }

  /** An empty block adds one break. */
  lemma {:induction false} LengthAfterEmpty(bs: seq<string>, j: nat)
    requires |bs| >= 1 && j <= |bs|
    ensures Length(WithEmptyBlock(bs, j)) == Length(bs) + 1
  {
    var r := WithEmptyBlock(bs, j);
    LastBlockEnd(bs);
    LastBlockEnd(r);
    if j < |bs| {
      BlockStartAfterEmpty(bs, j, |bs| - 1);
    } else {
      BlockInside(r, |bs| - 1);
      BlockStartSamePrefix(r, bs, |bs| - 1);
    }
  }

  /** Blocks come in order: block i ends before block j starts. */
  lemma {:induction false} BlockOrder(bs: seq<string>, i: nat, j: nat)
    requires i < j < |bs|
    ensures BlockStart(bs, i) + |bs[i]| < BlockStart(bs, j)
    decreases j - i
  {
    BlockInside(bs, i);
    if i + 1 < j {
      BlockOrder(bs, i + 1, j);
      BlockInside(bs, i + 1);
    }
  }

  /** The blocks getSelectedBlocks(from, to) returns are exactly those the range [from, to] touches. */
  lemma {:induction false} SelectedBlocksTouch(bs: seq<string>, from: int, to: int, b: nat)
    requires |bs| >= 1 && 0 <= from <= to <= Length(bs) && b < |bs|
    ensures FindBlock(bs, from) <= b <= FindBlock(bs, to)
        <==> BlockStart(bs, b) <= to && from <= BlockStart(bs, b) + |bs[b]|
  {
    var first, last := FindBlock(bs, from), FindBlock(bs, to);
    if first < b {
      BlockOrder(bs, first, b);
    }
    if b < last {
      BlockOrder(bs, b, last);
    }
    if last < b {
      BlockOrder(bs, last, b);
    }
    if b < first {
      BlockOrder(bs, b, first);
    }
  }

  /** The number of U+2029 characters in a text. */
  function Breaks(s: string): nat
  {
    if s == [] then 0 else (if s[0] == ParagraphSeparator then 1 else 0) + Breaks(s[1..])
  }

  lemma {:induction false} BreaksConcat(x: string, y: string)
    ensures Breaks(x + y) == Breaks(x) + Breaks(y)
    decreases |x|
  {
    if x == [] {
      assert x + y == y;
    } else {
      assert (x + y)[1..] == x[1..] + y && (x + y)[0] == x[0];
      BreaksConcat(x[1..], y);
    }
  }

  lemma {:induction false} BreaksOfFree(s: string)
    requires SeparatorFree(s)
    ensures Breaks(s) == 0
  {
    if s != [] {
      BreaksOfFree(s[1..]);
    }
  }

  /** The block holding position p is the number of breaks before p. */
  lemma {:induction false} FindBlockCountsBreaks(bs: seq<string>, p: int)
    requires WellFormed(bs) && 0 <= p <= Length(bs)
    ensures FindBlock(bs, p) == Breaks(Join(bs)[..p])
    decreases |bs|
  {
    if |bs| == 1 || p <= |bs[0]| {
      var j := Join(bs);
      assert j[..p] == bs[0][..p];
      BreaksOfFree(bs[0][..p]);
    } else {
      var rest := bs[1..];
      var q := p - |bs[0]| - 1;
      FindBlockCountsBreaks(rest, q);
      assert Join(bs)[..p] == bs[0] + ([ParagraphSeparator] + Join(rest)[..q]);
      BreaksConcat(bs[0], [ParagraphSeparator] + Join(rest)[..q]);
      BreaksOfFree(bs[0]);
      assert ([ParagraphSeparator] + Join(rest)[..q])[1..] == Join(rest)[..q];
    }
  }
}
