/**
 * What the editor's operations compute on the text of single lines and on whole block
 * lists: leading and trailing spaces, blank lines, tab stops and the "%1" place marker.
 */
module LineText {

  import opened Strings
  import opened Document

  /** QString(" ").repeated(n). */
  function Spaces(n: nat): (r: string)
    ensures |r| == n
    ensures forall i :: 0 <= i < n ==> r[i] == ' '
  {
    if n == 0 then "" else " " + Spaces(n - 1)
  }

  function Min(a: int, b: int): int { if a <= b then a else b }

  function Max(a: int, b: int): int { if a <= b then b else a }

  /** The number of leading ' ' characters: getLineIndentation. */
  function Indentation(s: string): (n: nat)
    ensures n <= |s|
    ensures forall i :: 0 <= i < n ==> s[i] == ' '
    ensures n < |s| ==> s[n] != ' '
  {
    if s == [] || s[0] != ' ' then 0 else 1 + Indentation(s[1..])
  }

  /** A run of n spaces followed by the end or by another character is the indentation. */
  lemma {:induction false} IndentationIs(s: string, n: int)
    requires 0 <= n <= |s| && (forall i :: 0 <= i < n ==> s[i] == ' ') && (n < |s| ==> s[n] != ' ')
    ensures Indentation(s) == n
  {
  }

  /** A line starting with n spaces is indented by at least n. */
  lemma {:induction false} IndentationAtLeast(s: string, n: int)
    requires 0 <= n <= |s| && forall i :: 0 <= i < n ==> s[i] == ' '
    ensures Indentation(s) >= n
  {
    if n > 0 {
      IndentationAtLeast(s[1..], n - 1);
    }
  }

  /** The number of trailing ' ' characters. */
  function TrailingSpaces(s: string): (n: nat)
    ensures n <= |s|
    ensures forall i :: |s| - n <= i < |s| ==> s[i] == ' '
    ensures n < |s| ==> s[|s| - 1 - n] != ' '
  {
    if s == [] || s[|s| - 1] != ' ' then 0 else 1 + TrailingSpaces(s[..|s| - 1])
  }

  /** The spaces before pos, counted back up to limit, are the backspaces unindent takes. */
  lemma {:induction false} TrailingSpacesIs(t: string, found: nat, limit: nat)
    requires found <= limit && found <= |t|
    requires forall k :: |t| - found <= k < |t| ==> t[k] == ' '
    requires found < limit ==> found < |t| && t[|t| - 1 - found] != ' '
    ensures found == Min(limit, TrailingSpaces(t))
  {
  }

  /** A line without its trailing spaces. */
  function TrimRight(s: string): string
  {
    s[..|s| - TrailingSpaces(s)]
  }

  /** Trimming removes trailing spaces and nothing else: no space is left at the end and the rest is kept. */
  lemma {:induction false} TrimRightRemovesSpacesOnly(s: string)
    ensures s == TrimRight(s) + Spaces(TrailingSpaces(s))
    ensures TrimRight(s) == [] || TrimRight(s)[|TrimRight(s)| - 1] != ' '
  {
    var t := TrimRight(s);
    assert s == t + s[|t|..];
    assert s[|t|..] == Spaces(TrailingSpaces(s));
  }

  /** A line that ends in something other than a space has no trailing spaces. */
  lemma {:induction false} TrailingSpacesOfTrimmed(s: string)
    requires s == [] || s[|s| - 1] != ' '
    ensures TrailingSpaces(s) == 0
  {
  }

  /** Trimming twice trims nothing more. */
  lemma {:induction false} TrimRightIdempotent(s: string)
    ensures TrimRight(TrimRight(s)) == TrimRight(s)
  {
    TrimRightRemovesSpacesOnly(s);
    TrailingSpacesOfTrimmed(TrimRight(s));
  }

  /** Every block trimmed: what trimTrailingWhitespace leaves. */
  function TrimmedBlocks(bs: seq<string>): (r: seq<string>)
    ensures |r| == |bs|
  {
    seq(|bs|, i requires 0 <= i < |bs| => TrimRight(bs[i]))
  }

  /** Trimming all blocks keeps their number, leaves no block ending in a space and is idempotent. */
  lemma {:induction false} TrimmedBlocksProperties(bs: seq<string>)
    ensures forall i :: 0 <= i < |bs| ==> bs[i] == TrimmedBlocks(bs)[i] + Spaces(TrailingSpaces(bs[i]))
    ensures forall i :: 0 <= i < |bs| ==> TrailingSpaces(TrimmedBlocks(bs)[i]) == 0
    ensures TrimmedBlocks(TrimmedBlocks(bs)) == TrimmedBlocks(bs)
  {
    forall i | 0 <= i < |bs|
      ensures bs[i] == TrimmedBlocks(bs)[i] + Spaces(TrailingSpaces(bs[i]))
      ensures TrailingSpaces(TrimmedBlocks(bs)[i]) == 0
      ensures TrimRight(TrimmedBlocks(bs)[i]) == TrimmedBlocks(bs)[i]
    {
      TrimRightRemovesSpacesOnly(bs[i]);
      TrailingSpacesOfTrimmed(TrimRight(bs[i]));
    }
  }

  /** The blocks before n trimmed, the others as they were: trimTrailingWhitespace part way. */
  function TrimmedUpTo(bs: seq<string>, n: int): (r: seq<string>)
    ensures |r| == |bs|
  {
    seq(|bs|, i requires 0 <= i < |bs| => if i < n then TrimRight(bs[i]) else bs[i])
  }

  /** Nothing trimmed yet, one more block trimmed, and every block trimmed. */
  lemma {:induction false} TrimmedUpToSteps(bs: seq<string>, n: nat)
    requires n < |bs|
    ensures TrimmedUpTo(bs, 0) == bs
    ensures TrimmedUpTo(bs, n + 1) == TrimmedUpTo(bs, n)[n := TrimRight(bs[n])]
    ensures TrimmedUpTo(bs, |bs|) == TrimmedBlocks(bs)
  {
  }

  /** The characters QChar::isSpace accepts (and QRegExp's \s matches). */
  const SpaceChars: set<char> := {
    '\t', '\n', '\U{000B}', '\U{000C}', '\r', ' ', '\U{0085}', '\U{00A0}', '\U{1680}',
    '\U{2000}', '\U{2001}', '\U{2002}', '\U{2003}', '\U{2004}', '\U{2005}', '\U{2006}',
    '\U{2007}', '\U{2008}', '\U{2009}', '\U{200A}', '\U{2028}', '\U{2029}', '\U{202F}',
    '\U{205F}', '\U{3000}'
  }

  predicate IsSpaceChar(c: char)
  {
    c in SpaceChars
  }

  /** A line the regular expression ^\s*$ matches. */
  predicate IsBlank(s: string)
  {
    s == [] || (IsSpaceChar(s[0]) && IsBlank(s[1..]))
  }

  /** A blank line is one made of white space only. */
  lemma {:induction false} BlankIsAllSpace(s: string)
    ensures IsBlank(s) <==> forall i :: 0 <= i < |s| ==> IsSpaceChar(s[i])
  {
    if s != [] {
      BlankIsAllSpace(s[1..]);
      assert forall i :: 1 <= i < |s| ==> s[i] == s[1..][i - 1];
    }
  }

  /** The number of blank blocks at the end of the document. */
  function BlankTail(bs: seq<string>): (m: nat)
    ensures m <= |bs|
    ensures forall k :: |bs| - m <= k < |bs| ==> IsBlank(bs[k])
    ensures m < |bs| ==> !IsBlank(bs[|bs| - 1 - m])
  {
    if bs == [] || !IsBlank(bs[|bs| - 1]) then 0 else 1 + BlankTail(bs[..|bs| - 1])
  }

  /** A blank run of length n at the end, preceded by a non-blank block or by nothing, is the blank tail. */
  lemma {:induction false} BlankTailIs(bs: seq<string>, n: nat)
    requires n <= |bs| && (forall k :: |bs| - n <= k < |bs| ==> IsBlank(bs[k]))
    requires n < |bs| ==> !IsBlank(bs[|bs| - 1 - n])
    ensures BlankTail(bs) == n
    decreases n
  {
    if n > 0 {
      var init := bs[..|bs| - 1];
      assert forall k :: |init| - (n - 1) <= k < |init| ==> init[k] == bs[k];
      BlankTailIs(init, n - 1);
    }
  }

  /** What ensureSingleBlankLineAtEnd leaves: the blank tail replaced by one empty block. */
  function SingleBlankLineAtEnd(bs: seq<string>): (r: seq<string>)
  {
    bs[..|bs| - BlankTail(bs)] + [""]
  }

  /**
   * The last block is empty, the one before it (if any) is not blank, everything before the
   * blank tail is kept, and exactly one empty block is added when there was no blank tail.
   */
  lemma {:induction false} SingleBlankLineAtEndProperties(bs: seq<string>)
    ensures var r := SingleBlankLineAtEnd(bs);
      && r[|r| - 1] == ""
      && (|r| >= 2 ==> !IsBlank(r[|r| - 2]))
      && r[..|r| - 1] == bs[..|bs| - BlankTail(bs)]
      && (BlankTail(bs) == 0 ==> r == bs + [""])
  {
    KeptThenEmpty(bs, BlankTail(bs));
  }

  /** The blocks before a run of m at the end, then one empty block. */
  lemma {:induction false} KeptThenEmpty(bs: seq<string>, m: nat)
    requires m <= |bs| && (m < |bs| ==> !IsBlank(bs[|bs| - 1 - m]))
    ensures var r := bs[..|bs| - m] + [""];
      && r[|r| - 1] == ""
      && (|r| >= 2 ==> !IsBlank(r[|r| - 2]))
      && r[..|r| - 1] == bs[..|bs| - m]
      && (m == 0 ==> r == bs + [""])
  {
    var kept := bs[..|bs| - m];
    AppendOne(kept, "");
    if m < |bs| {
      assert kept[|kept| - 1] == bs[|bs| - 1 - m];
    }
    if m == 0 {
      assert kept == bs;
    }
  }

  /** One element appended at the end. */
  lemma {:induction false} AppendOne(kept: seq<string>, e: string)
    ensures var r := kept + [e];
      && r[|r| - 1] == e && r[..|r| - 1] == kept
      && (|kept| >= 1 ==> r[|r| - 2] == kept[|kept| - 1])
  {
    var r := kept + [e];
    assert r[..|r| - 1] == kept;
  }

  /** Normalising the end twice changes nothing more. */
  lemma {:induction false} SingleBlankLineAtEndIdempotent(bs: seq<string>)
    ensures SingleBlankLineAtEnd(SingleBlankLineAtEnd(bs)) == SingleBlankLineAtEnd(bs)
  {
    var r := SingleBlankLineAtEnd(bs);
    SingleBlankLineAtEndProperties(bs);
    assert IsBlank(r[|r| - 1]);
    assert BlankTail(r) == 1 by {
      if |r| >= 2 {
        assert BlankTail(r[..|r| - 1]) == 0;
      } else {
        assert r[..|r| - 1] == [];
      }
    }
    assert r[..|r| - 1] + [""] == r;
  }

  /** Trimming cannot make a line blank that was not. */
  lemma {:induction false} TrimKeepsNonBlank(s: string)
    requires !IsBlank(s)
    ensures !IsBlank(TrimRight(s))
  {
    TrimRightRemovesSpacesOnly(s);
    var t := TrimRight(s);
    BlankIsAllSpace(s);
    BlankIsAllSpace(t);
    var i :| 0 <= i < |s| && !IsSpaceChar(s[i]);
    assert i < |t|;
    assert t[i] == s[i];
  }

  /**
   * The pre-save processing with both options on: blank-line normalisation, then trimming.
   * The document ends in one empty block, the block before it is not blank and no block ends in a space.
   */
  lemma {:induction false} NormaliseThenTrim(bs: seq<string>)
    ensures var r := TrimmedBlocks(SingleBlankLineAtEnd(bs));
      && r[|r| - 1] == ""
      && (|r| >= 2 ==> !IsBlank(r[|r| - 2]))
      && (forall i :: 0 <= i < |r| ==> TrailingSpaces(r[i]) == 0)
  {
    SingleBlankLineAtEndProperties(bs);
    TrimmedEndsClean(SingleBlankLineAtEnd(bs));
  }

  /** Trimming blocks that end in one empty block after a non-blank one keeps that shape. */
  lemma {:induction false} TrimmedEndsClean(n: seq<string>)
    requires |n| >= 1 && n[|n| - 1] == "" && (|n| >= 2 ==> !IsBlank(n[|n| - 2]))
    ensures var r := TrimmedBlocks(n);
      && r[|r| - 1] == ""
      && (|r| >= 2 ==> !IsBlank(r[|r| - 2]))
      && (forall i :: 0 <= i < |r| ==> TrailingSpaces(r[i]) == 0)
  {
    TrimmedBlocksProperties(n);
    var r := TrimmedBlocks(n);
    assert r[|r| - 1] == TrimRight(n[|n| - 1]);
    if |r| >= 2 {
      TrimKeepsNonBlank(n[|n| - 2]);
    }
  }

  /** The blocks first..last with n spaces put in front: indent() of a selection. */
  function IndentedBlocks(bs: seq<string>, first: int, last: int, n: nat): (r: seq<string>)
    ensures |r| == |bs|
  {
    seq(|bs|, i requires 0 <= i < |bs| => if first <= i <= last then Spaces(n) + bs[i] else bs[i])
  }

  /** An empty range of blocks indents nothing. */
  lemma {:induction false} IndentedNone(bs: seq<string>, first: int, n: nat)
    ensures IndentedBlocks(bs, first, first - 1, n) == bs
  {
  }

  /** Indenting one more block of the range. */
  lemma {:induction false} IndentedStep(bs: seq<string>, first: int, last: int, n: nat)
    requires first <= last + 1 && 0 <= last + 1 < |bs|
    ensures IndentedBlocks(bs, first, last + 1, n)
         == IndentedBlocks(bs, first, last, n)[last + 1 := Spaces(n) + bs[last + 1]]
  {
  }

  /** How many leading spaces unindent(numChars) takes from a selected line. */
  function RemovedIndent(s: string, numChars: int): (k: nat)
    ensures k <= |s| && (forall i :: 0 <= i < k ==> s[i] == ' ')
    ensures numChars <= 0 ==> k == 0
    ensures numChars > 0 ==> k == Min(numChars, Indentation(s))
  {
    if numChars <= 0 then 0 else Min(numChars, Indentation(s))
  }

  /** The blocks first..last without their removed indentation: unindent() of a selection. */
  function UnindentedBlocks(bs: seq<string>, first: int, last: int, numChars: int): (r: seq<string>)
    ensures |r| == |bs|
  {
    seq(|bs|, i requires 0 <= i < |bs| => if first <= i <= last then bs[i][RemovedIndent(bs[i], numChars)..] else bs[i])
  }

  lemma {:induction false} UnindentedNone(bs: seq<string>, first: int, numChars: int)
    ensures UnindentedBlocks(bs, first, first - 1, numChars) == bs
  {
  }

  lemma {:induction false} UnindentedStep(bs: seq<string>, first: int, last: int, numChars: int)
    requires first <= last + 1 && 0 <= last + 1 < |bs|
    ensures UnindentedBlocks(bs, first, last + 1, numChars)
         == UnindentedBlocks(bs, first, last, numChars)[last + 1 := bs[last + 1][RemovedIndent(bs[last + 1], numChars)..]]
  {
  }

  /** Unindenting a line removes spaces only, and the indentation left is the old one minus those. */
  lemma {:induction false} UnindentRemovesSpacesOnly(s: string, numChars: int)
    ensures var k := RemovedIndent(s, numChars);
      s == Spaces(k) + s[k..] && Indentation(s[k..]) == Indentation(s) - k
  {
    var k := RemovedIndent(s, numChars);
    assert s[..k] == Spaces(k);
    assert s == s[..k] + s[k..];
    IndentationOfSuffix(s, k);
  }

  lemma {:induction false} IndentationOfSuffix(s: string, k: nat)
    requires k <= Indentation(s)
    ensures Indentation(s[k..]) == Indentation(s) - k
    decreases k
  {
    if k > 0 {
      assert s[1..][k - 1..] == s[k..];
      IndentationOfSuffix(s[1..], k - 1);
    }
  }

  /** Unindenting a selection by the amount it was just indented by gives the blocks back. */
  lemma {:induction false} UnindentUndoesIndent(bs: seq<string>, first: int, last: int, n: nat)
    requires n >= 1
    ensures UnindentedBlocks(IndentedBlocks(bs, first, last, n), first, last, n) == bs
  {
    var ind := IndentedBlocks(bs, first, last, n);
    forall i | 0 <= i < |bs| && first <= i <= last
      ensures ind[i][RemovedIndent(ind[i], n)..] == bs[i]
    {
      var t := Spaces(n) + bs[i];
      assert t[n..] == bs[i];
    }
  }

  /** ⌈a / n⌉ for a non-negative a: the integer form of qCeil((float) a / (float) n). */
  function CeilDiv(a: nat, n: int): int
    requires n >= 1
  {
    (a + n - 1) / n
  }

  lemma {:induction false} MulSign(a: int, n: int)
    requires n >= 1
    ensures a >= 1 ==> a * n >= n
    ensures a <= 0 ==> a * n <= 0
    decreases if a >= 0 then a else -a
  {
    if a > 1 {
      MulSign(a - 1, n);
      assert a * n == (a - 1) * n + n;
    } else if a < 0 {
      MulSign(a + 1, n);
      assert a * n == (a + 1) * n - n;
    }
  }

  /** Division with remainder is unique. */
  lemma {:induction false} DivMod(x: int, n: int, q: int, r: int)
    requires n >= 1 && 0 <= r < n && x == q * n + r
    ensures x / n == q && x % n == r
  {
    var q', r' := x / n, x % n;
    assert (q - q') * n == r' - r;
    MulSign(q - q', n);
    MulSign(q' - q, n);
  }

  /** The spaces indent(numChars) inserts at column pos when nothing is selected. */
  function IndentWidth(pos: nat, numChars: int): (k: int)
    requires numChars >= 1
    ensures k == numChars - pos % numChars
  {
    var numSpaces := CeilDiv(pos, numChars) * numChars - pos;
    NextStop(pos, numChars);
    if numSpaces == 0 then numChars else numSpaces
  }

  /** The source's ceiling formula is the distance to the next multiple of n. */
  lemma {:induction false} NextStop(pos: nat, n: int)
    requires n >= 1
    ensures var s := CeilDiv(pos, n) * n - pos;
      s == (if pos % n == 0 then 0 else n - pos % n)
  {
    var q, r := pos / n, pos % n;
    if r == 0 {
      DivMod(pos + n - 1, n, q, n - 1);
    } else {
      DivMod(pos + n - 1, n, q + 1, r - 1);
      assert (q + 1) * n == q * n + n;
    }
  }

  /** The column after an indent at the cursor is the next tab stop strictly after the old one. */
  lemma {:induction false} IndentReachesNextStop(pos: nat, numChars: int)
    requires numChars >= 1
    ensures var c := pos + IndentWidth(pos, numChars);
      pos < c <= pos + numChars && c % numChars == 0
      && forall d :: pos < d < c ==> d % numChars != 0
  {
    var q, r := pos / numChars, pos % numChars;
    var c := pos + IndentWidth(pos, numChars);
    assert c == (q + 1) * numChars by {
      assert (q + 1) * numChars == q * numChars + numChars;
    }
    DivMod(c, numChars, q + 1, 0);
    forall d | pos < d < c
      ensures d % numChars != 0
    {
      DivMod(d, numChars, q, d - q * numChars);
    }
  }

  /** How far unindent at column pos may go back: to the previous multiple of unit, or a whole unit from one. */
  function StopDistance(pos: nat, unit: int): (d: nat)
    requires unit >= 1
    ensures d <= pos && d <= unit
    ensures pos > 0 ==> d >= 1
    ensures (pos - d) % unit == 0
  {
    var numBackspaces := pos - pos / unit * unit;
    var q := pos / unit;
    MulSign(q, unit);
    MulSign(q - 1, unit);
    assert (q - 1) * unit == q * unit - unit;
    DivMod(pos - numBackspaces, unit, q, 0);
    if numBackspaces == 0 && pos > 0 then
      DivMod(pos - unit, unit, q - 1, 0);
      unit
    else numBackspaces
  }

  /** The spaces unindent at the cursor removes: spaces only, up to the stop distance. */
  function Backspaces(text: string, pos: nat, unit: int): (k: nat)
    requires pos <= |text| && unit >= 1
    ensures k <= StopDistance(pos, unit)
    ensures forall i :: pos - k <= i < pos ==> text[i] == ' '
    ensures k < StopDistance(pos, unit) ==> text[pos - 1 - k] != ' '
  {
    Min(StopDistance(pos, unit), TrailingSpaces(text[..pos]))
  }

  /**
   * unindent(numChars) at the cursor as written: the stop distance is taken from the
   * editor's indent size, so the argument has no effect on this path.
   */
  function CursorUnindentAsWritten(text: string, pos: nat, numChars: int, indentSize: int): (k: nat)
    requires pos <= |text| && indentSize >= 1
  {
    Backspaces(text, pos, indentSize)
  }

  /** unindent(numChars) at the cursor with the stop distance taken from numChars. */
  function CursorUnindent(text: string, pos: nat, numChars: int): (k: nat)
    requires pos <= |text|
    ensures numChars <= 0 ==> k == 0
    ensures numChars >= 1 ==> k <= numChars && k <= pos
    ensures forall i :: pos - k <= i < pos ==> text[i] == ' '
  {
    if numChars >= 1 then Backspaces(text, pos, numChars) else 0
  }

  /** Shift+Unindent (unindent(1)) with indent size 4 on "    x" at column 4 removes all four spaces. */
  lemma {:induction false} UnindentByOneRemovesIndentSize()
    ensures CursorUnindentAsWritten("    x", 4, 1, 4) == 4
    ensures CursorUnindent("    x", 4, 1) == 1
  {
    var t := "    x";
    assert t[..4] == "    ";
    assert TrailingSpaces(t[..4]) == 4;
  }

  /** With the indent size as argument the two agree: unindent() is unaffected. */
  lemma {:induction false} UnindentAgreesOnIndentSize(text: string, pos: nat, indentSize: int)
    requires pos <= |text| && indentSize >= 1
    ensures CursorUnindent(text, pos, indentSize) == CursorUnindentAsWritten(text, pos, indentSize, indentSize)
  {
  }

  /** Whether "%1" starts at index i. */
  predicate MarkerAt(f: string, i: int)
  {
    0 <= i && i + 2 <= |f| && f[i] == '%' && f[i + 1] == '1'
  }

  /** QString::indexOf("%1"), or -1. */
  function IndexOfMarker(f: string): (r: int)
    ensures -1 <= r <= |f| - 2 || r == -1
    ensures r >= 0 ==> MarkerAt(f, r) && forall i :: 0 <= i < r ==> !MarkerAt(f, i)
    ensures r == -1 <==> forall i :: 0 <= i < |f| ==> !MarkerAt(f, i)
  {
    if |f| < 2 then -1
    else if MarkerAt(f, 0) then 0
    else
      var r := IndexOfMarker(f[1..]);
      assert forall i :: 1 <= i < |f| ==> (MarkerAt(f, i) <==> MarkerAt(f[1..], i - 1));
      if r == -1 then -1 else r + 1
  }

  /** QString::arg: every "%1" of the format replaced by a (the result is not scanned again). */
  function Arg(f: string, a: string): string
  {
    if |f| < 2 then f
    else if MarkerAt(f, 0) then a + Arg(f[2..], a)
    else [f[0]] + Arg(f[1..], a)
  }

  /** A format without a marker comes back unchanged. */
  lemma {:induction false} ArgWithoutMarker(f: string, a: string)
    requires forall i :: 0 <= i < |f| ==> !MarkerAt(f, i)
    ensures Arg(f, a) == f
  {
    if |f| >= 2 {
      assert forall i :: 0 <= i < |f| - 1 ==> (MarkerAt(f[1..], i) <==> MarkerAt(f, i + 1));
      ArgWithoutMarker(f[1..], a);
      assert [f[0]] + f[1..] == f;
    }
  }

  /** The text before the first marker is copied as is. */
  lemma {:induction false} ArgCopiesPrefix(f: string, a: string, k: nat)
    requires k <= |f| && forall i :: 0 <= i < k ==> !MarkerAt(f, i)
    ensures Arg(f, a) == f[..k] + Arg(f[k..], a)
    decreases k
  {
    if k > 0 && |f| < 2 {
      assert f[..k] == f && f[k..] == [];
    } else if k > 0 {
      var tail := f[1..];
      ArgStep(f, a);
      MarkersOfTail(f, k);
      ArgCopiesPrefix(tail, a, k - 1);
      PrefixOfTail(f, k);
      Associative([f[0]], tail[..k - 1], Arg(f[k..], a));
    }
  }

  /** A format holding exactly one "%1". */
  predicate SingleMarker(f: string)
  {
    IndexOfMarker(f) >= 0 && forall i :: IndexOfMarker(f) + 2 <= i < |f| ==> !MarkerAt(f, i)
  }

  /** With one marker, the argument (breaks written as U+2029) is found where the marker was. */
  lemma {:induction false} NormalizedArgSlice(f: string, a: string)
    requires SingleMarker(f)
    ensures var k := IndexOfMarker(f);
      |Arg(f, a)| == |f| - 2 + |a| && Normalize(Arg(f, a))[k..k + |a|] == Normalize(a)
  {
    var k := IndexOfMarker(f);
    ArgOfSingleMarker(f, a);
    NormalizeConcat(f[..k] + a, f[k + 2..]);
    NormalizeConcat(f[..k], a);
    var z: nat :| z == 0;
    SliceOfMiddle(Normalize(f[..k]), Normalize(a), Normalize(f[k + 2..]), z, |a|);
    assert Normalize(a)[z..|a|] == Normalize(a);
  }

  /** A format that does not start with a marker: its first character is copied. */
  lemma {:induction false} ArgStep(f: string, a: string)
    requires |f| >= 2 && !MarkerAt(f, 0)
    ensures Arg(f, a) == [f[0]] + Arg(f[1..], a)
  {
  }

  /** No marker among the first k positions: none among the first k - 1 of the tail. */
  lemma {:induction false} MarkersOfTail(f: string, k: nat)
    requires 0 < k <= |f| && forall i :: 0 <= i < k ==> !MarkerAt(f, i)
    ensures forall i :: 0 <= i < k - 1 ==> !MarkerAt(f[1..], i)
  {
    forall i | 0 <= i < k - 1
      ensures !MarkerAt(f[1..], i)
    {
      assert !MarkerAt(f, i + 1);
    }
  }

  /** The first k characters are the first one and k - 1 of the tail; the rest is the tail's rest. */
  lemma {:induction false} PrefixOfTail(f: string, k: nat)
    requires 0 < k <= |f|
    ensures [f[0]] + f[1..][..k - 1] == f[..k] && f[1..][k - 1..] == f[k..]
  {
  }

  /** A format with exactly one marker: the argument stands where the marker stood. */
  lemma {:induction false} ArgOfSingleMarker(f: string, a: string)
    requires SingleMarker(f)
    ensures var k := IndexOfMarker(f);
      Arg(f, a) == f[..k] + a + f[k + 2..]
  {
    var k := IndexOfMarker(f);
    ArgCopiesPrefix(f, a, k);
    var rest := f[k..];
    assert rest[2..] == f[k + 2..];
    assert forall i :: 0 <= i < |rest[2..]| ==> (MarkerAt(rest[2..], i) <==> MarkerAt(f, k + 2 + i));
    ArgWithoutMarker(rest[2..], a);
  }

  /** Each piece with the pad in front: the lines indentText produces. */
  function Padded(lines: seq<string>, pad: string): (r: seq<string>)
    ensures |r| == |lines|
  {
    seq(|lines|, i requires 0 <= i < |lines| => pad + lines[i])
  }

  /** Padding every piece of a text and joining them again: the pieces come back padded, and cutting the pad off gives the text back. */
  lemma {:induction false} PaddedLines(text: string, n: nat)
    ensures var lines := Padded(Split(text), Spaces(n));
      && Split(Join(lines)) == lines
      && Join(seq(|lines|, i requires 0 <= i < |lines| => lines[i][n..])) == text
  {
    var pieces := Split(text);
    var pad := Spaces(n);
    var lines := Padded(pieces, pad);
    forall i | 0 <= i < |lines|
      ensures ParagraphSeparator !in lines[i] && lines[i][n..] == pieces[i]
    {
      assert lines[i] == pad + pieces[i];
      assert forall k :: 0 <= k < |lines[i]| ==> lines[i][k] == if k < n then ' ' else pieces[i][k - n];
    }
    SplitOfJoin(lines);
    assert seq(|lines|, i requires 0 <= i < |lines| => lines[i][n..]) == pieces;
    JoinOfSplit(text);
  }

  /** ensureEmptyLines, the part before the selection: an empty block put in front of block b unless b is the first block or the block above it is blank. */
  function EmptyLineBefore(bs: seq<string>, b: nat): (r: seq<string>)
    requires b < |bs|
  {
    if b > 0 && !IsBlank(bs[b - 1]) then WithEmptyBlock(bs, b) else bs
  }

  /**
   * Block b (now at b + d, d the number of blocks added) is first or follows a blank block; a block is
   * added exactly when it was neither; taking it out again gives the blocks back; a second pass adds nothing.
   */
  lemma {:induction false} EmptyLineBeforeProperties(bs: seq<string>, b: nat)
    requires b < |bs|
    ensures var r := EmptyLineBefore(bs, b);
      var d := |r| - |bs|;
      && (d == 0 || d == 1) && r[b + d] == bs[b]
      && (b + d == 0 || IsBlank(r[b + d - 1]))
      && (d == 0 <==> b == 0 || IsBlank(bs[b - 1]))
      && (d == 0 ==> r == bs)
      && (d == 1 ==> r[..b] + r[b + 1..] == bs)
      && EmptyLineBefore(r, b + d) == r
  {
    var r := EmptyLineBefore(bs, b);
    if r != bs {
      assert r[..b] == bs[..b] && r[b + 1..] == bs[b..];
      assert bs[..b] + bs[b..] == bs;
    }
  }

  /** ensureEmptyLines, the part after the selection: an empty block put in after block e unless e is the last block or the block below it is blank. */
  function EmptyLineAfter(bs: seq<string>, e: nat): (r: seq<string>)
    requires e < |bs|
  {
    if e + 1 < |bs| && !IsBlank(bs[e + 1]) then WithEmptyBlock(bs, e + 1) else bs
  }

  /**
   * Blocks up to e stay where they were; block e is last or followed by a blank block; a block is added
   * exactly when it was neither; taking it out again gives the blocks back; a second pass adds nothing.
   */
  lemma {:induction false} EmptyLineAfterProperties(bs: seq<string>, e: nat)
    requires e < |bs|
    ensures var r := EmptyLineAfter(bs, e);
      var d := |r| - |bs|;
      && (d == 0 || d == 1) && r[..e + 1] == bs[..e + 1]
      && (e + 1 == |r| || IsBlank(r[e + 1]))
      && (d == 0 <==> e + 1 == |bs| || IsBlank(bs[e + 1]))
      && (d == 0 ==> r == bs)
      && (d == 1 ==> r[..e + 1] + r[e + 2..] == bs)
      && EmptyLineAfter(r, e) == r
  {
    var r := EmptyLineAfter(bs, e);
    if r != bs {
      assert r[..e + 1] == bs[..e + 1] && r[e + 2..] == bs[e + 1..];
      assert bs[..e + 1] + bs[e + 1..] == bs;
    }
  }

  /** The number of blocks EmptyLineBefore adds (0 or 1), and the characters: one break each. */
  function AddedBefore(bs: seq<string>, b: nat): (d: nat)
    requires b < |bs|
    ensures |EmptyLineBefore(bs, b)| == |bs| + d && d <= 1
    ensures Length(EmptyLineBefore(bs, b)) == Length(bs) + d
  {
    if b > 0 && !IsBlank(bs[b - 1]) then LengthAfterEmpty(bs, b); 1 else 0
  }

  /**
   * ensureEmptyLines(before, after) for a selection [start, end]: the selection's end moves on by
   * the break put in before it, and its block is looked up again for the empty line after it.
   */
  function EmptyLines(bs: seq<string>, start: int, end: int, before: bool, after: bool): (r: seq<string>)
    requires WellFormed(bs) && 0 <= start <= end <= Length(bs)
    ensures WellFormed(r)
  {
    var first := FindBlock(bs, start);
    var mid := if before then EmptyLineBefore(bs, first) else bs;
    var d := if before then AddedBefore(bs, first) else 0;
    if after then EmptyLineAfter(mid, FindBlock(mid, end + d)) else mid
  }

  /** The text formatSelectionAsHeading puts in: an optional overline, the title, the underline, the lines as long as the title times the symbol. */
  function HeadingText(text: string, symbol: string, overline: bool): string
  {
    var line := Repeat(symbol, |text|);
    (if overline then line + "\n" else "") + text + "\n" + line
  }

  /** Repeating text without breaks gives text without breaks. */
  lemma {:induction false} RepeatFree(s: string, times: nat)
    requires SeparatorFree(s)
    ensures SeparatorFree(Repeat(s, times))
  {
    if times > 0 {
      RepeatFree(s, times - 1);
      var r := Repeat(s, times);
      assert forall i :: 0 <= i < |r| ==> r[i] == if i < |s| then s[i] else Repeat(s, times - 1)[i - |s|];
    }
  }

  /** A one-line title and symbol make a heading of two lines, or three with an overline: line, title, line. */
  lemma {:induction false} HeadingLines(text: string, symbol: string, overline: bool)
    requires SeparatorFree(text) && SeparatorFree(symbol)
    ensures var line := Repeat(symbol, |text|);
      && |line| == |symbol| * |text|
      && Lines(HeadingText(text, symbol, overline)) == (if overline then [line] else []) + [text, line]
  {
    var line := Repeat(symbol, |text|);
    RepeatFree(symbol, |text|);
    LinesOfFree(line);
    LinesOfFree(text);
    var lf := '\n';
    LinesAtBreak(text, lf, line);
    assert text + "\n" + line == text + [lf] + line;
    if overline {
      var rest := text + "\n" + line;
      assert HeadingText(text, symbol, overline) == line + [lf] + rest;
      LinesAtBreak(line, lf, rest);
    } else {
      assert HeadingText(text, symbol, overline) == text + "\n" + line;
    }
  }

  /** The selection formatSelectionAsHeading makes, from after the overline to before the underline, is the title. */
  lemma {:induction false} HeadingSelectsTitle(text: string, symbol: string, overline: bool, left: int, right: int)
    requires forall i :: 0 <= i < |text| ==> text[i] != '\n'
    requires right == |Repeat(symbol, |text|)| + 1 && left == (if overline then right else 0)
    ensures 0 <= left && 0 <= right && left + right <= |HeadingText(text, symbol, overline)|
    ensures Normalize(HeadingText(text, symbol, overline))[left..|HeadingText(text, symbol, overline)| - right] == text
  {
    NormalizeFixed(text);
    var line := Repeat(symbol, |text|);
    var pre := if overline then line + "\n" else "";
    var post := "\n" + line;
    var h := HeadingText(text, symbol, overline);
    assert h == pre + text + post;
    NormalizeConcat(pre + text, post);
    NormalizeConcat(pre, text);
    var z: nat :| z == 0;
    SliceOfMiddle(Normalize(pre), Normalize(text), Normalize(post), z, |text|);
    assert Normalize(text)[z..|text|] == Normalize(text);
  }
}
