/** How the engine sees its own reverts.  Reverting hunks is a user edit like any other:
    its character edits are widened to rows and rebased.  This module finds the rows
    they are widened to, and exactly when such an edit conflicts with its own hunk. */
module RevertRows {
  import opened RopeText
  import opened Patches
  import Conflicts
  import Rebase
  import opened PointEdits
  import SnapshotDiffs
  import opened TextEdits
  import opened Reverts
  import opened PatchParts

  /** The character edits that a batch of text edits reports, with the offsets of the
      new text; `d` is the growth of the edits in front. */
  function CharEdits(es: seq<TextEdit>, d: int): (r: seq<Edit>)
    ensures |r| == |es|
  {
    if es == [] then []
    else
      [Edit(Span(es[0].start, es[0].end), Span(es[0].start + d, es[0].start + d + |es[0].text|))]
      + CharEdits(es[1..], d + es[0].Growth())
  }

  lemma {:induction false} CharEditsLink(t: Rope, es: seq<TextEdit>, i: int, x: Rope, d: int)
    requires Ordered(es, |t|, i)
    requires 0 <= i + d <= |x| && x[i + d..] == ApplyEdits(t, es, i)
    ensures LinksFrom(t, CharEdits(es, d), x, i, i + d)
    decreases |es|
  {
    hide LinksFrom, ApplyEdits, CharEdits, Ordered;
    if es == [] {
      NoCharEdits(t, i, x, d);
    } else {
      var e, rest := es[0], CharEdits(es[1..], d + es[0].Growth());
      FirstApplied(t, es, i, x, d);
      FirstInside(es, |t|, i);
      CharEditsLink(t, es[1..], e.end, x, d + e.Growth());
      CharEditsFirst(es, d);
      LinksCons(t, CharEdits(es, d)[0], rest, x, i, i + d);
    }
  }

  lemma NoCharEdits(t: Rope, i: int, x: Rope, d: int)
    requires Ordered([], |t|, i)
    requires 0 <= i + d <= |x| && x[i + d..] == ApplyEdits(t, [], i)
    ensures LinksFrom(t, CharEdits([], d), x, i, i + d)
  {}

  lemma CharEditsFirst(es: seq<TextEdit>, d: int)
    requires es != []
    ensures CharEdits(es, d) ==
      [Edit(Span(es[0].start, es[0].end), Span(es[0].start + d, es[0].start + d + |es[0].text|))]
      + CharEdits(es[1..], d + es[0].Growth())
  {}

  lemma FirstInside(es: seq<TextEdit>, n: nat, i: int)
    requires es != [] && Ordered(es, n, i)
    ensures 0 <= i <= es[0].start <= es[0].end <= n && Ordered(es[1..], n, es[0].end)
  {}

  lemma {:induction false} CharEditsOlds(es: seq<TextEdit>, d: int)
    ensures forall k :: 0 <= k < |es| ==> CharEdits(es, d)[k].oldRows == Span(es[k].start, es[k].end)
    decreases |es|
  {
    if es != [] {
      CharEditsOlds(es[1..], d + es[0].Growth());
      assert CharEdits(es, d)[1..] == CharEdits(es[1..], d + es[0].Growth());
      assert forall k :: 1 <= k < |es| ==>
        es[k] == es[1..][k - 1] && CharEdits(es, d)[k] == CharEdits(es, d)[1..][k - 1];
    }
  }

  lemma {:induction false} OrderedApart(es: seq<TextEdit>, n: nat, i: int)
    requires Ordered(es, n, i)
    ensures forall k :: 0 < k < |es| ==> es[k - 1].end < es[k].start
    decreases |es|
  {
    if |es| > 1 {
      var rest := es[1..];
      OrderedApart(rest, n, es[0].end);
      forall k | 0 < k < |es| ensures es[k - 1].end < es[k].start {
        if k > 1 { assert rest[k - 2].end < rest[k - 1].start; }
      }
    }
  }

  /** A batch of edits is reported as the character patch it is. */
  lemma BatchIsEditsSince(t: Rope, es: seq<TextEdit>)
    requires Ordered(es, |t|, 0)
    ensures SnapshotDiffs.EditsSince(t, CharEdits(es, 0), ApplyEdits(t, es, 0))
  {
    CharEditsLink(t, es, 0, ApplyEdits(t, es, 0), 0);
    OrderedApart(es, |t|, 0);
    CharEditsOlds(es, 0);
  }

  // ---- Line starts ----------------------------------------------------------------------

  /** The end of the text is the start of a line. */
  predicate LineStart(t: Rope) { Last(Rows(t)) == "" }

  lemma LineStartAppend(a: Rope, b: Rope)
    requires LineStart(b) && (b == "" ==> LineStart(a))
    ensures LineStart(a + b)
  {
    Glue(a, b);
    if Newlines(b) == 0 {
      JoinRows(b);
    }
  }

  lemma LineStartTail(t: Rope, i: int, o: int)
    requires 0 <= i < o <= |t| && LineStart(t[..o])
    ensures LineStart(t[i..o])
  {
    var l, g := t[..i], t[i..o];
    assert l + g == t[..o];
    Glue(l, g);
    if Newlines(g) == 0 {
      JoinRows(g);
    }
  }

  lemma {:induction false} LinesAreLines(rows: seq<string>)
    requires NewlineFree(rows)
    ensures LineStart(Lines(rows)) && Newlines(Lines(rows)) == |rows|
  {
    if rows == [] {
      RowsOfOne("");
    } else {
      LinesAreLines(rows[1..]);
      RowsOfFirst(rows[0], Lines(rows[1..]));
    }
  }

  /** A row starts at its own row and column 0. */
  lemma RowStartPoint(t: Rope, row: nat)
    requires row < RowCount(t)
    ensures RowAt(t, RowStart(t, row)) == row && LineStart(t[..RowStart(t, row)])
    ensures ColumnAt(t, RowStart(t, row)) == 0
  {
    CutAt(t, row);
    LinesAreLines(Rows(t)[..row]);
  }

  lemma EndPoint(t: Rope)
    ensures RowAt(t, |t|) == RowCount(t) - 1 && ColumnAt(t, |t|) == |Last(Rows(t))|
  {
    assert t[..|t|] == t;
  }

  // ---- The new end of a revert -----------------------------------------------------------

  /** Text `x` up to offset `o` ends with the text `y`. */
  ghost predicate EndsWith(x: Rope, o: int, y: Rope) {
    |y| <= o <= |x| && x[o - |y|..o] == y
  }

  /** In front of edit `k` some text is kept, unless the edit is the first and at the
      very start; behind it comes its own text. */
  lemma {:induction false} AroundEdit(t: Rope, es: seq<TextEdit>, i: int, x: Rope, d: int, k: nat) returns (from: int)
    requires Ordered(es, |t|, i) && k < |es|
    requires 0 <= i + d <= |x| && x[i + d..] == ApplyEdits(t, es, i)
    ensures from <= es[k].start <= |t| && (if k == 0 then from == i else 0 <= i <= from < es[k].start)
    ensures var e := CharEdits(es, d)[k];
            && e.oldRows == Span(es[k].start, es[k].end)
            && 0 <= i + d <= e.newRows.start && e.newRows.Len() == |es[k].text| && e.newRows.end <= |x|
            && (k == 0 ==> e.newRows.start == es[0].start + d)
            && x[e.newRows.start..e.newRows.end] == es[k].text
            && EndsWith(x, e.newRows.start, t[from..es[k].start])
    decreases k
  {
    FirstApplied(t, es, i, x, d);
    assert CharEdits(es, d)[1..] == CharEdits(es[1..], d + es[0].Growth());
    if k == 0 {
      from := i;
      FirstText(t, es, i, x, d);
    } else {
      from := AroundEdit(t, es[1..], es[0].end, x, d + es[0].Growth(), k - 1);
      assert CharEdits(es, d)[k] == CharEdits(es, d)[1..][k - 1];
    }
  }

  lemma FirstText(t: Rope, es: seq<TextEdit>, i: int, x: Rope, d: int)
    requires es != [] && Ordered(es, |t|, i)
    requires 0 <= i + d <= |x| && x[i + d..] == ApplyEdits(t, es, i)
    ensures es[0].start + d + |es[0].text| <= |x|
    ensures x[es[0].start + d..es[0].start + d + |es[0].text|] == es[0].text
  {}

  lemma LastAppend(a: Rope, b: Rope)
    requires LineStart(a)
    ensures Last(Rows(a + b)) == Last(Rows(b))
  {
    Glue(a, b);
    assert "" + Rows(b)[0] == Rows(b)[0];
  }

  /** The text in front of an edit at the start of a line ends at the start of a line. */
  lemma InFrontOfEdit(t: Rope, x: Rope, from: int, start: int, newStart: int)
    requires 0 <= from <= start <= |t| && LineStart(t[..start])
    requires EndsWith(x, newStart, t[from..start])
    requires from == start ==> newStart == 0
    ensures LineStart(x[..newStart])
  {
    var kept := t[from..start];
    assert x[..newStart] == x[..newStart - |kept|] + kept;
    if from < start {
      LineStartTail(t, from, start);
      LineStartAppend(x[..newStart - |kept|], kept);
    } else {
      RowsOfOne("");
      assert x[..newStart] == "";
    }
  }

  // ---- The row edit of a revert ------------------------------------------------------------

  ghost predicate Reverting(base: Rope, snap: Rope, hs: seq<Edit>, k: nat) {
    HunksFit(hs, RowCount(base), RowCount(snap)) && k < |hs|
  }

  /** The character edit that reverting hunk `k` of `hs` reports. */
  ghost function RevertChar(base: Rope, snap: Rope, hs: seq<Edit>, k: nat): Edit
    requires Reverting(base, snap, hs, k)
  {
    RevertEditsCount(base, snap, hs);
    CharEdits(RevertEdits(base, snap, hs), 0)[k]
  }

  ghost function Reverted(base: Rope, snap: Rope, hs: seq<Edit>): Rope
    requires HunksFit(hs, RowCount(base), RowCount(snap))
  {
    RevertsSplice(base, snap, hs);
    ApplyEdits(snap, RevertEdits(base, snap, hs), 0)
  }

  lemma {:induction false} RevertEditsCount(base: Rope, snap: Rope, hs: seq<Edit>)
    requires HunksFit(hs, RowCount(base), RowCount(snap))
    ensures |RevertEdits(base, snap, hs)| == |hs|
  {
    if hs != [] {
      RevertEditsCount(base, snap, hs[1..]);
    }
  }

  lemma {:induction false} RevertEditAt(base: Rope, snap: Rope, hs: seq<Edit>, k: nat)
    requires Reverting(base, snap, hs, k)
    ensures HunkFits(hs[k], RowCount(base), RowCount(snap)) && k < |RevertEdits(base, snap, hs)|
    ensures RevertEdits(base, snap, hs)[k] == RevertEdit(base, snap, hs[k])
    decreases k
  {
    if k > 0 {
      RevertEditAt(base, snap, hs[1..], k - 1);
      assert RevertEdits(base, snap, hs)[1..] == RevertEdits(base, snap, hs[1..]);
    }
  }

  /** Where the character edit of a revert starts and ends, in the new text. */
  lemma RevertCharNew(base: Rope, snap: Rope, hs: seq<Edit>, k: nat)
    requires Reverting(base, snap, hs, k)
    ensures HunkFits(hs[k], RowCount(base), RowCount(snap))
    ensures var e, x := RevertChar(base, snap, hs, k), Reverted(base, snap, hs);
            && InTexts(e, snap, x)
            && e.oldRows == Span(RowStart(snap, hs[k].newRows.start), RowEnd(snap, hs[k].newRows.end))
            && LineStart(x[..e.newRows.start])
            && x[e.newRows.start..e.newRows.end] == SliceRows(base, hs[k].oldRows.start, hs[k].oldRows.end)
  {
    hide *;
    RevertingIs(base, snap, hs, k);
    var es := RevertEdits(base, snap, hs);
    RevertsSplice(base, snap, hs);
    RevertEditAt(base, snap, hs, k);
    RevertCharIs(base, snap, hs, k);
    var x := Reverted(base, snap, hs);
    assert x[0..] == x;
    var from := AroundEdit(snap, es, 0, x, 0, k);
    HunkFitsIs(base, snap, hs[k]);
    var start := RowStart(snap, hs[k].newRows.start);
    RowStartPoint(snap, hs[k].newRows.start);
    OrderedInside(es, |snap|, 0);
    InFrontOfEdit(snap, x, from, start, RevertChar(base, snap, hs, k).newRows.start);
    MakeInTexts(RevertChar(base, snap, hs, k), snap, x);
  }

  lemma MakeInTexts(e: Edit, t: Rope, x: Rope)
    requires 0 <= e.oldRows.start <= e.oldRows.end <= |t| && 0 <= e.newRows.start && e.newRows.end <= |x|
    requires e.newRows.Len() >= 0
    ensures InTexts(e, t, x)
    ensures e.newRows.start <= e.newRows.end
  {
  }

  lemma HunkFitsIs(base: Rope, snap: Rope, h: Edit)
    requires HunkFits(h, RowCount(base), RowCount(snap))
    ensures 0 <= h.oldRows.start <= h.oldRows.end <= RowCount(base) && h.oldRows.start < RowCount(base)
    ensures 0 <= h.newRows.start <= h.newRows.end <= RowCount(snap) && h.newRows.start < RowCount(snap)
    ensures h.oldRows.end == RowCount(base) <==> h.newRows.end == RowCount(snap)
    ensures RevertEdit(base, snap, h)
            == TextEdit(RowStart(snap, h.newRows.start), RowEnd(snap, h.newRows.end),
                        SliceRows(base, h.oldRows.start, h.oldRows.end))
  {
  }

  lemma RevertingIs(base: Rope, snap: Rope, hs: seq<Edit>, k: nat)
    requires Reverting(base, snap, hs, k)
    ensures HunksFit(hs, RowCount(base), RowCount(snap)) && k < |hs|
  {
  }

  lemma RevertCharIs(base: Rope, snap: Rope, hs: seq<Edit>, k: nat)
    requires Reverting(base, snap, hs, k)
    ensures Ordered(RevertEdits(base, snap, hs), |snap|, 0) && |RevertEdits(base, snap, hs)| == |hs|
    ensures RevertChar(base, snap, hs, k) == CharEdits(RevertEdits(base, snap, hs), 0)[k]
    ensures Reverted(base, snap, hs) == ApplyEdits(snap, RevertEdits(base, snap, hs), 0)
  {
    RevertsSplice(base, snap, hs);
    RevertEditsCount(base, snap, hs);
  }

  /** Both texts end in an empty row, and the hunk reaches the end. */
  predicate TrailingBlank(base: Rope, snap: Rope, h: Edit) {
    h.newRows.end == RowCount(snap) && Last(Rows(snap)) == "" && Last(Rows(base)) == ""
  }

  /** The column where the reverted text ends. */
  lemma RevertEndColumn(base: Rope, snap: Rope, x: Rope, h: Edit, newStart: int, newEnd: int)
    requires HunkFits(h, RowCount(base), RowCount(snap))
    requires 0 <= newStart <= newEnd <= |x| && LineStart(x[..newStart])
    requires x[newStart..newEnd] == SliceRows(base, h.oldRows.start, h.oldRows.end)
    ensures h.newRows.end < RowCount(snap) ==> ColumnAt(x, newEnd) == 0
    ensures h.newRows.end == RowCount(snap) ==> ColumnAt(x, newEnd) == |Last(Rows(base))|
  {
    hide Rows, Lines, Join, SliceRows, RowStart, RowEnd;
    var a, b := x[..newStart], x[newStart..newEnd];
    assert x[..newEnd] == a + b;
    var i, j := h.oldRows.start, h.oldRows.end;
    SliceRowsIs(base, i, j);
    LastAppend(a, b);
    if j < RowCount(base) {
      LinesAreLines(Rows(base)[i..j]);
    } else {
      RowsJoin(Rows(base)[i..]);
    }
  }

  /** The rows that reverting a hunk is widened to: the hunk's own rows, but for the
      one-row shift in front of an empty line and for an empty row at the end. */
  lemma RevertRowEdit(base: Rope, snap: Rope, hs: seq<Edit>, k: nat)
    requires Reverting(base, snap, hs, k)
    ensures HunkFits(hs[k], RowCount(base), RowCount(snap))
    ensures InTexts(RevertChar(base, snap, hs, k), snap, Reverted(base, snap, hs))
    ensures var e, x, h := RevertChar(base, snap, hs, k), Reverted(base, snap, hs), hs[k].newRows;
            PointToRowEdit(e, snap, x).oldRows
            == if AtLineEnd(e, snap, x) then Span(h.start + 1, Rebase.Min(h.end, RowCount(snap) - 1) + 1)
               else if TrailingBlank(base, snap, hs[k]) then Span(h.start, h.end - 1)
               else h
  {
    hide Rows, RowStart, RowEnd, SliceRows, RevertEdits, ApplyEdits, HunksFit, Reverting, RevertChar, Reverted,
         AtLineEnd;
    RevertingIs(base, snap, hs, k);
    RevertCharNew(base, snap, hs, k);
    var e, x, h := RevertChar(base, snap, hs, k), Reverted(base, snap, hs), hs[k].newRows;
    RowStartPoint(snap, h.start);
    RevertEndColumn(base, snap, x, hs[k], e.newRows.start, e.newRows.end);
    if h.end < RowCount(snap) {
      RowEndInside(snap, h.end);
      RowStartPoint(snap, h.end);
    } else {
      RowEndLast(snap);
      EndPoint(snap);
    }
  }

  lemma RowEndLast(t: Rope)
    ensures RowEnd(t, RowCount(t)) == |t|
  {
  }

  // ---- Blank rows --------------------------------------------------------------------------

  /** A blank row with another row behind it. */
  predicate BlankAhead(t: Rope, row: int) { 0 <= row && row + 1 < RowCount(t) && Rows(t)[row] == "" }

  /** At the start of a line, a newline comes next exactly in front of a blank row. */
  lemma LineStartRow(t: Rope, o: int)
    requires 0 <= o <= |t| && LineStart(t[..o])
    ensures ColumnAt(t, o) == 0 && RowAt(t, o) < RowCount(t)
    ensures (o < |t| && t[o] == '\n') <==> BlankAhead(t, RowAt(t, o))
    ensures Rows(t)[RowAt(t, o)] == "" ==> (o < |t| <==> RowAt(t, o) + 1 < RowCount(t))
  {
    var front, rest := t[..o], t[o..];
    assert front + rest == t;
    Glue(front, rest);
    assert Rows(t)[RowAt(t, o)] == "" + Rows(rest)[0] == Rows(rest)[0];
    assert |Rows(t)| == RowAt(t, o) + |Rows(rest)|;
    FirstRow(rest);
    assert o < |t| ==> rest[0] == t[o];
  }

  lemma FirstRow(t: Rope)
    ensures (t != "" && t[0] == '\n') <==> |Rows(t)| > 1 && Rows(t)[0] == ""
    ensures Rows(t)[0] == "" ==> (t != "" <==> |Rows(t)| > 1)
  {}

  /** An edit that starts a line on both sides is moved one row down exactly if that row
      is blank in both texts, with another row behind it. */
  lemma AtLineEndRows(e: Edit, t: Rope, u: Rope)
    requires InTexts(e, t, u) && LineStart(t[..e.oldRows.start]) && LineStart(u[..e.newRows.start])
    ensures AtLineEnd(e, t, u) <==> BlankAhead(t, RowAt(t, e.oldRows.start)) && BlankAhead(u, RowAt(u, e.newRows.start))
  {
    LineStartRow(t, e.oldRows.start);
    LineStartRow(u, e.newRows.start);
  }

  /** Behind an edit its text goes on as before. */
  lemma {:induction false} BehindEdit(t: Rope, es: seq<TextEdit>, i: int, x: Rope, d: int, k: nat)
    requires Ordered(es, |t|, i) && k < |es|
    requires 0 <= i + d <= |x| && x[i + d..] == ApplyEdits(t, es, i)
    ensures 0 <= es[k].end <= |t|
    ensures var end := CharEdits(es, d)[k].newRows.end;
            && 0 <= end <= |x|
            && (end < |x| <==> es[k].end < |t|)
            && (end < |x| ==> x[end] == t[es[k].end])
    decreases k
  {
    var rest := es[1..];
    FirstApplied(t, es, i, x, d);
    if k == 0 {
      FirstKept(t, rest, es[0].end);
      var end := es[0].start + d + |es[0].text|;
      assert end == es[0].end + d + es[0].Growth();
      var tail := ApplyEdits(t, rest, es[0].end);
      assert x[end..] == tail;
      assert end < |x| ==> x[end] == tail[0];
    } else {
      assert CharEdits(es, d)[1..] == CharEdits(rest, d + es[0].Growth());
      BehindEdit(t, rest, es[0].end, x, d + es[0].Growth(), k - 1);
      assert CharEdits(es, d)[k] == CharEdits(es, d)[1..][k - 1];
    }
  }

  lemma FirstKept(t: Rope, es: seq<TextEdit>, i: int)
    requires Ordered(es, |t|, i) && (es != [] ==> i < es[0].start)
    ensures ApplyEdits(t, es, i) != "" <==> i < |t|
    ensures i < |t| ==> ApplyEdits(t, es, i)[0] == t[i]
  {}

  /** What follows the place of a reverted hunk in the buffer. */
  lemma RevertedNext(base: Rope, snap: Rope, hs: seq<Edit>, k: nat)
    requires Reverting(base, snap, hs, k)
    ensures HunkFits(hs[k], RowCount(base), RowCount(snap))
    ensures InTexts(RevertChar(base, snap, hs, k), snap, Reverted(base, snap, hs))
    ensures var end, x := RevertChar(base, snap, hs, k).newRows.end, Reverted(base, snap, hs);
            && (end < |x| <==> RowEnd(snap, hs[k].newRows.end) < |snap|)
            && (end < |x| ==> x[end] == snap[RowEnd(snap, hs[k].newRows.end)])
  {
    hide *;
    RevertingIs(base, snap, hs, k);
    RevertCharNew(base, snap, hs, k);
    RevertCharIs(base, snap, hs, k);
    RevertEditAt(base, snap, hs, k);
    HunkFitsIs(base, snap, hs[k]);
    var x := Reverted(base, snap, hs);
    assert x[0..] == x;
    BehindEdit(snap, RevertEdits(base, snap, hs), 0, x, 0, k);
  }

  /** The row of the base that stands at the start of a reverted hunk: its own first row,
      or the row kept behind it if it has none. */
  lemma RevertedStart(base: Rope, snap: Rope, hs: seq<Edit>, k: nat)
    requires Reverting(base, snap, hs, k)
    ensures HunkFits(hs[k], RowCount(base), RowCount(snap))
    ensures InTexts(RevertChar(base, snap, hs, k), snap, Reverted(base, snap, hs))
    ensures var start, x := RevertChar(base, snap, hs, k).newRows.start, Reverted(base, snap, hs);
            (start < |x| && x[start] == '\n') <==>
            if hs[k].oldRows.IsEmpty() then BlankAhead(snap, hs[k].newRows.end)
            else BlankAhead(base, hs[k].oldRows.start)
  {
    hide Rows, RowStart, RowEnd, SliceRows, RevertEdits, ApplyEdits, HunksFit, Reverting, RevertChar, Reverted,
         BlankAhead;
    RevertingIs(base, snap, hs, k);
    RevertCharNew(base, snap, hs, k);
    RevertedNext(base, snap, hs, k);
    var e, x, h := RevertChar(base, snap, hs, k), Reverted(base, snap, hs), hs[k];
    var text := SliceRows(base, h.oldRows.start, h.oldRows.end);
    assert text != "" ==> x[e.newRows.start] == text[0];
    if h.oldRows.IsEmpty() {
      NoRows(base, h.oldRows.start);
      RowEndInside(snap, h.newRows.end);
      RowStartPoint(snap, h.newRows.end);
      LineStartRow(snap, RowStart(snap, h.newRows.end));
    } else {
      FirstOfRows(base, h.oldRows.start, h.oldRows.end);
      if text == "" { RowEndLast(snap); }
    }
  }

  lemma NoRows(t: Rope, row: nat)
    requires row < RowCount(t)
    ensures SliceRows(t, row, row) == ""
  {
    SliceRowsIs(t, row, row);
  }

  /** Rows start with a newline exactly if the first is blank and not the last of all. */
  lemma FirstOfRows(t: Rope, start: nat, end: nat)
    requires start < end <= RowCount(t)
    ensures var text := SliceRows(t, start, end);
            && ((text != "" && text[0] == '\n') <==> BlankAhead(t, start))
            && (text == "" ==> end == RowCount(t))
  {
    SliceRowsIs(t, start, end);
    var rows := Rows(t)[start..end];
    if end < RowCount(t) {
      assert Lines(rows) == rows[0] + "\n" + Lines(rows[1..]);
    } else {
      assert Rows(t)[start..] == rows;
    }
  }

  // ---- When a revert meets its hunk ----------------------------------------------------------

  /** The reverts that are moved off their hunk, by the rows of base and snapshot: the hunk
      has at most one row in the snapshot and starts at a blank row of both texts, or it
      is the single blank row at the end of both. */
  predicate Slips(base: Rope, snap: Rope, h: Edit) {
    || (BlankAhead(base, h.oldRows.start) && BlankAhead(snap, h.newRows.start) && h.newRows.Len() <= 1)
    || (TrailingBlank(base, snap, h) && h.newRows.Len() == 1)
  }

  /** A row is kept behind a hunk that does not reach the end. */
  lemma KeptBehind<T>(a: seq<T>, p: seq<Edit>, b: seq<T>, k: nat)
    requires PatchBetween(a, p, b) && k < |p| && p[k].oldRows.end < |a|
    ensures 0 <= p[k].oldRows.end && 0 <= p[k].newRows.end < |b| && a[p[k].oldRows.end] == b[p[k].newRows.end]
    ensures p[k].oldRows.end + 1 == |a| <==> p[k].newRows.end + 1 == |b|
  {
    hide Separated;
    LinksBounds(a, p, b, 0, 0);
    Rebase.LinksSkip(a, p, b, 0, 0, k + 1);
    var i, j := p[k].oldRows.end, p[k].newRows.end;
    if k + 1 < |p| {
      var f := p[k + 1];
      assert f == p[k + 1..][0];
      assert i < f.oldRows.start by { SeparatedAt(p, k, k + 1); }
      assert |a[i..f.oldRows.start]| == |b[j..f.newRows.start]|;
      assert a[i] == a[i..f.oldRows.start][0] && b[j] == b[j..f.newRows.start][0];
    } else {
      assert |a[i..]| == |b[j..]|;
      assert a[i] == a[i..][0] && b[j] == b[j..][0];
    }
  }

  lemma SeparatedAt(p: seq<Edit>, k: nat, l: nat)
    requires Separated(p) && k < l < |p|
    ensures p[k].oldRows.end < p[l].oldRows.start && p[k].newRows.end < p[l].newRows.start
  {}

  /** A revert is moved down exactly if the hunk starts at a blank row of both texts. */
  lemma RevertAtLineEnd(base: Rope, p: seq<Edit>, snap: Rope, hs: seq<Edit>, k: nat, n: nat)
    requires PatchBetween(Rows(base), p, Rows(snap)) && n < |p|
    requires Reverting(base, snap, hs, k) && hs[k] == p[n]
    ensures InTexts(RevertChar(base, snap, hs, k), snap, Reverted(base, snap, hs))
    ensures AtLineEnd(RevertChar(base, snap, hs, k), snap, Reverted(base, snap, hs)) <==>
            BlankAhead(base, hs[k].oldRows.start) && BlankAhead(snap, hs[k].newRows.start)
  {
    hide Rows, RowStart, RowEnd, SliceRows, RevertEdits, ApplyEdits, HunksFit, Reverting, RevertChar, Reverted,
         AtLineEnd, PatchBetween, RowAt, ColumnAt;
    RevertingIs(base, snap, hs, k);
    RevertCharNew(base, snap, hs, k);
    RevertedStart(base, snap, hs, k);
    var e, x, h := RevertChar(base, snap, hs, k), Reverted(base, snap, hs), hs[k];
    RowStartPoint(snap, h.newRows.start);
    AtLineEndRows(e, snap, x);
    LineStartRow(x, e.newRows.start);
    if h.oldRows.IsEmpty() {
      KeptBehind(Rows(base), p, Rows(snap), n);
    }
  }

  /** A revert conflicts with its own hunk, so that rebasing it leaves the base alone,
      exactly unless it slips. */
  lemma RevertConflicts(base: Rope, p: seq<Edit>, snap: Rope, hs: seq<Edit>, k: nat, n: nat)
    requires PatchBetween(Rows(base), p, Rows(snap)) && n < |p|
    requires Reverting(base, snap, hs, k) && hs[k] == p[n]
    ensures InTexts(RevertChar(base, snap, hs, k), snap, Reverted(base, snap, hs))
    ensures Conflicts.Conflict(PointToRowEdit(RevertChar(base, snap, hs, k), snap, Reverted(base, snap, hs)), hs[k])
            <==> !Slips(base, snap, hs[k])
  {
    hide Rows, HunksFit, Reverting, RevertChar, Reverted, PointToRowEdit, PatchBetween, AtLineEnd;
    RevertRowEdit(base, snap, hs, k);
    RevertAtLineEnd(base, p, snap, hs, k, n);
  }
}
