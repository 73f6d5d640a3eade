/** The reverts that slip.  Rejecting one hunk of a patch leaves the base alone exactly if
    the hunk does not slip, or slips into a deletion, or keeps the number of rows; and
    whether it slips can depend on how the diff engine aligns repeated blank rows. */
module ShiftedReverts {
  import opened RopeText
  import opened Patches
  import opened Conflicts
  import opened Rebase
  import Diamond
  import RebaseLoop
  import opened PointEdits
  import SnapshotDiffs
  import opened Reverts
  import opened PatchParts
  import opened RevertRows
  import opened EngineHunks
  import HunkShifts
  import opened ReviewRuns

  lemma OneEditLinks(a: seq<string>, v: Edit, b: seq<string>)
    requires Links(a, [v], b)
    ensures 0 <= v.oldRows.start == v.newRows.start <= v.oldRows.end <= |a|
    ensures v.newRows.start <= v.newRows.end <= |b| && v.Growth() == |b| - |a|
  {
    assert [v][1..] == [];
    assert LinksFrom(a, [], b, v.oldRows.end, v.newRows.end);
    assert |a[0..v.oldRows.start]| == |b[0..v.newRows.start]|;
    assert |a[v.oldRows.end..]| == |b[v.newRows.end..]|;
  }

  // ---- One hunk of any patch -----------------------------------------------------------------

  /** The hunks in front of a free edit come first, those behind it after them. */
  lemma {:induction false} FreeSplits(p: seq<Edit>, v: Edit) returns (n: nat)
    requires HunksApart(p) && Free(v, p) && v.oldRows.start <= v.oldRows.end
    ensures n <= |p| && AllAfter(v, p[..n]) && AllBefore(v, p[n..])
  {
    if p == [] {
      n := 0;
    } else if Before(v, p[0]) {
      n := 0;
      RebaseLoop.BeforeRest(p, 0, v);
    } else {
      assert !Conflict(v, p[0]);
      var q := p[1..];
      assert Free(v, q) by { assert forall k :: 0 <= k < |q| ==> q[k] == p[k + 1]; }
      var m := FreeSplits(q, v);
      n := m + 1;
      assert p[..n] == [p[0]] + q[..m] && p[n..] == q[m..];
    }
  }

  /** The rows that a free edit replaces are the same in the base and in the snapshot. */
  lemma FreeRows(base: seq<string>, p: seq<Edit>, snap: seq<string>, v: Edit)
    requires PatchBetween(base, p, snap) && Free(v, p)
    requires 0 <= v.oldRows.start <= v.oldRows.end <= |snap|
    ensures var e := InBase(p, v).oldRows;
            && 0 <= e.start <= e.end <= |base| && base[e.start..e.end] == snap[v.oldRows.start..v.oldRows.end]
  {
    hide Free, GrowthBefore, Separated, Anchored, Growth, HunksApart;
    PatchApart(base, p, snap);
    var n := FreeSplits(p, v);
    assert GrowthBefore(p, v) == Growth(p[..n]) by {
      assert p[..n] + p[n..] == p;
      RebaseLoop.ApartRanges(p[n..], [], p, n) by { NoEditsApart(); }
      Diamond.BetweenIsFree(p[..n], p[n..], v);
    }
    RowsBehind(base, p, snap, v, n);
  }

  lemma NoEditsApart()
    ensures EditsApart([])
  {}

  lemma RowsBehind(base: seq<string>, p: seq<Edit>, snap: seq<string>, v: Edit, n: nat)
    requires Links(base, p, snap) && n <= |p| && AllAfter(v, p[..n]) && AllBefore(v, p[n..])
    requires 0 <= v.oldRows.start <= v.oldRows.end <= |snap|
    ensures var i := v.oldRows.start - Growth(p[..n]);
      var end := v.oldRows.end - Growth(p[..n]);
      0 <= i <= end <= |base| && base[i..end] == snap[v.oldRows.start..v.oldRows.end]
  {
    var j, len := v.oldRows.start, v.oldRows.end - v.oldRows.start;
    if n > 0 { assert After(v, p[..n][n - 1]); }
    if n < |p| { assert Before(v, p[n..][0]); }
    LinksBehind(base, p, snap, 0, 0, n, j);
    var i := j - Growth(p[..n]);
    hide Growth;
    if n < |p| {
      assert |base[i..p[n].oldRows.start]| == |snap[j..p[n].newRows.start]|;
    } else {
      assert |base[i..]| == |snap[j..]|;
    }
    LinksAdvance(base, p[n..], snap, i, j, len);
  }

  /** The row edit of rejecting one hunk of a patch. */
  lemma OneOfMany(base: Rope, p: seq<Edit>, snap: Rope, k: nat) returns (v: Edit)
    requires PatchBetween(Rows(base), p, Rows(snap)) && k < |p|
    ensures HunksFit([p[k]], RowCount(base), RowCount(snap)) && Reverting(base, snap, [p[k]], 0)
    ensures var x := Reverted(base, snap, [p[k]]);
            && InTexts(RevertChar(base, snap, [p[k]], 0), snap, x)
            && v == PointToRowEdit(RevertChar(base, snap, [p[k]], 0), snap, x)
            && RevertUserEdits(base, snap, [p[k]]) == [v]
            && Links(Rows(snap), [v], Rows(x))
            && OneReverted(Rows(base), p[k], Rows(snap), Rows(x))
  {
    hide Rows, LinksFrom, RevertEdits, CharEdits, PointToRowEdit, Separated, Anchored, SnapshotDiffs.EditsSince;
    var h := p[k];
    PatchHunksFit(Rows(base), p, Rows(snap));
    assert [h][1..] == [];
    RevertsReported(base, snap, [h]);
    var q, x := CharEdits(RevertEdits(base, snap, [h]), 0), Reverted(base, snap, [h]);
    RevertCharIs(base, snap, [h], 0);
    assert q == [RevertChar(base, snap, [h], 0)];
    v := PointToRowEdit(q[0], snap, x);
    SnapshotDiffs.OneRowEdit(snap, q[0], x, v);
    SnapshotDiffs.DiffLinks(snap, q, x);
    RevertsSplice(base, snap, [h]);
    assert Inverse([h]) == [h.Inverse()];
    SpliceOne(Rows(snap), h.Inverse(), Rows(base), 0);
    assert Rows(snap)[0..] == Rows(snap);
  }

  /** `x` is the snapshot with the base rows of one hunk put back. */
  ghost predicate OneReverted(base: seq<string>, h: Edit, snap: seq<string>, x: seq<string>) {
    && 0 <= h.oldRows.start <= h.oldRows.end <= |base| && 0 <= h.newRows.start <= h.newRows.end <= |snap|
    && x == Replace(snap, h.newRows.start, h.newRows.end, base[h.oldRows.start..h.oldRows.end])
  }

  /** A free edit of unchanged length replaces rows by the same rows. */
  lemma SameRowsReplaced(base: seq<string>, p: seq<Edit>, snap: seq<string>, k: nat, v: Edit, x: seq<string>)
    requires PatchBetween(base, p, snap) && k < |p| && Links(snap, [v], x)
    requires OneReverted(base, p[k], snap, x) && Free(v, p) && p[k].Growth() == 0
    requires Fits([InBase(p, v)], |base|, |x|, 0)
    ensures Splice(base, [InBase(p, v)], x, 0) == base
  {
    hide PatchBetween, Links, OneReverted, Splice, Fits, Conflict, GrowthBefore, Free;
    var h, e := p[k], InBase(p, v);
    OneEditLinks(snap, v, x);
    RevertedLength(base, h, snap, x);
    assert v.oldRows == v.newRows;
    FreeOf(v, p, k);
    FreeRows(base, p, snap, v);
    RowsElsewhere(base, h, snap, x, v);
    OneFits(e, |base|, |x|);
    SpliceOne(base, e, x, 0);
    assert base[0..] == base;
    SplitAt(base, e.oldRows.start, e.oldRows.end, |base|);
  }

  lemma RevertedLength(base: seq<string>, h: Edit, snap: seq<string>, x: seq<string>)
    requires OneReverted(base, h, snap, x)
    ensures |x| == |snap| - h.Growth()
  {}

  lemma FreeOf(v: Edit, p: seq<Edit>, k: nat)
    requires Free(v, p) && k < |p|
    ensures !Conflict(v, p[k])
  {}

  lemma OneFits(e: Edit, n: nat, m: nat)
    requires Fits([e], n, m, 0)
    ensures FitsAfter([], e, n, m, 0)
  {}

  /** Away from the hunk, the reverted text has the rows of the snapshot. */
  lemma RowsElsewhere(base: seq<string>, h: Edit, snap: seq<string>, x: seq<string>, v: Edit)
    requires OneReverted(base, h, snap, x) && h.Growth() == 0 && !Conflict(v, h)
    requires 0 <= v.oldRows.start <= v.oldRows.end <= |snap|
    ensures v.oldRows.end <= |x| && x[v.oldRows.start..v.oldRows.end] == snap[v.oldRows.start..v.oldRows.end]
  {}

  lemma FreeApplied(p: seq<Edit>, v: Edit)
    ensures Applied(p, [v]) == if Free(v, p) then [InBase(p, v)] else []
  {}

  lemma OneOfManyApplied(base: seq<string>, p: seq<Edit>, snap: seq<string>, k: nat, v: Edit, x: seq<string>)
    requires PatchBetween(base, p, snap) && k < |p| && Links(snap, [v], x)
    requires OneReverted(base, p[k], snap, x)
    ensures Fits(Applied(p, [v]), |base|, |x|, 0)
    ensures RebasedBase(base, p, [v], x) == base <==> !Free(v, p) || p[k].Growth() == 0
  {
    hide LinksFrom, Separated, Anchored, RebasedPatch, Free, GrowthBefore;
    SeparatedOne(v);
    Diamond.RebaseDiamond(base, p, snap, [v], x);
    OneEditLinks(snap, v, x);
    FreeApplied(p, v);
    if Free(v, p) {
      var e := InBase(p, v);
      SpliceLength(base, [e], x, 0);
      assert [e][1..] == [];
      if p[k].Growth() == 0 {
        SameRowsReplaced(base, p, snap, k, v, x);
      }
    } else {
      assert base[0..] == base;
    }
  }

  lemma SeparatedOne(v: Edit)
    ensures Separated([v])
  {}

  // ---- What a slipped revert meets ---------------------------------------------------------------

  /** The next hunk only deletes rows, one row behind this one. */
  predicate DeletionNext(p: seq<Edit>, k: nat)
    requires k < |p|
  {
    k + 1 < |p| && p[k + 1].newRows.IsEmpty() && p[k + 1].newRows.start == p[k].newRows.end + 1
  }

  /** A slipped revert is free of all hunks, unless it meets a deletion one row further. */
  lemma SlippedFree(base: Rope, p: seq<Edit>, snap: Rope, k: nat, v: Edit)
    requires PatchBetween(Rows(base), p, Rows(snap)) && k < |p| && Slips(base, snap, p[k])
    requires BlankAhead(base, p[k].oldRows.start) && BlankAhead(snap, p[k].newRows.start) ==>
      v.oldRows == Span(p[k].newRows.start + 1, Min(p[k].newRows.end, RowCount(snap) - 1) + 1)
    requires !(BlankAhead(base, p[k].oldRows.start) && BlankAhead(snap, p[k].newRows.start)) ==>
      v.oldRows == Span(p[k].newRows.start, p[k].newRows.end - 1)
    ensures Free(v, p) <==> !DeletionNext(p, k)
  {
    hide Rows, LinksFrom, Separated, Free, Conflict;
    var h := p[k].newRows;
    PatchApart(Rows(base), p, Rows(snap));
    LinksBounds(Rows(base), p, Rows(snap), 0, 0);
    assert v.oldRows.end <= h.end + 1 && h.start <= v.oldRows.start && v.oldRows.start <= v.oldRows.end;
    forall l | 0 <= l < |p| && !(l == k + 1 && DeletionNext(p, k)) ensures !Conflict(v, p[l]) {
      SlippedPast(p, k, l, v, RowCount(snap));
    }
    if DeletionNext(p, k) {
      assert Conflict(v, p[k + 1]) by { MeetsDeletion(v, p[k + 1]); }
      NotFreeIn(v, p[k + 1], p);
    } else {
      MakeFree(v, p);
    }
  }

  lemma MakeFree(v: Edit, p: seq<Edit>)
    requires forall l :: 0 <= l < |p| ==> !Conflict(v, p[l])
    ensures Free(v, p)
  {}

  lemma MeetsDeletion(v: Edit, h: Edit)
    requires h.newRows.IsEmpty() && v.oldRows.start <= v.oldRows.end == h.newRows.start
    ensures Conflict(v, h)
  {}

  /** The slipped revert, in rows: one row down from a hunk of at most one row, or empty in
      front of the last one. */
  lemma SlippedPast(p: seq<Edit>, k: nat, l: nat, v: Edit, rows: nat)
    requires HunksApart(p) && k < |p| && l < |p| && !(l == k + 1 && DeletionNext(p, k))
    requires p[l].newRows.end <= rows
    requires
      || (p[k].newRows.Len() <= 1 && p[k].newRows.start + 1 < rows && p[k].newRows.end <= rows
          && v.oldRows == Span(p[k].newRows.start + 1, Min(p[k].newRows.end, rows - 1) + 1))
      || (p[k].newRows.Len() == 1 && p[k].newRows.end == rows
          && v.oldRows == Span(p[k].newRows.start, p[k].newRows.end - 1))
    ensures !Conflict(v, p[l])
  {
    if l > k + 1 {
      assert p[k].newRows.end < p[k + 1].newRows.start <= p[k + 1].newRows.end < p[l].newRows.start;
    }
  }

  /** Rejecting one hunk of any patch leaves the base alone exactly if the hunk does not
      slip, or it slips into a deletion, or it keeps the number of rows. */
  lemma RejectOneExact(base: Rope, p: seq<Edit>, snap: Rope, k: nat)
    requires PatchBetween(Rows(base), p, Rows(snap)) && k < |p|
    ensures HunksFit([p[k]], RowCount(base), RowCount(snap))
    ensures var u, x := RevertUserEdits(base, snap, [p[k]]), Reverted(base, snap, [p[k]]);
            && Fits(Applied(p, u), |Rows(base)|, |Rows(x)|, 0)
            && (RebasedBase(Rows(base), p, u, Rows(x)) == Rows(base) <==>
                !Slips(base, snap, p[k]) || DeletionNext(p, k) || p[k].Growth() == 0)
  {
    hide *;
    var v := OneOfMany(base, p, snap, k);
    OneOfManyApplied(Rows(base), p, Rows(snap), k, v, Rows(Reverted(base, snap, [p[k]])));
    RevertConflicts(base, p, snap, [p[k]], 0, k);
    if Slips(base, snap, p[k]) {
      RevertRowEdit(base, snap, [p[k]], 0);
      RevertAtLineEnd(base, p, snap, [p[k]], 0, k);
      SlipsEnd(base, snap, p[k]);
      SlippedFree(base, p, snap, k, v);
    } else {
      NotFreeIn(v, p[k], p);
    }
  }

  lemma SlipsEnd(base: Rope, snap: Rope, h: Edit)
    requires Slips(base, snap, h)
    ensures !(BlankAhead(base, h.oldRows.start) && BlankAhead(snap, h.newRows.start)) ==> TrailingBlank(base, snap, h)
  {}

  // ---- Hunks that reach neither end ------------------------------------------------------------

  ghost predicate Interior(base: Rope, h: Edit, snap: Rope) {
    && 0 <= h.oldRows.start <= h.oldRows.end < RowCount(base)
    && 0 <= h.newRows.start <= h.newRows.end < RowCount(snap)
  }

  /** What the engine reports for the one hunk of a row patch. */
  ghost function CharHunk(base: Rope, h: Edit, snap: Rope): Edit
    requires Interior(base, h, snap)
  {
    Edit(Span(RowStart(base, h.oldRows.start), RowStart(base, h.oldRows.end)),
         Span(RowStart(snap, h.newRows.start), RowStart(snap, h.newRows.end)))
  }

  /** One hunk of whole rows is a diff, and it is stored as it is or one row further down. */
  lemma OneFound(base: Rope, h: Edit, snap: Rope)
    requires Interior(base, h, snap) && Links(Rows(base), [h], Rows(snap))
    ensures Found(base, [CharHunk(base, h, snap)], snap)
    ensures InTexts(CharHunk(base, h, snap), base, snap)
    ensures HunkShifts.Shifts(base, CharHunk(base, h, snap), snap) <==>
      BlankAhead(base, h.oldRows.start) && BlankAhead(snap, h.newRows.start)
    ensures Stored(base, [CharHunk(base, h, snap)], snap) ==
      [if BlankAhead(base, h.oldRows.start) && BlankAhead(snap, h.newRows.start) then h.ShiftOld(1).ShiftNew(1) else h]
  {
    hide Rows, RowStart, BlankAhead;
    var e := CharHunk(base, h, snap);
    RowsLinkChars(base, h, snap);
    RowStartMonotone(base, h.oldRows.start, h.oldRows.end);
    RowStartMonotone(snap, h.newRows.start, h.newRows.end);
    RowStartPoint(base, h.oldRows.start);
    RowStartPoint(base, h.oldRows.end);
    RowStartPoint(snap, h.newRows.start);
    RowStartPoint(snap, h.newRows.end);
    AtLineEndRows(e, base, snap);
    SnapshotDiffs.OneRowEdit(base, e, snap, PointToRowEdit(e, base, snap));
  }

  /** Rows that link are characters that link. */
  lemma RowsLinkChars(base: Rope, h: Edit, snap: Rope)
    requires Interior(base, h, snap) && Links(Rows(base), [h], Rows(snap))
    ensures 0 <= CharHunk(base, h, snap).oldRows.start <= CharHunk(base, h, snap).oldRows.end <= |base|
    ensures 0 <= CharHunk(base, h, snap).newRows.start <= CharHunk(base, h, snap).newRows.end <= |snap|
    ensures Links(base, [CharHunk(base, h, snap)], snap)
  {
    hide Rows;
    var e := CharHunk(base, h, snap);
    RowStartMonotone(base, h.oldRows.start, h.oldRows.end);
    RowStartMonotone(snap, h.newRows.start, h.newRows.end);
    CutAt(base, h.oldRows.start);
    CutAt(snap, h.newRows.start);
    CutAt(base, h.oldRows.end);
    CutAt(snap, h.newRows.end);
    var a, b := Rows(base), Rows(snap);
    assert [h][1..] == [];
    assert LinksFrom(a, [], b, h.oldRows.end, h.newRows.end);
    assert a[..h.oldRows.start] == a[0..h.oldRows.start] && b[..h.newRows.start] == b[0..h.newRows.start];
    assert base[0..e.oldRows.start] == snap[0..e.newRows.start];
    assert LinksFrom(base, [], snap, e.oldRows.end, e.newRows.end);
    LinksCons(base, e, [], snap, 0, 0);
    assert [e] + [] == [e];
  }

  // ---- Texts for which it depends on the alignment -------------------------------------------------

  const BASE_ROWS := ["a", "", "", "x", "", "", "b"]
  const SNAP_ROWS := ["a", "", "", "b"]
  /** Two ways to align the same deletion. */
  const TOP := Edit(Span(1, 4), Span(1, 1))
  const BOTTOM := Edit(Span(3, 6), Span(3, 3))

  lemma BothAlign()
    ensures Links(BASE_ROWS, [TOP], SNAP_ROWS) && Links(BASE_ROWS, [BOTTOM], SNAP_ROWS)
  {
    LinksCons(BASE_ROWS, TOP, [], SNAP_ROWS, 0, 0);
    LinksCons(BASE_ROWS, BOTTOM, [], SNAP_ROWS, 0, 0);
    assert [TOP] + [] == [TOP] && [BOTTOM] + [] == [BOTTOM];
  }

  lemma AlignedRows(base: Rope, snap: Rope)
    requires Rows(base) == BASE_ROWS && Rows(snap) == SNAP_ROWS
    ensures Interior(base, TOP, snap) && Interior(base, BOTTOM, snap)
    ensures BlankAhead(base, 1) && BlankAhead(base, 2) && !BlankAhead(base, 3)
    ensures BlankAhead(snap, 1) && BlankAhead(snap, 2) && !BlankAhead(snap, 3)
  {
    hide Rows;
  }

  /** The agent deletes a line and two of the four blank lines around it.  Where the rows
      are repeated, the engine can choose what was deleted.  With the first choice the hunk
      is stored one row down, its revert moves one row further, off the hunk, and rejecting
      it changes the base; with the last choice the base stays. */
  lemma AlignmentDecides()
    ensures var base, snap := Join(BASE_ROWS), Join(SNAP_ROWS);
      && Interior(base, TOP, snap) && Interior(base, BOTTOM, snap)
      && (var found := [CharHunk(base, TOP, snap)];
          && Found(base, found, snap)
          && Stored(base, found, snap) == [Edit(Span(2, 5), Span(2, 2))]
          && !RejectKeeps(base, Stored(base, found, snap), snap, 0))
      && (var found := [CharHunk(base, BOTTOM, snap)];
          && Found(base, found, snap) && HunkShifts.Settled(base, found, snap)
          && Stored(base, found, snap) == [BOTTOM]
          && RejectKeeps(base, Stored(base, found, snap), snap, 0))
  {
    var base, snap := Join(BASE_ROWS), Join(SNAP_ROWS);
    RowsJoin(BASE_ROWS);
    RowsJoin(SNAP_ROWS);
    hide Rows, Join, Found, Stored, HunkShifts.Shifts, CharHunk, Links, Slips, BlankAhead;
    BothAlign();
    AlignedRows(base, snap);
    OneFound(base, TOP, snap);
    OneFound(base, BOTTOM, snap);
    StoredPatch(base, [CharHunk(base, TOP, snap)], snap);
    StoredPatch(base, [CharHunk(base, BOTTOM, snap)], snap);
    RejectKeepsExact(base, [Edit(Span(2, 5), Span(2, 2))], snap, 0);
    RejectKeepsExact(base, [BOTTOM], snap, 0);
    TopSlips(base, snap);
  }

  lemma TopSlips(base: Rope, snap: Rope)
    requires Rows(base) == BASE_ROWS && Rows(snap) == SNAP_ROWS
    ensures Slips(base, snap, Edit(Span(2, 5), Span(2, 2))) && !Slips(base, snap, BOTTOM)
  {
    hide Rows;
  }

  /** Rejecting hunk `k` alone leaves the base as it is. */
  ghost predicate RejectKeeps(base: Rope, p: seq<Edit>, snap: Rope, k: nat) {
    && k < |p| && HunksFit([p[k]], RowCount(base), RowCount(snap))
    && (var u, x := RevertUserEdits(base, snap, [p[k]]), Reverted(base, snap, [p[k]]);
        && Fits(Applied(p, u), |Rows(base)|, |Rows(x)|, 0)
        && RebasedBase(Rows(base), p, u, Rows(x)) == Rows(base))
  }

  lemma RejectKeepsExact(base: Rope, p: seq<Edit>, snap: Rope, k: nat)
    requires PatchBetween(Rows(base), p, Rows(snap)) && k < |p|
    ensures RejectKeeps(base, p, snap, k) <==>
      !Slips(base, snap, p[k]) || DeletionNext(p, k) || p[k].Growth() == 0
  {
    hide Rows, PatchBetween, HunksFit, Reverted, RevertUserEdits, Applied, RebasedBase, Fits, Slips;
    RejectOneExact(base, p, snap, k);
  }

  /** With one hunk only, rejecting it always restores the buffer to the base text, and
      leaves the base alone exactly if the hunk does not slip or keeps the number of rows. */
  lemma SingleRejectExact(base: Rope, h: Edit, snap: Rope)
    requires PatchBetween(Rows(base), [h], Rows(snap))
    ensures HunksFit([h], RowCount(base), RowCount(snap)) && Reverted(base, snap, [h]) == base
    ensures RejectKeeps(base, [h], snap, 0) <==> !Slips(base, snap, h) || h.Growth() == 0
  {
    hide Rows, PatchBetween, HunksFit, Reverted, RejectKeeps, Slips;
    RejectAllRestores(base, [h], snap);
    RejectKeepsExact(base, [h], snap, 0);
  }
}
