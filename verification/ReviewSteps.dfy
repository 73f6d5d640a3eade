/** What one step of each review loop does: looking at a hunk when a range is accepted,
    picking a hunk for a reject, matching a hunk against a commit. */
module ReviewSteps {
  import opened RopeText
  import opened Patches
  import opened Conflicts
  import Rebase
  import opened TextEdits
  import opened Reverts
  import opened PatchParts
  import opened Folds
  import opened ReviewLog

  lemma NoPatch(t: Rope)
    ensures PatchBetween(Rows(t), [], Rows(t))
  {
  }

  lemma WholePatch(a: Rope, b: Rope)
    ensures PatchBetween(Rows(a), [Edit(Span(0, RowCount(a)), Span(0, RowCount(b)))], Rows(b))
  {
    var e := Edit(Span(0, RowCount(a)), Span(0, RowCount(b)));
    LinksCons(Rows(a), e, [], Rows(b), 0, 0);
    assert [e] + [] == [e];
  }

  // ---- One hunk of a range keep --------------------------------------------------------

  lemma KeepStep(p: seq<Edit>, mask: seq<bool>, range: Span, m: Metrics)
    requires |mask| < |p| && mask == KeepMask(p, range)[..|mask|]
    requires m == AddEdits(NO_METRICS, Select(p[..|mask|], mask))
    ensures var take := KeepTouches(range, p[|mask|]);
            && mask + [take] == KeepMask(p, range)[..|mask| + 1]
            && AddEdits(NO_METRICS, Select(p[..|mask| + 1], mask + [take]))
               == if take then m.AddEdit(p[|mask|]) else m
  {
    hide *;
    var take := KeepTouches(range, p[|mask|]);
    var full := KeepMask(p, range);
    TakeLonger(full, |mask|);
    TakeOne(p, mask, take);
    if take {
      AddEditsSnoc(NO_METRICS, Select(p[..|mask|], mask), p[|mask|]);
    } else {
      NoneAdded(Select(p[..|mask|], mask));
    }
  }

  lemma NoneAdded(p: seq<Edit>)
    ensures p + [] == p
  {
  }

  /** What a range keep has done once every hunk has been looked at. */
  lemma KeepDone(base: seq<string>, p: seq<Edit>, snap: seq<string>, mask: seq<bool>, sofar: Rope, delta: int)
    requires PatchBetween(base, p, snap) && |mask| == |p| && Folded(base, p, snap, mask, sofar, delta)
    ensures Fits(Select(p, mask), |base|, |snap|, 0)
    ensures Rows(sofar) == Splice(base, Select(p, mask), snap, 0)
    ensures Remaining(p[..|p|], mask, 0) == Remaining(p, mask, 0)
    ensures Select(p[..|p|], mask) == Select(p, mask)
    ensures PatchBetween(Rows(sofar), Remaining(p, mask, 0), snap)
  {
    AcceptPatch(base, p, snap, mask);
    assert p[..|p|] == p;
  }

  // ---- The reject selection ---------------------------------------------------------------

  /** No range before `r` touches a hunk from `k` on. */
  ghost predicate Dropped(ranges: seq<Span>, r: nat, p: seq<Edit>, k: nat, rows: nat) {
    r <= |ranges| && forall s, l :: 0 <= s < r && k <= l < |p| ==> !RejectTouches(ranges[s], p[l], rows)
  }

  lemma DropOne(ranges: seq<Span>, r: nat, p: seq<Edit>, k: nat, rows: nat)
    requires HunksApart(p) && Dropped(ranges, r, p, k, rows) && r < |ranges| && k < |p|
    requires ranges[r].end < p[k].newRows.start
    ensures Dropped(ranges, r + 1, p, k, rows)
  {}

  /** What the selection found out about hunk `k`. */
  lemma Selected(ranges: seq<Span>, r: nat, p: seq<Edit>, k: nat, rows: nat, revert: bool)
    requires Dropped(ranges, r, p, k, rows) && k < |p|
    requires revert ==> r < |ranges| && RejectTouches(ranges[r], p[k], rows)
    requires !revert ==> r == |ranges| || ranges[r].start > LastRow(p[k], rows)
    ensures revert ==> RejectTouchesSome(ranges, p[k], rows)
    ensures AscendingStarts(ranges) ==> (revert <==> RejectTouchesSome(ranges, p[k], rows))
    ensures Dropped(ranges, r, p, k + 1, rows)
  {
  }

  /** Every hunk picked by a reject is touched by a range; and if the ranges ascend,
      every hunk that is touched is picked. */
  ghost predicate RejectMask(p: seq<Edit>, ranges: seq<Span>, rows: nat, mask: seq<bool>) {
    && |mask| <= |p|
    && (forall k :: 0 <= k < |mask| ==> mask[k] ==> RejectTouchesSome(ranges, p[k], rows))
    && (AscendingStarts(ranges) ==> forall k :: 0 <= k < |mask| ==> mask[k] == RejectTouchesSome(ranges, p[k], rows))
  }

  /** The hunks that a reject reverts, by rows: only hunks that have a row of the buffer in
      common with some range; and if the ranges ascend, all of these. */
  ghost predicate RejectedByRows(p: seq<Edit>, ranges: seq<Span>, rows: nat, mask: seq<bool>) {
    && |mask| == |p|
    && (NoneInverted(ranges) ==> forall k :: 0 <= k < |p| && mask[k] ==> InCommonWithSome(ranges, p[k], rows))
    && (NoneInverted(ranges) && AscendingStarts(ranges) ==>
          forall k :: 0 <= k < |p| && InCommonWithSome(ranges, p[k], rows) ==> mask[k])
  }

  ghost predicate InCommonWithSome(ranges: seq<Span>, e: Edit, rows: nat) {
    exists r :: 0 <= r < |ranges| && BufferRowInCommon(ranges[r], e.newRows, rows)
  }

  lemma TouchesSomeIff(ranges: seq<Span>, e: Edit, rows: nat)
    requires NoneInverted(ranges) && e.newRows.start <= e.newRows.end && e.newRows.start < rows
    ensures RejectTouchesSome(ranges, e, rows) <==> InCommonWithSome(ranges, e, rows)
  {
    hide RejectTouches, BufferRowInCommon;
    forall r | 0 <= r < |ranges|
      ensures RejectTouches(ranges[r], e, rows) <==> BufferRowInCommon(ranges[r], e.newRows, rows)
    {
      RejectTouchesIff(ranges[r], e, rows);
    }
  }

  lemma MaskByRows(base: Rope, p: seq<Edit>, snap: Rope, ranges: seq<Span>, mask: seq<bool>)
    requires PatchBetween(Rows(base), p, Rows(snap))
    requires RejectMask(p, ranges, RowCount(snap), mask) && |mask| == |p|
    ensures RejectedByRows(p, ranges, RowCount(snap), mask)
  {
    hide Rows, PatchBetween, RejectTouchesSome, InCommonWithSome;
    PatchRanges(base, p, snap);
    if NoneInverted(ranges) {
      forall k | 0 <= k < |p|
        ensures RejectTouchesSome(ranges, p[k], RowCount(snap)) <==> InCommonWithSome(ranges, p[k], RowCount(snap))
      {
        TouchesSomeIff(ranges, p[k], RowCount(snap));
      }
    }
  }

  /** The hunks that a range keep takes, by rows. */
  ghost predicate KeptByRows(p: seq<Edit>, range: Span, mask: seq<bool>) {
    |mask| == |p| &&
    (range.start <= range.end ==>
       forall k :: 0 <= k < |p| ==> (mask[k] <==> RowInCommon(range, p[k].newRows)))
  }

  lemma KeepByRows(base: Rope, p: seq<Edit>, snap: Rope, range: Span)
    requires PatchBetween(Rows(base), p, Rows(snap))
    ensures KeptByRows(p, range, KeepMask(p, range))
  {
    hide Rows, PatchBetween, KeepTouches, RowInCommon;
    PatchRanges(base, p, snap);
    if range.start <= range.end {
      forall k | 0 <= k < |p| ensures KeepTouches(range, p[k]) <==> RowInCommon(range, p[k].newRows) {
        KeepTouchesIff(range, p[k]);
      }
    }
  }

  lemma RejectMaskSnoc(p: seq<Edit>, ranges: seq<Span>, rows: nat, mask: seq<bool>, revert: bool)
    requires RejectMask(p, ranges, rows, mask) && |mask| < |p|
    requires revert ==> RejectTouchesSome(ranges, p[|mask|], rows)
    requires AscendingStarts(ranges) ==> (revert <==> RejectTouchesSome(ranges, p[|mask|], rows))
    ensures RejectMask(p, ranges, rows, mask + [revert])
  {
  }

  // ---- Reverting what was picked ---------------------------------------------------------

  lemma {:induction false} RevertEditsSnoc(base: Rope, snap: Rope, hs: seq<Edit>, h: Edit)
    requires HunksFit(hs + [h], RowCount(base), RowCount(snap))
    ensures HunksFit(hs, RowCount(base), RowCount(snap)) && HunkFits(h, RowCount(base), RowCount(snap))
    ensures RevertEdits(base, snap, hs + [h]) == RevertEdits(base, snap, hs) + [RevertEdit(base, snap, h)]
    decreases |hs|
  {
    var all := hs + [h];
    if hs == [] {
      assert all[1..] == [];
    } else {
      assert all[0] == hs[0] && all[1..] == hs[1..] + [h];
      assert |hs| > 1 ==> all[1] == hs[1];
      RevertEditsSnoc(base, snap, hs[1..], h);
    }
  }

  lemma {:induction false} RevertEditsInside(base: Rope, snap: Rope, hs: seq<Edit>)
    requires HunksFit(hs, RowCount(base), RowCount(snap))
    ensures var es := RevertEdits(base, snap, hs);
            forall k :: 0 <= k < |es| ==> 0 <= es[k].start <= es[k].end <= |snap|
    decreases |hs|
  {
    RevertsSplice(base, snap, hs);
    OrderedInside(RevertEdits(base, snap, hs), |snap|, 0);
  }

  lemma {:induction false} RecordUndoSnoc(t: Rope, version: nat, es: seq<TextEdit>, e: TextEdit)
    requires forall k :: 0 <= k < |es| ==> 0 <= es[k].start <= es[k].end <= |t|
    requires 0 <= e.start <= e.end <= |t|
    ensures forall k :: 0 <= k < |es + [e]| ==> 0 <= (es + [e])[k].start <= (es + [e])[k].end <= |t|
    ensures RecordUndo(t, version, es + [e])
            == RecordUndo(t, version, es)
               + [UndoEdit(Anchor.Before(version, e.start), Anchor.After(version, e.end), t[e.start..e.end])]
    decreases |es|
  {
    if es == [] {
      assert (es + [e])[1..] == [];
    } else {
      assert (es + [e])[1..] == es[1..] + [e];
      assert forall k :: 0 <= k < |es[1..]| ==> es[1..][k] == es[k + 1];
      RecordUndoSnoc(t, version, es[1..], e);
    }
  }

  /** The hunks picked so far, what reverts them, and what undoes that. */
  ghost predicate Picked(base: Rope, p: seq<Edit>, snap: Rope, mask: seq<bool>, version: nat,
                         reverts: seq<TextEdit>, undo: seq<UndoEdit>, m: Metrics) {
    && |mask| <= |p|
    && (var hs := Select(p[..|mask|], mask);
        && HunksFit(hs, RowCount(base), RowCount(snap))
        && reverts == RevertEdits(base, snap, hs)
        && (forall k :: 0 <= k < |reverts| ==> 0 <= reverts[k].start <= reverts[k].end <= |snap|)
        && undo == RecordUndo(snap, version, reverts)
        && m == AddEdits(NO_METRICS, hs))
  }

  lemma PickNone(base: Rope, p: seq<Edit>, snap: Rope, version: nat)
    ensures Picked(base, p, snap, [], version, [], [], NO_METRICS)
  {}

  lemma PickSkip(base: Rope, p: seq<Edit>, snap: Rope, mask: seq<bool>, version: nat,
                 reverts: seq<TextEdit>, undo: seq<UndoEdit>, m: Metrics)
    requires Picked(base, p, snap, mask, version, reverts, undo, m) && |mask| < |p|
    ensures Picked(base, p, snap, mask + [false], version, reverts, undo, m)
  {
    hide Select, HunksFit, RevertEdits, RecordUndo, AddEdits;
    TakeOne(p, mask, false);
    NoneAdded(Select(p[..|mask|], mask));
  }

  lemma PickOne(base: Rope, p: seq<Edit>, snap: Rope, mask: seq<bool>, version: nat,
                reverts: seq<TextEdit>, undo: seq<UndoEdit>, m: Metrics)
    requires PatchBetween(Rows(base), p, Rows(snap)) && |mask| < |p|
    requires Picked(base, p, snap, mask, version, reverts, undo, m)
    ensures HunkFits(p[|mask|], RowCount(base), RowCount(snap))
    ensures var e := RevertEdit(base, snap, p[|mask|]);
            && 0 <= e.start <= e.end <= |snap|
            && Picked(base, p, snap, mask + [true], version, reverts + [e],
                      undo + [UndoEdit(Anchor.Before(version, e.start), Anchor.After(version, e.end),
                                       snap[e.start..e.end])],
                      m.AddEdit(p[|mask|]))
  {
    hide *;
    var hs, h := Select(p[..|mask|], mask), p[|mask|];
    PickedIs(base, p, snap, mask, version, reverts, undo, m);
    PrefixRejectable(base, p, snap, mask + [true]);
    TakeOne(p, mask, true);
    RevertEditsSnoc(base, snap, hs, h);
    RevertEditsInside(base, snap, hs + [h]);
    var e := RevertEdit(base, snap, h);
    assert (reverts + [e])[|reverts|] == e;
    RecordUndoSnoc(snap, version, reverts, e);
    AddEditsSnoc(NO_METRICS, hs, h);
    MakePicked(base, p, snap, mask + [true], version, reverts + [e],
               undo + [UndoEdit(Anchor.Before(version, e.start), Anchor.After(version, e.end), snap[e.start..e.end])],
               m.AddEdit(h), hs + [h]);
  }

  lemma PrefixRejectable(base: Rope, p: seq<Edit>, snap: Rope, mask: seq<bool>)
    requires PatchBetween(Rows(base), p, Rows(snap)) && |mask| <= |p|
    ensures HunksFit(Select(p[..|mask|], mask), RowCount(base), RowCount(snap))
  {
    var k := |mask|;
    PatchHunksFit(Rows(base), p, Rows(snap));
    PatchApart(Rows(base), p, Rows(snap));
    assert forall l :: 0 <= l < k ==> p[..k][l] == p[l];
    SelectHunksFit(p[..k], mask, RowCount(base), RowCount(snap));
  }

  lemma PickedIs(base: Rope, p: seq<Edit>, snap: Rope, mask: seq<bool>, version: nat,
                 reverts: seq<TextEdit>, undo: seq<UndoEdit>, m: Metrics)
    requires Picked(base, p, snap, mask, version, reverts, undo, m)
    ensures |mask| <= |p|
    ensures var hs := Select(p[..|mask|], mask);
            && HunksFit(hs, RowCount(base), RowCount(snap))
            && reverts == RevertEdits(base, snap, hs)
            && (forall k :: 0 <= k < |reverts| ==> 0 <= reverts[k].start <= reverts[k].end <= |snap|)
            && undo == RecordUndo(snap, version, reverts)
            && m == AddEdits(NO_METRICS, hs)
  {
  }

  lemma MakePicked(base: Rope, p: seq<Edit>, snap: Rope, mask: seq<bool>, version: nat,
                   reverts: seq<TextEdit>, undo: seq<UndoEdit>, m: Metrics, hs: seq<Edit>)
    requires |mask| <= |p| && hs == Select(p[..|mask|], mask)
    requires HunksFit(hs, RowCount(base), RowCount(snap)) && reverts == RevertEdits(base, snap, hs)
    requires forall k :: 0 <= k < |reverts| ==> 0 <= reverts[k].start <= reverts[k].end <= |snap|
    requires undo == RecordUndo(snap, version, reverts) && m == AddEdits(NO_METRICS, hs)
    ensures Picked(base, p, snap, mask, version, reverts, undo, m)
  {
  }

  // ---- Accepting a commit --------------------------------------------------------------

  /** `Rope::slice_rows`, for any rows: both ends are clamped to the end of the text. */
  function SliceClamped(t: Rope, rows: Span): Rope
    requires 0 <= rows.start <= rows.end
  {
    var start, end := Rebase.Min(rows.start, RowCount(t)), Rebase.Min(rows.end, RowCount(t));
    if start == RowCount(t) then "" else SliceRows(t, start, end)
  }

  /** The edits of a commit: ordered, with some line kept between any two of them. */
  ghost predicate CommittedEdits(committed: seq<Edit>) {
    && (forall c :: 0 <= c < |committed| ==>
          && committed[c].oldRows.start <= committed[c].oldRows.end
          && 0 <= committed[c].newRows.start <= committed[c].newRows.end)
    && forall c, c' :: 0 <= c < c' < |committed| ==> committed[c].oldRows.end < committed[c'].oldRows.start
  }

  /** The commit makes the same change: the same old rows and the same new text. */
  predicate SameChange(c: Edit, h: Edit, snap: Rope, gitBase: Rope)
    requires 0 <= c.newRows.start <= c.newRows.end && 0 <= h.newRows.start <= h.newRows.end
  {
    c.oldRows == h.oldRows && SliceClamped(snap, h.newRows) == SliceClamped(gitBase, c.newRows)
  }

  /** The rows of the clamped slice: those of the range, with an empty one behind them unless
      the slice reaches the end of the text. */
  function ClampedRows(t: Rope, rows: Span): seq<string>
    requires 0 <= rows.start <= rows.end
  {
    if rows.start >= RowCount(t) then [""]
    else if rows.end < RowCount(t) then Rows(t)[rows.start..rows.end] + [""]
    else Rows(t)[rows.start..]
  }

  lemma SliceClampedRows(t: Rope, rows: Span)
    requires 0 <= rows.start <= rows.end
    ensures Rows(SliceClamped(t, rows)) == ClampedRows(t, rows)
  {
    hide Rows, RowStart, RowEnd;
    RowCountIs(t);
    if rows.start >= RowCount(t) {
      RowsOfOne("");
    } else {
      var end := Rebase.Min(rows.end, RowCount(t));
      SliceRowsIs(t, rows.start, end);
      if end < RowCount(t) {
        var inside := Rows(t)[rows.start..end];
        JoinAppend(inside, [""]);
        assert Lines(inside) + "" == Lines(inside);
        RowsJoin(inside + [""]);
      } else {
        RowsJoin(Rows(t)[rows.start..]);
      }
    }
  }

  /** A committed edit makes the same change exactly if it has the same old rows, and its new
      rows read the same in the committed text as those of the hunk in the snapshot. */
  lemma SameChangeByRows(c: Edit, h: Edit, snap: Rope, gitBase: Rope)
    requires 0 <= c.newRows.start <= c.newRows.end && 0 <= h.newRows.start <= h.newRows.end
    ensures SameChange(c, h, snap, gitBase) <==>
      c.oldRows == h.oldRows && ClampedRows(snap, h.newRows) == ClampedRows(gitBase, c.newRows)
  {
    hide SliceClamped, ClampedRows;
    SliceClampedRows(snap, h.newRows);
    SliceClampedRows(gitBase, c.newRows);
    if ClampedRows(snap, h.newRows) == ClampedRows(gitBase, c.newRows) {
      RowsInjective(SliceClamped(snap, h.newRows), SliceClamped(gitBase, c.newRows));
    }
  }

  ghost predicate InCommit(committed: seq<Edit>, h: Edit, snap: Rope, gitBase: Rope)
    requires CommittedEdits(committed) && 0 <= h.newRows.start <= h.newRows.end
  {
    exists c :: 0 <= c < |committed| && SameChange(committed[c], h, snap, gitBase)
  }

  /** Hunks from `k` on have not been met by the commit's edits before `c`. */
  ghost predicate NotMet(committed: seq<Edit>, c: nat, p: seq<Edit>, k: nat) {
    c <= |committed| && forall x, l :: 0 <= x < c && k <= l < |p| ==> committed[x].oldRows != p[l].oldRows
  }

  ghost predicate OldsOrdered(p: seq<Edit>) {
    && (forall k :: 0 <= k < |p| ==> p[k].oldRows.start <= p[k].oldRows.end)
    && forall k, l :: 0 <= k < l < |p| ==> p[k].oldRows.end < p[l].oldRows.start
  }

  /** A hunk consumed at edit `c`: it is in the commit exactly if `c` is its change. */
  lemma MetAt(committed: seq<Edit>, c: nat, p: seq<Edit>, k: nat, snap: Rope, gitBase: Rope)
    requires CommittedEdits(committed) && NotMet(committed, c, p, k) && c < |committed| && k < |p|
    requires 0 <= p[k].newRows.start <= p[k].newRows.end && p[k].oldRows.start <= p[k].oldRows.end
    requires committed[c].oldRows == p[k].oldRows || p[k].oldRows.start < committed[c].oldRows.end
    ensures InCommit(committed, p[k], snap, gitBase) <==> SameChange(committed[c], p[k], snap, gitBase)
    ensures NotMet(committed, c, p, k + 1)
  {}

  /** Edit `c` is done once the next hunk starts behind it. */
  lemma MetAll(committed: seq<Edit>, c: nat, p: seq<Edit>, k: nat)
    requires NotMet(committed, c, p, k) && c < |committed| && OldsOrdered(p)
    requires committed[c].oldRows.start <= committed[c].oldRows.end
    requires k < |p| ==> committed[c].oldRows != p[k].oldRows && p[k].oldRows.start >= committed[c].oldRows.end
    ensures NotMet(committed, c + 1, p, k)
  {}

  /** The hunks taken so far are exactly those in the commit. */
  ghost predicate CommitMask(committed: seq<Edit>, p: seq<Edit>, snap: Rope, gitBase: Rope, mask: seq<bool>)
    requires CommittedEdits(committed)
    requires forall k :: 0 <= k < |p| ==> 0 <= p[k].newRows.start <= p[k].newRows.end
  {
    |mask| <= |p| && forall k :: 0 <= k < |mask| ==> mask[k] == InCommit(committed, p[k], snap, gitBase)
  }

  /** Hunks left over when the commit is exhausted are not in it. */
  lemma NotMetNotIn(committed: seq<Edit>, p: seq<Edit>, k: nat, snap: Rope, gitBase: Rope)
    requires CommittedEdits(committed) && NotMet(committed, |committed|, p, k) && k < |p|
    requires 0 <= p[k].newRows.start <= p[k].newRows.end
    ensures !InCommit(committed, p[k], snap, gitBase)
  {
  }

  lemma PatchRanges(a: Rope, p: seq<Edit>, b: Rope)
    requires PatchBetween(Rows(a), p, Rows(b))
    ensures OldsOrdered(p)
    ensures forall k :: 0 <= k < |p| ==>
              && 0 <= p[k].newRows.start <= p[k].newRows.end <= RowCount(b) && p[k].newRows.start < RowCount(b)
  {
    LinksBounds(Rows(a), p, Rows(b), 0, 0);
  }

  lemma SliceInside(t: Rope, rows: Span)
    requires 0 <= rows.start <= rows.end <= RowCount(t) && rows.start < RowCount(t)
    ensures SliceClamped(t, rows) == SliceRows(t, rows.start, rows.end)
  {
  }
}
