/** A reject of everything and its undo, as the methods of a review carry them out, with the
    diff updates in between.  The undo comes back to the review as an edit of the user. */
module UndoneReviews {
  import opened RopeText
  import opened Patches
  import opened Rebase
  import opened SnapshotDiffs
  import opened Reverts
  import opened PatchParts
  import opened RevertRows
  import opened EngineHunks
  import opened HunkShifts
  import opened ReviewLog
  import opened ReviewSteps
  import opened TrackedBuffers
  import opened ReviewRuns

  /** Rejects everything, lets the review see it, undoes it and lets the review see that; the
      undo is reported as the edits `undone`.  The buffer is as it was, and the review is
      over: the agent's text has become the base. */
  method RejectAllAndUndo(tracked: TrackedBuffer, diff: DiffEngine, undone: seq<Edit>)
    requires tracked.Valid() && tracked.Drained() && tracked.status.Modified? && FindsHunks(diff)
    requires tracked.unreviewedEdits == Unreviewed(diff, tracked.diffBase, tracked.snapshot)
    requires NoneSlips(tracked.diffBase, tracked.unreviewedEdits, tracked.snapshot)
    requires EditsSince(tracked.diffBase, undone, tracked.snapshot)
    modifies tracked, tracked.buffer
    ensures tracked.Valid() && tracked.Drained() && tracked.status == old(tracked.status)
    ensures tracked.buffer.text == old(tracked.buffer.text)
    ensures tracked.diffBase == old(tracked.buffer.text) && tracked.unreviewedEdits == []
  {
    hide *;
    ghost var base, snap, hunks := tracked.diffBase, tracked.snapshot, tracked.unreviewedEdits;
    PatchOf(tracked);
    RejectAllRestores(base, hunks, snap);
    RevertsReported(base, snap, hunks);
    var reverts := RevertEdits(tracked.diffBase, tracked.snapshot, tracked.unreviewedEdits);
    var everything := Span(0, RowCount(tracked.snapshot) - 1);
    var metrics, undo, untracked, deleteFile, mask := tracked.RejectEditsInRanges([everything], false);
    EverythingRejected(base, hunks, snap, mask, tracked.buffer.text);
    tracked.BecomesValid();
    tracked.TrackEdits(User, CharEdits(reverts, 0), diff);
    BaseKept(base, hunks, snap, tracked.diffBase);
    assert tracked.unreviewedEdits == [] by { NothingFound(diff, base); }
    UndoInText(undo, snap, tracked.buffer.log, tracked.buffer.text);
    UndoLastReject(tracked.buffer, undo);
    tracked.TrackEdits(User, undone, diff);
    AllFolded(base, undone, snap, tracked.diffBase);
    NothingFound(diff, snap);
    MakeDrained(tracked);
  }

  lemma PatchOf(tracked: TrackedBuffer)
    requires tracked.Valid() && tracked.Drained()
    ensures PatchBetween(Rows(tracked.diffBase), tracked.unreviewedEdits, Rows(tracked.snapshot))
    ensures tracked.buffer.text == tracked.snapshot
  {}

  lemma MakeDrained(tracked: TrackedBuffer)
    requires tracked.buffer.text == tracked.snapshot
    ensures tracked.Drained()
  {}

  /** One range over all rows touches every hunk, and reverting all leaves the base text. */
  lemma EverythingRejected(base: Rope, hunks: seq<Edit>, snap: Rope, mask: seq<bool>, text: Rope)
    requires PatchBetween(Rows(base), hunks, Rows(snap)) && |mask| == |hunks|
    requires RejectMask(hunks, [Span(0, RowCount(snap) - 1)], RowCount(snap), mask)
    requires Fits(Inverse(Select(hunks, mask)), |Rows(snap)|, |Rows(base)|, 0)
    requires Rows(text) == Splice(Rows(snap), Inverse(Select(hunks, mask)), Rows(base), 0)
    ensures text == base
  {
    hide *;
    EverythingSelected(base, hunks, snap, mask);
    RejectAllRestores(base, hunks, snap);
    RevertedIs(base, hunks, snap);
    RowsInjective(text, base);
  }

  lemma RevertedIs(base: Rope, hunks: seq<Edit>, snap: Rope)
    requires HunksFit(hunks, RowCount(base), RowCount(snap))
    ensures Fits(Inverse(hunks), |Rows(snap)|, |Rows(base)|, 0)
    ensures Rows(Reverted(base, snap, hunks)) == Splice(Rows(snap), Inverse(hunks), Rows(base), 0)
  {
    RevertsSplice(base, snap, hunks);
  }

  lemma EverythingSelected(base: Rope, hunks: seq<Edit>, snap: Rope, mask: seq<bool>)
    requires PatchBetween(Rows(base), hunks, Rows(snap)) && |mask| == |hunks|
    requires RejectMask(hunks, [Span(0, RowCount(snap) - 1)], RowCount(snap), mask)
    ensures Select(hunks, mask) == hunks
  {
    hide Rows, PatchBetween, AllHunksFit, Select;
    PatchHunksFit(Rows(base), hunks, Rows(snap));
    var ranges, rows := [Span(0, RowCount(snap) - 1)], RowCount(snap);
    forall k | 0 <= k < |hunks| ensures mask[k] {
      HunkInside(hunks, |Rows(base)|, |Rows(snap)|, k);
      assert RejectTouches(ranges[0], hunks[k], rows);
    }
    SelectAll(hunks, mask);
  }

  lemma HunkInside(p: seq<Edit>, n: nat, m: nat, k: nat)
    requires AllHunksFit(p, n, m) && k < |p|
    ensures 0 <= p[k].newRows.start <= p[k].newRows.end <= m && p[k].newRows.start < m
  {}

  /** The review takes the reverts for user edits that meet their hunks. */
  lemma BaseKept(base: Rope, hunks: seq<Edit>, snap: Rope, base': Rope)
    requires PatchBetween(Rows(base), hunks, Rows(snap)) && NoneSlips(base, hunks, snap)
    requires HunksFit(hunks, RowCount(base), RowCount(snap)) && Reverted(base, snap, hunks) == base
    requires AllInTexts(CharEdits(RevertEdits(base, snap, hunks), 0), snap, base)
    requires var u := Coalesce(RowEdits(CharEdits(RevertEdits(base, snap, hunks), 0), snap, base));
      && Fits(Applied(hunks, u), |Rows(base)|, |Rows(base)|, 0)
      && Rows(base') == RebasedBase(Rows(base), hunks, u, Rows(base))
    ensures base' == base
  {
    hide *;
    SelectEverything(hunks);
    RejectKeepsBase(base, hunks, snap, AllSet(|hunks|));
    RevertUserEditsIs(base, snap, hunks);
    RowsInjective(base', base);
  }

  /** With nothing left to review, the undo is folded into the base. */
  lemma AllFolded(base: Rope, undone: seq<Edit>, snap: Rope, base': Rope)
    requires EditsSince(base, undone, snap) && AllInTexts(undone, base, snap)
    requires var u := Coalesce(RowEdits(undone, base, snap));
      && Fits(Applied([], u), |Rows(base)|, |Rows(snap)|, 0)
      && Rows(base') == RebasedBase(Rows(base), [], u, Rows(snap))
    ensures base' == snap
  {
    hide *;
    NothingReviewed(base, undone, snap);
    RowsInjective(base', snap);
  }
}
