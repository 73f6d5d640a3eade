/** One tracked buffer of the action log and the operations of a review: following
    edits, accepting and rejecting hunks, undoing a reject, accepting a commit. */
module TrackedBuffers {
  import opened Options
  import opened RopeText
  import opened Patches
  import opened Rebase
  import Diamond
  import RebaseLoop
  import StandingEdits
  import opened SnapshotDiffs
  import opened TextEdits
  import opened EditBatches
  import Reverts
  import opened PatchParts
  import opened Folds
  import opened ReviewLog
  import opened ReviewSteps
  import opened EngineHunks

  class TrackedBuffer {
    const buffer: Buffer
    /** The text the user has accepted. */
    var diffBase: Rope
    /** The agent's hunks that are still to be reviewed, from the base to the snapshot. */
    var unreviewedEdits: seq<Edit>
    var snapshot: Rope
    var status: Status

    ghost predicate Valid()
      reads this
    {
      PatchBetween(Rows(diffBase), unreviewedEdits, Rows(snapshot))
    }

    /** The diff updates that were scheduled have all been made. */
    ghost predicate Drained()
      reads this, buffer
    {
      buffer.text == snapshot
    }

    /** `buffer_read`: starts tracking a buffer as it is. */
    constructor Read(buffer: Buffer)
      ensures Valid() && this.buffer == buffer
      ensures diffBase == snapshot == buffer.text && unreviewedEdits == [] && status == Modified
    {
      this.buffer := buffer;
      diffBase := buffer.text;
      unreviewedEdits := [];
      snapshot := buffer.text;
      status := Modified;
      new;
      NoPatch(snapshot);
    }

    /** `buffer_created`: starts tracking a file that the agent created or overwrote. */
    constructor Create(buffer: Buffer, existing: Option<Rope>)
      ensures Valid() && this.buffer == buffer
      ensures snapshot == buffer.text && status == Created(existing)
      ensures diffBase == (if existing.Some? then existing.value else "")
      ensures unreviewedEdits == [Edit(Span(0, RowCount(diffBase)), Span(0, RowCount(snapshot)))]
    {
      var base := if existing.Some? then existing.value else "";
      this.buffer := buffer;
      diffBase := base;
      unreviewedEdits := [Edit(Span(0, RowCount(base)), Span(0, RowCount(buffer.text)))];
      snapshot := buffer.text;
      status := Created(existing);
      new;
      WholePatch(diffBase, snapshot);
    }

    /** `buffer_created` for a buffer that is already tracked: what it replaces is the text
        the user has accepted, unless the file was created in this review already. */
    constructor CreateAgain(tracked: TrackedBuffer)
      ensures Valid() && this.buffer == tracked.buffer
      ensures snapshot == tracked.buffer.text
      ensures status == if tracked.status.Created? then tracked.status else Created(Some(tracked.diffBase))
      ensures diffBase == (if status.existing.Some? then status.existing.value else "")
      ensures unreviewedEdits == [Edit(Span(0, RowCount(diffBase)), Span(0, RowCount(snapshot)))]
    {
      var existing := if tracked.status.Created? then tracked.status.existing else Some(tracked.diffBase);
      var base := if existing.Some? then existing.value else "";
      this.buffer := tracked.buffer;
      diffBase := base;
      unreviewedEdits := [Edit(Span(0, RowCount(base)), Span(0, RowCount(tracked.buffer.text)))];
      snapshot := tracked.buffer.text;
      status := Created(existing);
      new;
      WholePatch(diffBase, snapshot);
    }

    /** `track_edits` with `update_diff`: the buffer has moved on by `edits`; a user's
        edits are rebased into the base, an agent's are left for review. */
    method TrackEdits(author: ChangeAuthor, edits: seq<Edit>, diff: DiffEngine)
      requires Valid() && EditsSince(snapshot, edits, buffer.text) && FindsHunks(diff)
      modifies this
      ensures Valid() && snapshot == buffer.text && status == old(status)
      ensures unreviewedEdits == Unreviewed(diff, diffBase, snapshot)
      ensures author == Agent ==> diffBase == old(diffBase)
      ensures author == User ==>
                && AllInTexts(edits, old(snapshot), snapshot)
                && (var userEdits := Coalesce(RowEdits(edits, old(snapshot), snapshot));
                    && RowsExactly(userEdits, TouchedEdits(edits, old(snapshot), snapshot))
                    && WholeRowsOut(old(snapshot), edits, snapshot, userEdits)
                    && Fits(Applied(old(unreviewedEdits), userEdits), |Rows(old(diffBase))|, |Rows(snapshot)|, 0)
                    && Rows(diffBase)
                       == RebasedBase(Rows(old(diffBase)), old(unreviewedEdits), userEdits, Rows(snapshot))
                    && StandingEdits.AllStand(old(unreviewedEdits), userEdits, Rows(snapshot), Rows(diffBase))
                    && Links(Rows(diffBase), RebasedPatch(old(unreviewedEdits), userEdits), Rows(snapshot)))
    {
      hide Rows, LinksFrom, Links, Separated, Anchored, Fits, Applied, RebasedPatch, RebasedBase, Coalesce, RowEdits,
           EditsSince, AllInTexts, RowsExactly, WholeRowsOut;
      var newSnapshot := buffer.text;
      if author == User {
        var rowEdits := DiffSnapshots(snapshot, newSnapshot, edits);
        Diamond.RebaseDiamond(Rows(diffBase), unreviewedEdits, Rows(snapshot), rowEdits, Rows(newSnapshot));
        var base, changed := RebaseLoop.ApplyNonConflictingEdits(unreviewedEdits, rowEdits, diffBase, newSnapshot,
          Rows(snapshot));
        diffBase := base;
      }
      snapshot := newSnapshot;
      EngineFinds(diff, diffBase, newSnapshot);
      unreviewedEdits := StoreHunks(diffBase, diff(diffBase, newSnapshot), newSnapshot);
    }

    /** `keep_edits_in_range`: folds the hunks that the rows touch into the base. */
    method KeepEditsInRange(range: Span) returns (metrics: Metrics, untracked: bool)
      requires Valid()
      modifies this
      ensures snapshot == old(snapshot) && untracked == old(status).Deleted?
      ensures untracked ==>
                && diffBase == old(diffBase) && unreviewedEdits == old(unreviewedEdits) && status == old(status)
                && metrics == AddEdits(NO_METRICS, unreviewedEdits)
      ensures !untracked ==>
                (var mask := KeepMask(old(unreviewedEdits), range);
                 && Valid() && KeptByRows(old(unreviewedEdits), range, mask)
                 && Fits(Select(old(unreviewedEdits), mask), |Rows(old(diffBase))|, |Rows(snapshot)|, 0)
                 && Rows(diffBase) == Splice(Rows(old(diffBase)), Select(old(unreviewedEdits), mask), Rows(snapshot), 0)
                 && unreviewedEdits == Remaining(old(unreviewedEdits), mask, 0)
                 && metrics == AddEdits(NO_METRICS, Select(old(unreviewedEdits), mask))
                 && status == if unreviewedEdits == [] && old(status).Created? then Modified else old(status))
    {
      hide *;
      metrics := NO_METRICS;
      untracked := false;
      if status.Deleted? {
        metrics, untracked := AddEdits(NO_METRICS, unreviewedEdits), true;
        return;
      }
      var edits, delta, kept, k := unreviewedEdits, 0, [], 0;
      ghost var base, mask := diffBase, [];
      ValidIs();
      KeepStart(edits, range);
      KeepByRows(diffBase, edits, snapshot, range);
      FoldStart(base, edits, Rows(snapshot));
      while k < |edits|
        invariant k <= |edits| && |mask| == k && snapshot == old(snapshot) && status == old(status)
        invariant Folded(Rows(base), edits, Rows(snapshot), mask, diffBase, delta)
        invariant kept == Remaining(edits[..k], mask, 0)
        invariant mask == KeepMask(edits, range)[..k]
        invariant metrics == AddEdits(NO_METRICS, Select(edits[..k], mask))
      {
        var edit := edits[k].ShiftOld(delta);
        KeepStep(edits, mask, range, metrics);
        KeepShifted(edits[k], delta, range, metrics);
        FoldedIs(Rows(base), edits, Rows(snapshot), mask, diffBase, delta);
        if range.end < edit.newRows.start || range.start > edit.newRows.end {
          FoldSkip(Rows(base), edits, Rows(snapshot), mask, diffBase, delta);
          LeaveOne(edits, mask, false);
          mask := mask + [false];
          kept := kept + [edit];
        } else {
          FoldTake(base, edits, snapshot, mask, diffBase, delta);
          LeaveOne(edits, mask, true);
          NoneAdded(kept);
          mask := mask + [true];
          diffBase := ReplaceRows(diffBase, edit.oldRows.start, edit.oldRows.end,
                                  SliceRows(snapshot, edit.newRows.start, edit.newRows.end));
          delta := delta + edit.Growth();
          metrics := metrics.AddEdit(edit);
        }
        k := k + 1;
      }
      KeepDone(Rows(base), edits, Rows(snapshot), mask, diffBase, delta);
      KeepAllMask(edits, range, mask);
      unreviewedEdits := kept;
      if unreviewedEdits == [] && status.Created? {
        status := Modified;
      }
      BecomesValid();
    }

    lemma ValidIs()
      requires Valid()
      ensures PatchBetween(Rows(diffBase), unreviewedEdits, Rows(snapshot))
    {
    }

    lemma BecomesValid()
      requires PatchBetween(Rows(diffBase), unreviewedEdits, Rows(snapshot))
      ensures Valid()
    {
    }

    /** `keep_all_edits`, for this buffer. */
    method KeepAllEdits() returns (metrics: Metrics, untracked: bool)
      requires Valid()
      modifies this
      ensures snapshot == old(snapshot) && untracked == old(status).Deleted?
      ensures metrics == AddEdits(NO_METRICS, old(unreviewedEdits))
      ensures untracked ==>
                diffBase == old(diffBase) && unreviewedEdits == old(unreviewedEdits) && status == old(status)
      ensures !untracked ==> Valid() && diffBase == snapshot && unreviewedEdits == [] && status == Modified
    {
      metrics := AddEdits(NO_METRICS, unreviewedEdits);
      untracked := status.Deleted?;
      if !untracked {
        if status.Created? {
          status := Modified;
        }
        unreviewedEdits := [];
        diffBase := snapshot;
        NoPatch(snapshot);
      }
    }

    /** `keep_committed_edits` with `update_diff`: folds the hunks that the commit makes
        too into the base.  `committed` are the line edits from the base to the
        committed text. */
    method KeepCommittedEdits(gitBase: Rope, committed: seq<Edit>, diff: DiffEngine) returns (ghost mask: seq<bool>)
      requires Valid() && CommittedEdits(committed) && FindsHunks(diff)
      modifies this
      ensures Valid() && snapshot == old(snapshot) && status == old(status)
      ensures unreviewedEdits == Unreviewed(diff, diffBase, snapshot)
      ensures |mask| == |old(unreviewedEdits)|
      ensures Fits(Select(old(unreviewedEdits), mask), |Rows(old(diffBase))|, |Rows(snapshot)|, 0)
      ensures Rows(diffBase) == Splice(Rows(old(diffBase)), Select(old(unreviewedEdits), mask), Rows(snapshot), 0)
      ensures PatchBetween(Rows(diffBase), Remaining(old(unreviewedEdits), mask, 0), Rows(snapshot))
      ensures snapshot == gitBase ==> diffBase == gitBase && mask == AllSet(|mask|)
      ensures snapshot != gitBase ==>
                && (forall k :: 0 <= k < |mask| ==>
                      0 <= old(unreviewedEdits)[k].newRows.start <= old(unreviewedEdits)[k].newRows.end)
                && (forall k :: 0 <= k < |mask| ==>
                      mask[k] == InCommit(committed, old(unreviewedEdits)[k], snapshot, gitBase))
    {
      hide *;
      var edits, newBase, delta, snap := unreviewedEdits, diffBase, 0, snapshot;
      ghost var base := diffBase;
      ValidIs();
      PatchRanges(base, edits, snap);
      if snap == gitBase {
        newBase := gitBase;
        mask := AllSet(|edits|);
        AcceptAll(Rows(base), edits, Rows(snap));
      } else {
        mask := [];
        FoldStart(base, edits, Rows(snap));
        CommitStart(committed, edits, snap, gitBase);
        var k, c := 0, 0;
        while c < |committed|
          invariant unchanged(this)
          invariant c <= |committed| && k <= |edits| && |mask| == k
          invariant Folded(Rows(base), edits, Rows(snap), mask, newBase, delta)
          invariant CommitMask(committed, edits, snap, gitBase, mask)
          invariant NotMet(committed, c, edits, k)
        {
          CommittedAt(committed, c);
          while k < |edits|
            invariant unchanged(this)
            invariant k <= |edits| && |mask| == k
            invariant Folded(Rows(base), edits, Rows(snap), mask, newBase, delta)
            invariant CommitMask(committed, edits, snap, gitBase, mask)
            invariant NotMet(committed, c, edits, k)
          {
            var matches := false;
            OldsAt(edits, k);
            if committed[c].oldRows == edits[k].oldRows {
              var unreviewedNew := SliceClamped(snap, edits[k].newRows);
              var committedNew := SliceClamped(gitBase, committed[c].newRows);
              if unreviewedNew == committedNew {
                FoldedIs(Rows(base), edits, Rows(snap), mask, newBase, delta);
                FoldTake(base, edits, snap, mask, newBase, delta);
                SliceInside(snap, edits[k].newRows);
                ShiftIs(edits[k], delta);
                newBase := ReplaceRows(newBase, edits[k].oldRows.start + delta, edits[k].oldRows.end + delta,
                  unreviewedNew);
                delta := delta + edits[k].Growth();
                matches := true;
              }
            } else if edits[k].oldRows.start >= committed[c].oldRows.end {
              break;
            }
            if !matches {
              FoldSkip(Rows(base), edits, Rows(snap), mask, newBase, delta);
            }
            MetAt(committed, c, edits, k, snap, gitBase);
            SameChangeIs(committed[c], edits[k], snap, gitBase);
            CommitSnoc(committed, edits, snap, gitBase, mask, matches);
            mask := mask + [matches];
            k := k + 1;
          }
          MetAll(committed, c, edits, k);
          c := c + 1;
        }
        mask := LeaveRest(Rows(base), edits, snap, gitBase, committed, mask, newBase, delta);
        KeepDone(Rows(base), edits, Rows(snap), mask, newBase, delta);
        CommitMaskIs(committed, edits, snap, gitBase, mask);
      }
      diffBase := newBase;
      EngineFinds(diff, newBase, snap);
      unreviewedEdits := StoreHunks(newBase, diff(newBase, snap), snap);
      BecomesValid();
    }

    /** `reject_edits_in_ranges`: puts the old text of the hunks that the ranges touch
        back into the buffer, and records how to undo that. */
    method RejectEditsInRanges(ranges: seq<Span>, versionUnchanged: bool)
      returns (metrics: Metrics, undo: seq<UndoEdit>, untracked: bool, deleteFile: bool, ghost mask: seq<bool>)
      requires Valid() && (status.Modified? ==> Drained())
      modifies this, buffer
      ensures untracked == old(status).Created?
      ensures !old(status).Modified? ==> metrics == AddEdits(NO_METRICS, old(unreviewedEdits))
      // An overwritten file gets its content back; a new file is deleted if only the agent wrote it.
      ensures old(status).Created? && old(status).existing.Some? ==>
                && buffer.text == old(status).existing.value && !deleteFile
                && buffer.log == old(buffer.log) + [[TextEdit(0, |old(buffer.text)|, buffer.text)]]
                && undo == WholeUndo(old(buffer.text), |old(buffer.log)|)
      ensures old(status).Created? && old(status).existing.None? ==>
                && buffer.text == old(buffer.text) && undo == []
                && deleteFile == (versionUnchanged && buffer.text == snapshot)
      // A deleted file is restored and tracked as if it had just been read.
      ensures old(status).Deleted? ==>
                && buffer.text == old(diffBase) && undo == [] && !deleteFile
                && Valid() && Drained() && diffBase == old(diffBase) && unreviewedEdits == [] && status == Modified
      ensures !old(status).Deleted? ==>
                diffBase == old(diffBase) && snapshot == old(snapshot) && unreviewedEdits == old(unreviewedEdits)
                && status == old(status)
      ensures old(status).Modified? ==>
                && |mask| == |unreviewedEdits| && RejectMask(unreviewedEdits, ranges, RowCount(snapshot), mask)
                && RejectedByRows(unreviewedEdits, ranges, RowCount(snapshot), mask)
                && Fits(Inverse(Select(unreviewedEdits, mask)), |Rows(snapshot)|, |Rows(diffBase)|, 0)
                && Rows(buffer.text) == Splice(Rows(snapshot), Inverse(Select(unreviewedEdits, mask)),
                  Rows(diffBase), 0)
                && metrics == AddEdits(NO_METRICS, Select(unreviewedEdits, mask)) && !deleteFile
                && |buffer.log| == |old(buffer.log)| + 1
                && UndoesLast(undo, old(buffer.text), buffer.log, buffer.text)
    {
      hide *;
      metrics, undo, untracked, deleteFile, mask := AddEdits(NO_METRICS, unreviewedEdits), [], false, false, [];
      match status {
        case Created(Some(existing)) =>
          undo := WholeUndo(buffer.text, |buffer.log|);
          buffer.SetText(existing);
          untracked := true;
        case Created(None) =>
          deleteFile := versionUnchanged && buffer.text == snapshot;
          untracked := true;
        case Deleted =>
          buffer.SetText(diffBase);
          snapshot, unreviewedEdits, status := diffBase, [], Modified;
          NoPatch(diffBase);
          BecomesValid();
          BecomesDrained();
        case Modified =>
          ValidIs();
          DrainedIs();
          metrics := NO_METRICS;
          var edits, reverts, k, next := unreviewedEdits, [], 0, 0;
          var base, snap, version := diffBase, snapshot, |buffer.log|;
          var rows := RowCount(snap);
          PatchApart(Rows(base), edits, Rows(snap));
          RejectStart(ranges, edits, rows);
          PickNone(base, edits, snap, version);
          while k < |edits|
            invariant unchanged(this) && unchanged(buffer)
            invariant k <= |edits| && |mask| == k && next <= |ranges|
            invariant Dropped(ranges, next, edits, k, rows)
            invariant RejectMask(edits, ranges, rows, mask)
            invariant Picked(base, edits, snap, mask, version, reverts, undo, metrics)
          {
            var edit, revert := edits[k], false;
            var lastRow := LastRow(edit, rows);
            while next < |ranges|
              invariant unchanged(this) && unchanged(buffer)
              invariant next <= |ranges| && !revert
              invariant Dropped(ranges, next, edits, k, rows)
            {
              if ranges[next].end < edit.newRows.start {
                DropOne(ranges, next, edits, k, rows);
                next := next + 1;
              } else if ranges[next].start > lastRow {
                break;
              } else {
                revert := true;
                break;
              }
            }
            if next < |ranges| { TouchesIs(ranges[next], edit, rows); }
            Selected(ranges, next, edits, k, rows, revert);
            RejectMaskSnoc(edits, ranges, rows, mask, revert);
            if revert {
              PickOne(base, edits, snap, mask, version, reverts, undo, metrics);
              metrics := metrics.AddEdit(edit);
              var e := Reverts.RevertEdit(base, snap, edit);
              undo := undo + [UndoEdit(Anchor.Before(version, e.start), Anchor.After(version, e.end),
                                       snap[e.start..e.end])];
              reverts := reverts + [e];
            } else {
              PickSkip(base, edits, snap, mask, version, reverts, undo, metrics);
            }
            mask := mask + [revert];
            k := k + 1;
          }
          PickedAll(base, edits, snap, mask, buffer.log, reverts, undo, metrics);
          MaskByRows(base, edits, snap, ranges, mask);
          buffer.Edit(reverts);
      }
    }

    lemma BecomesDrained()
      requires buffer.text == snapshot
      ensures Drained()
    {
    }

    lemma DrainedIs()
      requires Drained()
      ensures buffer.text == snapshot
    {
    }
  }

  /** The anchors of an undo all belong to versions of the buffer. */
  ghost predicate UndoResolves(undo: seq<UndoEdit>, log: seq<seq<TextEdit>>) {
    forall k :: 0 <= k < |undo| ==> undo[k].start.version <= |log| && undo[k].end.version <= |log|
  }

  /** Made right now, the undo turns `text` into `before`. */
  ghost predicate UndoesLast(undo: seq<UndoEdit>, before: Rope, log: seq<seq<TextEdit>>, text: Rope) {
    && UndoResolves(undo, log)
    && Ordered(ResolveUndo(log, undo), |text|, 0)
    && ApplyEdits(text, ResolveUndo(log, undo), 0) == before
  }

  lemma UndoInText(undo: seq<UndoEdit>, before: Rope, log: seq<seq<TextEdit>>, text: Rope)
    requires UndoesLast(undo, before, log, text)
    ensures UndoResolves(undo, log) && InText(ResolveUndo(log, undo), |text|)
  {
    MergedSame(text, ResolveUndo(log, undo));
  }

  /** `undo_last_reject`, for one buffer. */
  method UndoLastReject(buffer: Buffer, undo: seq<UndoEdit>)
    requires UndoResolves(undo, buffer.log) && InText(ResolveUndo(buffer.log, undo), |buffer.text|)
    modifies buffer
    ensures forall before: Rope :: UndoesLast(undo, before, old(buffer.log), old(buffer.text)) ==> buffer.text == before
    ensures var edits := ResolveUndo(old(buffer.log), undo);
            && Disjoint(Merged(edits), |old(buffer.text)|, 0)
            && buffer.text == ApplyEdits(old(buffer.text), Merged(edits), 0)
            && buffer.log == old(buffer.log) + [Merged(edits)]
  {
    buffer.Edit(ResolveUndo(buffer.log, undo));
  }

  /** A reject and its undo, with no edit in between, leave the buffer as it was: for the
      hunks of a modified file and for an overwritten file. */
  method RejectThenUndo(tracked: TrackedBuffer, ranges: seq<Span>, versionUnchanged: bool)
    requires tracked.Valid() && (tracked.status.Modified? ==> tracked.Drained())
    requires tracked.status.Modified? || (tracked.status.Created? && tracked.status.existing.Some?)
    modifies tracked, tracked.buffer
    ensures tracked.buffer.text == old(tracked.buffer.text)
  {
    ghost var before, log := tracked.buffer.text, tracked.buffer.log;
    var metrics, undo, untracked, deleteFile, mask := tracked.RejectEditsInRanges(ranges, versionUnchanged);
    if untracked {
      WholeUndoRestores(before, tracked.buffer.text, log);
    }
    UndoInText(undo, before, tracked.buffer.log, tracked.buffer.text);
    UndoLastReject(tracked.buffer, undo);
  }

  /** A file that is created over a tracked buffer and rejected has the text again that the
      user had accepted before. */
  method CreateThenReject(tracked: TrackedBuffer, ranges: seq<Span>, versionUnchanged: bool)
    requires !tracked.status.Created?
    modifies tracked.buffer
    ensures tracked.buffer.text == old(tracked.diffBase)
  {
    var created := new TrackedBuffer.CreateAgain(tracked);
    var metrics, undo, untracked, deleteFile, mask := created.RejectEditsInRanges(ranges, versionUnchanged);
  }

  /** The undo record of an overwritten file: everything between the first and the
      last place of the buffer. */
  function WholeUndo(t: Rope, version: nat): seq<UndoEdit> {
    [UndoEdit(Anchor.Before(version, 0), Anchor.After(version, |t|), t)]
  }

  /** Rejecting an overwritten file and undoing it restores the agent's content. */
  lemma WholeUndoRestores(t: Rope, content: Rope, log: seq<seq<TextEdit>>)
    ensures var all := TextEdit(0, |t|, content);
            UndoesLast(WholeUndo(t, |log|), t, log + [[all]], content)
  {
    var all := TextEdit(0, |t|, content);
    var log' := log + [[all]];
    CarryOnce(log', 0, |t|);
    var undo := WholeUndo(t, |log|);
    assert CarryBefore([all], 0, 0) == 0;
    assert [all][1..] == [];
    assert CarryAfter([all], |t|, 0) == |content|;
    assert undo[1..] == [];
    assert ResolveUndo(log', undo) == [TextEdit(0, |content|, t)];
    assert [TextEdit(0, |content|, t)][1..] == [];
    assert content[..0] + t + content[|content|..] == t;
  }

  /** The reverts picked, made all at once, splice the base rows back; and the undo
      recorded with them restores the buffer. */
  lemma PickedAll(base: Rope, p: seq<Edit>, snap: Rope, mask: seq<bool>, log: seq<seq<TextEdit>>,
                  reverts: seq<TextEdit>, undo: seq<UndoEdit>, m: Metrics)
    requires |mask| == |p| && Picked(base, p, snap, mask, |log|, reverts, undo, m)
    ensures Ordered(reverts, |snap|, 0)
    ensures Fits(Inverse(Select(p, mask)), |Rows(snap)|, |Rows(base)|, 0)
    ensures Rows(ApplyEdits(snap, reverts, 0)) == Splice(Rows(snap), Inverse(Select(p, mask)), Rows(base), 0)
    ensures m == AddEdits(NO_METRICS, Select(p, mask))
    ensures InText(reverts, |snap|)
    ensures UndoesLast(undo, snap, log + [Merged(reverts)], ApplyEdits(snap, reverts, 0))
  {
    hide Rows, Ordered, ApplyEdits, Splice, Fits, Select, Reverts.HunksFit, Merged, CarryBefore, CarryAfter;
    assert p[..|p|] == p;
    Reverts.RevertsSplice(base, snap, Select(p, mask));
    MergedSame(snap, reverts);
    ResolveRecorded(snap, log + [Merged(reverts)], Merged(reverts), reverts);
    UndoMerged(snap, reverts, reverts);
    UndoRestores(snap, reverts);
  }

  lemma RejectStart(ranges: seq<Span>, p: seq<Edit>, rows: nat)
    ensures Dropped(ranges, 0, p, 0, rows) && RejectMask(p, ranges, rows, [])
  {
  }

  lemma TouchesIs(range: Span, e: Edit, rows: nat)
    ensures RejectTouches(range, e, rows) <==> range.end >= e.newRows.start && range.start <= LastRow(e, rows)
  {
  }

  // ---- Commits -----------------------------------------------------------------------------

  lemma AcceptAll(base: seq<string>, p: seq<Edit>, snap: seq<string>)
    requires PatchBetween(base, p, snap)
    ensures Fits(Select(p, AllSet(|p|)), |base|, |snap|, 0)
    ensures Splice(base, Select(p, AllSet(|p|)), snap, 0) == snap
    ensures PatchBetween(snap, Remaining(p, AllSet(|p|), 0), snap)
  {
    hide LinksFrom, Separated, Anchored, Fits, Splice, Select, Remaining;
    SelectAll(p, AllSet(|p|));
    SpliceLinks(base, p, snap, 0, 0);
    assert snap[0..] == snap;
    AcceptPatch(base, p, snap, AllSet(|p|));
  }

  lemma CommitStart(committed: seq<Edit>, p: seq<Edit>, snap: Rope, gitBase: Rope)
    requires CommittedEdits(committed)
    requires forall k :: 0 <= k < |p| ==> 0 <= p[k].newRows.start <= p[k].newRows.end
    ensures CommitMask(committed, p, snap, gitBase, []) && NotMet(committed, 0, p, 0)
  {
  }

  lemma CommittedAt(committed: seq<Edit>, c: nat)
    requires CommittedEdits(committed) && c < |committed|
    ensures committed[c].oldRows.start <= committed[c].oldRows.end
    ensures 0 <= committed[c].newRows.start <= committed[c].newRows.end
  {
  }

  lemma OldsAt(p: seq<Edit>, k: nat)
    requires OldsOrdered(p) && k < |p|
    ensures p[k].oldRows.start <= p[k].oldRows.end
  {
  }

  lemma SameChangeIs(c: Edit, h: Edit, snap: Rope, gitBase: Rope)
    requires 0 <= c.newRows.start <= c.newRows.end && 0 <= h.newRows.start <= h.newRows.end
    ensures SameChange(c, h, snap, gitBase)
            <==> c.oldRows == h.oldRows && SliceClamped(snap, h.newRows) == SliceClamped(gitBase, c.newRows)
  {
  }

  lemma CommitSnoc(committed: seq<Edit>, p: seq<Edit>, snap: Rope, gitBase: Rope, mask: seq<bool>, take: bool)
    requires CommittedEdits(committed)
    requires forall k :: 0 <= k < |p| ==> 0 <= p[k].newRows.start <= p[k].newRows.end
    requires CommitMask(committed, p, snap, gitBase, mask) && |mask| < |p|
    requires take == InCommit(committed, p[|mask|], snap, gitBase)
    ensures CommitMask(committed, p, snap, gitBase, mask + [take])
  {}

  /** Hunks behind the last edit of the commit stay unreviewed. */
  lemma LeaveRest(base: seq<string>, p: seq<Edit>, snap: Rope, gitBase: Rope, committed: seq<Edit>,
                  mask: seq<bool>, sofar: Rope, delta: int) returns (full: seq<bool>)
    requires CommittedEdits(committed) && NotMet(committed, |committed|, p, |mask|)
    requires forall k :: 0 <= k < |p| ==> 0 <= p[k].newRows.start <= p[k].newRows.end
    requires Folded(base, p, Rows(snap), mask, sofar, delta) && CommitMask(committed, p, snap, gitBase, mask)
    ensures |full| == |p|
    ensures Folded(base, p, Rows(snap), full, sofar, delta) && CommitMask(committed, p, snap, gitBase, full)
    decreases |p| - |mask|
  {
    hide Folded, CommitMask, InCommit, NotMet;
    FoldedIs(base, p, Rows(snap), mask, sofar, delta);
    if |mask| == |p| {
      full := mask;
    } else {
      FoldSkip(base, p, Rows(snap), mask, sofar, delta);
      NotMetNotIn(committed, p, |mask|, snap, gitBase);
      CommitSnoc(committed, p, snap, gitBase, mask, false);
      NotMetLater(committed, p, |mask|, |mask| + 1);
      full := LeaveRest(base, p, snap, gitBase, committed, mask + [false], sofar, delta);
    }
  }

  lemma NotMetLater(committed: seq<Edit>, p: seq<Edit>, k: nat, l: nat)
    requires NotMet(committed, |committed|, p, k) && k <= l
    ensures NotMet(committed, |committed|, p, l)
  {
  }

  lemma CommitMaskIs(committed: seq<Edit>, p: seq<Edit>, snap: Rope, gitBase: Rope, mask: seq<bool>)
    requires CommittedEdits(committed) && |mask| == |p|
    requires forall k :: 0 <= k < |p| ==> 0 <= p[k].newRows.start <= p[k].newRows.end
    requires CommitMask(committed, p, snap, gitBase, mask)
    ensures forall k :: 0 <= k < |mask| ==> mask[k] == InCommit(committed, p[k], snap, gitBase)
  {
  }

  lemma KeepStart(p: seq<Edit>, range: Span)
    ensures KeepMask(p, range)[..0] == [] && Remaining(p[..0], [], 0) == []
    ensures NO_METRICS == AddEdits(NO_METRICS, Select(p[..0], []))
  {}

  lemma KeepShifted(e: Edit, delta: int, range: Span, m: Metrics)
    ensures e.ShiftOld(delta).newRows == e.newRows
      && e.ShiftOld(delta).oldRows == Span(e.oldRows.start + delta, e.oldRows.end + delta)
    ensures KeepTouches(range, e) <==> !(range.end < e.newRows.start || range.start > e.newRows.end)
    ensures m.AddEdit(e.ShiftOld(delta)) == m.AddEdit(e)
  {
  }

  lemma KeepAllMask(p: seq<Edit>, range: Span, mask: seq<bool>)
    requires mask == KeepMask(p, range)[..|p|]
    ensures mask == KeepMask(p, range)
  {
  }
}
