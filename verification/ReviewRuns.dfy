/** Whole runs of a review, with every diff update made before the next step.  A review
    sees its own reverts as user edits; as long as no rejected hunk slips, the base stays
    the text first read, however the agent edits, and rejecting everything restores that
    text.  Nothing slips if the diff engine leaves no hunk at a blank row of both texts,
    or if the text first read has no two blank rows in a row. */
module ReviewRuns {
  import opened RopeText
  import opened Patches
  import opened Conflicts
  import opened Rebase
  import Diamond
  import opened SnapshotDiffs
  import opened Reverts
  import opened PatchParts
  import opened RevertRows
  import opened EngineHunks
  import opened HunkShifts

  // ---- One reject ------------------------------------------------------------------------

  /** The user edits that a reject of the hunks `hs` turns into. */
  ghost function RevertUserEdits(base: Rope, snap: Rope, hs: seq<Edit>): seq<Edit>
    requires HunksFit(hs, RowCount(base), RowCount(snap))
  {
    RevertsReported(base, snap, hs);
    Coalesce(RowEdits(CharEdits(RevertEdits(base, snap, hs), 0), snap, Reverted(base, snap, hs)))
  }

  lemma RevertsReported(base: Rope, snap: Rope, hs: seq<Edit>)
    requires HunksFit(hs, RowCount(base), RowCount(snap))
    ensures var q := CharEdits(RevertEdits(base, snap, hs), 0);
            && |q| == |hs|
            && EditsSince(snap, q, Reverted(base, snap, hs))
            && AllInTexts(q, snap, Reverted(base, snap, hs))
  {
    RevertsSplice(base, snap, hs);
    RevertEditsCount(base, snap, hs);
    BatchIsEditsSince(snap, RevertEdits(base, snap, hs));
    EditsSinceInTexts(snap, CharEdits(RevertEdits(base, snap, hs), 0), Reverted(base, snap, hs));
  }

  ghost predicate NoneFree(r: seq<Edit>, p: seq<Edit>) {
    forall k :: 0 <= k < |r| ==> !Free(r[k], p)
  }

  lemma ExtendConflicts(e: Edit, next: Edit, p: seq<Edit>)
    requires !Free(e, p) && e.oldRows.end <= next.oldRows.end
    ensures !Free(Extend(e, next), p)
  {
    var k :| 0 <= k < |p| && Conflict(e, p[k]);
    assert Conflict(Extend(e, next), p[k]);
  }

  /** Merging edits that all meet conflicts leaves none that does not. */
  lemma {:induction false} CoalesceConflicts<T>(a: seq<T>, e: Edit, r: seq<Edit>, b: seq<T>, p: seq<Edit>)
    requires RowGaps(a, r, b, e.oldRows.end, e.newRows.end)
    requires !Free(e, p) && NoneFree(r, p)
    ensures NoneFree(CoalesceFrom(e, r), p)
    decreases r
  {
    hide Free;
    if r != [] {
      assert NoneFree(r[1..], p) by { assert forall k :: 0 <= k < |r[1..]| ==> r[1..][k] == r[k + 1]; }
      assert !Free(r[0], p);
      if e.oldRows.end >= r[0].oldRows.start {
        ExtendConflicts(e, r[0], p);
        CoalesceConflicts(a, Extend(e, r[0]), r[1..], b, p);
      } else {
        CoalesceConflicts(a, r[0], r[1..], b, p);
      }
    }
  }

  lemma {:induction false} SelectedIn(p: seq<Edit>, mask: seq<bool>, k: nat)
    requires |mask| == |p| && k < |Select(p, mask)|
    ensures Select(p, mask)[k] in p
    decreases |p|
  {
    if p != [] {
      if mask[0] {
        if k > 0 {
          assert Select(p, mask)[k] == Select(p[1..], mask[1..])[k - 1];
          SelectedIn(p[1..], mask[1..], k - 1);
        }
      } else {
        assert Select(p, mask) == Select(p[1..], mask[1..]);
        SelectedIn(p[1..], mask[1..], k);
      }
    }
  }

  /** If no rejected hunk slips, every row edit of the reject meets a conflict. */
  lemma RevertsNotFree(base: Rope, p: seq<Edit>, snap: Rope, mask: seq<bool>)
    requires PatchBetween(Rows(base), p, Rows(snap)) && |mask| == |p|
    requires HunksFit(Select(p, mask), RowCount(base), RowCount(snap))
    requires NoneSlips(base, Select(p, mask), snap)
    ensures NoneFree(RevertUserEdits(base, snap, Select(p, mask)), p)
  {
    hide *;
    var hs := Select(p, mask);
    var q, x := CharEdits(RevertEdits(base, snap, hs), 0), Reverted(base, snap, hs);
    RevertsReported(base, snap, hs);
    EditsSinceGaps(snap, q, x);
    var r := RowEdits(q, snap, x);
    forall k | 0 <= k < |r| ensures !Free(r[k], p) {
      MakeReverting(base, snap, hs, k);
      NotSlipping(base, hs, snap, k);
      RevertCharIs(base, snap, hs, k);
      SelectedIn(p, mask, k);
      var n :| 0 <= n < |p| && p[n] == hs[k];
      RevertConflicts(base, p, snap, hs, k, n);
      NotFreeIn(r[k], hs[k], p);
    }
    RevertsCoalesced(Rows(snap), r, Rows(x), p);
    RevertUserEditsIs(base, snap, hs);
  }

  lemma NotSlipping(base: Rope, hs: seq<Edit>, snap: Rope, k: nat)
    requires NoneSlips(base, hs, snap) && k < |hs|
    ensures !Slips(base, snap, hs[k])
  {}

  lemma RevertsCoalesced<T>(a: seq<T>, r: seq<Edit>, b: seq<T>, p: seq<Edit>)
    requires RowGaps(a, r, b, 0, 0)
    requires forall k :: 0 <= k < |r| ==> !Free(r[k], p)
    ensures NoneFree(Coalesce(r), p)
  {
    hide Free;
    if r != [] {
      assert forall k :: 0 <= k < |r[1..]| ==> r[1..][k] == r[k + 1];
      CoalesceConflicts(a, r[0], r[1..], b, p);
    }
  }

  lemma RevertUserEditsIs(base: Rope, snap: Rope, hs: seq<Edit>)
    requires HunksFit(hs, RowCount(base), RowCount(snap))
    requires AllInTexts(CharEdits(RevertEdits(base, snap, hs), 0), snap, Reverted(base, snap, hs))
    ensures RevertUserEdits(base, snap, hs)
            == Coalesce(RowEdits(CharEdits(RevertEdits(base, snap, hs), 0), snap, Reverted(base, snap, hs)))
  {
  }

  lemma MakeReverting(base: Rope, snap: Rope, hs: seq<Edit>, k: nat)
    requires HunksFit(hs, RowCount(base), RowCount(snap)) && k < |hs|
    ensures Reverting(base, snap, hs, k)
  {
  }

  lemma NotFreeIn(e: Edit, h: Edit, p: seq<Edit>)
    requires h in p && Conflict(e, h)
    ensures !Free(e, p)
  {
    var k :| 0 <= k < |p| && p[k] == h;
  }

  /** A reject of hunks that do not slip leaves the base as it is. */
  lemma RejectKeepsBase(base: Rope, p: seq<Edit>, snap: Rope, mask: seq<bool>)
    requires PatchBetween(Rows(base), p, Rows(snap)) && |mask| == |p|
    requires HunksFit(Select(p, mask), RowCount(base), RowCount(snap))
    requires NoneSlips(base, Select(p, mask), snap)
    ensures var u := RevertUserEdits(base, snap, Select(p, mask));
            && Applied(p, u) == []
            && RebasedBase(Rows(base), p, u, Rows(Reverted(base, snap, Select(p, mask)))) == Rows(base)
  {
    RevertsNotFree(base, p, snap, mask);
    Diamond.NoneApplied(p, RevertUserEdits(base, snap, Select(p, mask)));
    assert Rows(base)[0..] == Rows(base);
  }

  /** Rejecting every hunk puts the base back into the buffer. */
  lemma RejectAllRestores(base: Rope, p: seq<Edit>, snap: Rope)
    requires PatchBetween(Rows(base), p, Rows(snap))
    ensures HunksFit(p, RowCount(base), RowCount(snap))
    ensures Reverted(base, snap, p) == base
  {
    RejectableHunks(Rows(base), p, Rows(snap), AllSet(|p|));
    SelectAll(p, AllSet(|p|));
    RevertsSplice(base, snap, p);
    LinksInverse(Rows(base), p, Rows(snap), 0, 0);
    SpliceLinks(Rows(snap), Inverse(p), Rows(base), 0, 0);
    assert Rows(base)[0..] == Rows(base);
    RowsInjective(Reverted(base, snap, p), base);
  }

  // ---- Runs --------------------------------------------------------------------------------

  /** A review between two updates: the hunks are those stored from what the engine found. */
  datatype Session = Session(base: Rope, found: seq<Edit>, snapshot: Rope)

  /** What happens between two states in which all updates have been made. */
  datatype Step = AgentEdits | Rejects(mask: seq<bool>)

  ghost predicate Consistent(s: Session) { Found(s.base, s.found, s.snapshot) }

  ghost function Hunks(s: Session): seq<Edit>
    requires Consistent(s)
  {
    Stored(s.base, s.found, s.snapshot)
  }

  /** A session starts by reading a buffer. */
  predicate Starts(s: Session) { s.base == s.snapshot && s.found == [] }

  /** An agent's edits change the snapshot and leave the base; a reject reverts hunks
      and rebases the reverts as user edits.  Either way the engine then finds some diff
      between the new base and the new snapshot. */
  ghost predicate Steps(s: Session, step: Step, s': Session) {
    && Consistent(s) && Consistent(s')
    && match step
       case AgentEdits => s'.base == s.base
       case Rejects(mask) =>
         && |mask| == |Hunks(s)|
         && HunksFit(Select(Hunks(s), mask), RowCount(s.base), RowCount(s.snapshot))
         && s'.snapshot == Reverted(s.base, s.snapshot, Select(Hunks(s), mask))
         && (var u := RevertUserEdits(s.base, s.snapshot, Select(Hunks(s), mask));
             && Fits(Applied(Hunks(s), u), |Rows(s.base)|, |Rows(s'.snapshot)|, 0)
             && Rows(s'.base) == RebasedBase(Rows(s.base), Hunks(s), u, Rows(s'.snapshot)))
  }

  /** No hunk that the step rejects slips: to be read off base, snapshot and hunks. */
  ghost predicate Stays(s: Session, step: Step) {
    Consistent(s) && step.Rejects? && |step.mask| == |Hunks(s)| ==>
      NoneSlips(s.base, Select(Hunks(s), step.mask), s.snapshot)
  }

  ghost predicate Run(states: seq<Session>, steps: seq<Step>) {
    && |states| == |steps| + 1 && Consistent(states[0])
    && forall k :: 0 <= k < |steps| ==> Steps(states[k], steps[k], states[k + 1])
  }

  /** The steps of a reject are always possible: any hunks of a consistent session can
      be reverted, and the rebase of the reverts is defined. */
  lemma RejectEnabled(s: Session, mask: seq<bool>)
    requires Consistent(s) && |mask| == |Hunks(s)|
    ensures HunksFit(Select(Hunks(s), mask), RowCount(s.base), RowCount(s.snapshot))
    ensures var hs := Select(Hunks(s), mask);
            var u := RevertUserEdits(s.base, s.snapshot, hs);
            && Diamond.RebaseInput(Rows(s.base), Hunks(s), Rows(s.snapshot), u, Rows(Reverted(s.base, s.snapshot, hs)))
            && Fits(Applied(Hunks(s), u), |Rows(s.base)|, |Rows(Reverted(s.base, s.snapshot, hs))|, 0)
  {
    hide Rows, LinksFrom, Links, Separated, Fits, Applied, Reverted, Coalesce, RowEdits, CharEdits, Select, HunksFit,
         EditsSince, Found, Stored;
    StoredPatch(s.base, s.found, s.snapshot);
    RejectableHunks(Rows(s.base), Hunks(s), Rows(s.snapshot), mask);
    var hs := Select(Hunks(s), mask);
    RevertsReported(s.base, s.snapshot, hs);
    DiffLinks(s.snapshot, CharEdits(RevertEdits(s.base, s.snapshot, hs), 0), Reverted(s.base, s.snapshot, hs));
    Diamond.RebaseDiamond(Rows(s.base), Hunks(s), Rows(s.snapshot), RevertUserEdits(s.base, s.snapshot, hs),
                  Rows(Reverted(s.base, s.snapshot, hs)));
  }

  lemma StepKeepsBase(s: Session, step: Step, s': Session)
    requires Steps(s, step, s') && Stays(s, step)
    ensures s'.base == s.base
  {
    hide Found, Stored, PatchBetween, NoneSlips, RebasedBase;
    if step.Rejects? {
      StoredPatch(s.base, s.found, s.snapshot);
      RejectKeepsBase(s.base, Hunks(s), s.snapshot, step.mask);
      RowsInjective(s'.base, s.base);
    }
  }

  /** In every run of agent edits and rejects of hunks that do not slip, the base is the
      text first read, and rejecting all hunks of any state restores that text. */
  lemma {:induction false} RunKeepsBase(states: seq<Session>, steps: seq<Step>, k: nat)
    requires Run(states, steps) && Starts(states[0]) && k < |states|
    requires forall l :: 0 <= l < k ==> Stays(states[l], steps[l])
    ensures Consistent(states[k]) && states[k].base == states[0].snapshot
    ensures HunksFit(Hunks(states[k]), RowCount(states[k].base), RowCount(states[k].snapshot))
    ensures Reverted(states[k].base, states[k].snapshot, Hunks(states[k])) == states[0].snapshot
    decreases k
  {
    hide Stays, Found, Stored, HunksFit, Reverted;
    if k > 0 {
      RunKeepsBase(states, steps, k - 1);
      assert Steps(states[k - 1], steps[k - 1], states[k]);
      StepKeepsBase(states[k - 1], steps[k - 1], states[k]);
    }
    StoredPatch(states[k].base, states[k].found, states[k].snapshot);
    RejectAllRestores(states[k].base, Hunks(states[k]), states[k].snapshot);
  }

  lemma SelectedStay(base: Rope, hunks: seq<Edit>, snap: Rope, mask: seq<bool>)
    requires NoneSlips(base, hunks, snap) && |mask| == |hunks|
    ensures NoneSlips(base, Select(hunks, mask), snap)
  {
    hide Slips;
    var hs := Select(hunks, mask);
    forall k | 0 <= k < |hs| ensures !Slips(base, snap, hs[k]) {
      SelectedIn(hunks, mask, k);
      var n :| 0 <= n < |hunks| && hunks[n] == hs[k];
    }
  }

  /** If the engine leaves no hunk starting at a blank row of both texts, every run keeps
      the base, whatever is rejected. */
  lemma SettledRunKeepsBase(states: seq<Session>, steps: seq<Step>, k: nat)
    requires Run(states, steps) && Starts(states[0]) && k < |states|
    requires forall l :: 0 <= l < k && Consistent(states[l]) ==>
      Settled(states[l].base, states[l].found, states[l].snapshot)
    ensures Consistent(states[k]) && states[k].base == states[0].snapshot
    ensures HunksFit(Hunks(states[k]), RowCount(states[k].base), RowCount(states[k].snapshot))
    ensures Reverted(states[k].base, states[k].snapshot, Hunks(states[k])) == states[0].snapshot
  {
    hide Found, Stored, Settled, NoneSlips, HunksFit, Reverted;
    forall l | 0 <= l < k ensures Stays(states[l], steps[l]) {
      var s := states[l];
      assert Steps(s, steps[l], states[l + 1]);
      SettledStays(s.base, s.found, s.snapshot);
      if steps[l].Rejects? { SelectedStay(s.base, Hunks(s), s.snapshot, steps[l].mask); }
    }
    RunKeepsBase(states, steps, k);
  }

  /** If no two blank rows follow each other in the text first read, and the engine leaves
      no common blank line at the start of a hunk, every run keeps the base, whatever the
      agent writes and whatever is rejected. */
  lemma {:induction false} PlainRunKeepsBase(states: seq<Session>, steps: seq<Step>, k: nat)
    requires Run(states, steps) && Starts(states[0]) && k < |states|
    requires NoTwoBlanks(states[0].snapshot)
    requires forall l :: 0 <= l < k && Consistent(states[l]) ==>
      Trimmed(states[l].base, states[l].found, states[l].snapshot)
    ensures Consistent(states[k]) && states[k].base == states[0].snapshot
    ensures HunksFit(Hunks(states[k]), RowCount(states[k].base), RowCount(states[k].snapshot))
    ensures Reverted(states[k].base, states[k].snapshot, Hunks(states[k])) == states[0].snapshot
    decreases k
  {
    hide Found, Stored, Trimmed, NoneSlips, HunksFit, Reverted, NoTwoBlanks;
    forall l | 0 <= l < k ensures Stays(states[l], steps[l]) {
      var s := states[l];
      PlainRunKeepsBase(states, steps, l);
      NoTwoBlanksStays(s.base, s.found, s.snapshot);
      if steps[l].Rejects? && |steps[l].mask| == |Hunks(s)| {
        SelectedStay(s.base, Hunks(s), s.snapshot, steps[l].mask);
      }
    }
    RunKeepsBase(states, steps, k);
  }

  // ---- Undoing a reject ------------------------------------------------------------------------

  /** With nothing to review, all user edits are applied: the base becomes the text. */
  lemma NothingReviewed(base: Rope, edits: seq<Edit>, text: Rope)
    requires EditsSince(base, edits, text)
    ensures AllInTexts(edits, base, text)
    ensures var u := Coalesce(RowEdits(edits, base, text));
      && Fits(Applied([], u), |Rows(base)|, |Rows(text)|, 0)
      && RebasedBase(Rows(base), [], u, Rows(text)) == Rows(text)
  {
    hide Rows, LinksFrom, EditsSince, Coalesce, RowEdits, Separated, Anchored;
    DiffLinks(base, edits, text);
    var u := Coalesce(RowEdits(edits, base, text));
    AllApplied(u);
    SpliceLinks(Rows(base), u, Rows(text), 0, 0);
    assert Rows(text)[0..] == Rows(text);
  }

  lemma {:induction false} AllApplied(u: seq<Edit>)
    ensures Applied([], u) == u
  {
    if u != [] { AllApplied(u[1..]); }
  }

  /** Rejecting everything and undoing it accepts everything: the undo comes back as a user
      edit when nothing is left to review, so that the agent's text becomes the base and
      no hunk is left, although the buffer is as it was. */
  lemma UndoneRejectIsAccepted(base: Rope, snap: Rope, diff: DiffEngine, undo: seq<Edit>)
    requires FindsHunks(diff) && NoneSlips(base, Unreviewed(diff, base, snap), snap)
    requires EditsSince(base, undo, snap)
    ensures var hunks := Unreviewed(diff, base, snap);
      && HunksFit(hunks, RowCount(base), RowCount(snap))
      // The buffer after the reject, and the base after its update.
      && Reverted(base, snap, hunks) == base
      && Applied(hunks, RevertUserEdits(base, snap, hunks)) == []
      && Unreviewed(diff, base, base) == []
      // The base and the hunks after the update for the undo.
      && AllInTexts(undo, base, snap)
      && Fits(Applied([], Coalesce(RowEdits(undo, base, snap))), |Rows(base)|, |Rows(snap)|, 0)
      && RebasedBase(Rows(base), [], Coalesce(RowEdits(undo, base, snap)), Rows(snap)) == Rows(snap)
      && Unreviewed(diff, snap, snap) == []
  {
    hide *;
    EngineFinds(diff, base, snap);
    StoredPatch(base, diff(base, snap), snap);
    var hunks := Unreviewed(diff, base, snap);
    RejectAllRestores(base, hunks, snap);
    SelectEverything(hunks);
    RejectKeepsBase(base, hunks, snap, AllSet(|hunks|));
    NothingFound(diff, base);
    NothingFound(diff, snap);
    NothingReviewed(base, undo, snap);
  }

  lemma SelectEverything(p: seq<Edit>)
    ensures |AllSet(|p|)| == |p| && Select(p, AllSet(|p|)) == p
  {
    SelectAll(p, AllSet(|p|));
  }

  lemma NothingFound(diff: DiffEngine, t: Rope)
    requires FindsHunks(diff)
    ensures Unreviewed(diff, t, t) == []
  {}
}
