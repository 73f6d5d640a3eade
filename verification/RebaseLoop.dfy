/** The loop that rebases user edits: two pointers, one into the hunks and one into
    the edits, and two running deltas.  It applies exactly the free edits. */
module RebaseLoop {
  import opened RopeText
  import opened Patches
  import opened Conflicts
  import opened Rebase
  import opened Diamond
  import StandingEdits

  // ---- Fitting one more edit -----------------------------------------------------

  lemma {:induction false} FitsPrefix(p: seq<Edit>, e: Edit, q: seq<Edit>, n: nat, m: nat, i: int)
    requires Fits(p + [e] + q, n, m, i)
    ensures FitsAfter(p, e, n, m, i)
  {
    var all := p + [e] + q;
    if p == [] {
      assert all[0] == e;
    } else {
      assert all[0] == p[0] && all[1..] == p[1..] + [e] + q;
      FitsPrefix(p[1..], e, q, n, m, p[0].oldRows.end);
    }
  }

  /** An edit reaches the end of one text exactly if it reaches the end of the other. */
  lemma {:induction false} EndsTogether<T>(a: seq<T>, p: seq<Edit>, b: seq<T>, i: int, j: int, k: nat)
    requires LinksFrom(a, p, b, i, j) && k < |p|
    requires Anchored(p, |a|, |b|)
    ensures p[k].oldRows.end == |a| <==> p[k].newRows.end == |b|
  {
    LinksSkip(a, p, b, i, j, k + 1);
    if k + 1 < |p| {
      var e := p[k + 1];
      assert p[k + 1..][0] == e;
    } else {
      assert |a[p[k].oldRows.end..]| == |b[p[k].newRows.end..]|;
    }
  }

  /** A free edit, taken to the base, starts at a row of the base and reaches the end
      of the base exactly if it reaches the end of the snapshot. */
  lemma InBaseAnchored<T>(base: seq<T>, p: seq<Edit>, snap: seq<T>, edit: Edit, n: nat)
    requires Links(base, p, snap) && Anchored(p, |base|, |snap|) && n <= |p|
    requires 0 <= edit.oldRows.start <= edit.oldRows.end <= |snap| && edit.oldRows.start < |snap|
    requires AllAfter(edit, p[..n]) && AllBefore(edit, p[n..])
    ensures var e := edit.ShiftOld(-Growth(p[..n]));
            && 0 <= e.oldRows.start < |base|
            && (e.oldRows.end == |base| <==> edit.oldRows.end == |snap|)
  {
    LinksSkip(base, p, snap, 0, 0, n);
    var i' := if n == 0 then 0 else p[n - 1].oldRows.end;
    var j' := if n == 0 then 0 else p[n - 1].newRows.end;
    if n > 0 { assert After(edit, p[..n][n - 1]); }
    if n < |p| {
      assert Before(edit, p[n..][0]);
      assert |base[i'..p[n].oldRows.start]| == |snap[j'..p[n].newRows.start]|;
    } else {
      assert |base[i'..]| == |snap[j'..]|;
    }
  }

  // ---- What the pointers know ----------------------------------------------------

  /** All edits from `l` on lie behind the first `n` hunks. */
  ghost predicate Passed(p: seq<Edit>, n: nat, u: seq<Edit>, l: nat) {
    n <= |p| && forall k :: l <= k < |u| ==> AllAfter(u[k], p[..n])
  }

  /** An edit in front of a hunk is in front of all hunks behind it. */
  lemma BeforeRest(p: seq<Edit>, n: nat, edit: Edit)
    requires HunksApart(p) && n <= |p| && edit.oldRows.start <= edit.oldRows.end
    requires n < |p| ==> Before(edit, p[n])
    ensures AllBefore(edit, p[n..])
  {
  }

  lemma AppliedSnoc(p: seq<Edit>, u: seq<Edit>, c: nat)
    requires c < |u|
    ensures Applied(p, u[..c + 1]) == Applied(p, u[..c]) + (if Free(u[c], p) then [InBase(p, u[c])] else [])
  {
    assert u[..c + 1] == u[..c] + [u[c]];
    AppliedAppend(p, u[..c], [u[c]]);
    assert [u[c]][1..] == [];
    assert Applied(p, []) == [];
  }

  /** The state between two edits: the text so far is the base with the free ones
      among the first `l` edits applied, and the deltas say by how much it and the
      first `n` hunks have grown. */
  ghost predicate Progress(base: seq<string>, p: seq<Edit>, u: seq<Edit>, text: seq<string>,
                           n: nat, l: nat, sofar: Rope, appliedDelta: int, rebasedDelta: int) {
    && l <= |u| && Passed(p, n, u, l)
    && Fits(Applied(p, u[..l]), |base|, |text|, 0)
    && Rows(sofar) == Splice(base, Applied(p, u[..l]), text, 0)
    && appliedDelta == Growth(Applied(p, u[..l])) && rebasedDelta == Growth(p[..n])
  }

  ghost predicate LoopInput(base: seq<string>, p: seq<Edit>, snap: seq<string>, u: seq<Edit>, text: seq<string>) {
    && RebaseInput(base, p, snap, u, text)
    && Anchored(p, |base|, |snap|) && Anchored(u, |snap|, |text|)
  }

  /** Applying one free edit through clamped row offsets is one step of the splice. */
  lemma ApplyFree(base: Rope, p: seq<Edit>, snap: seq<string>, u: seq<Edit>, text: Rope,
                  n: nat, c: nat, sofar: Rope, appliedDelta: int, rebasedDelta: int)
    requires LoopInput(Rows(base), p, snap, u, Rows(text)) && c < |u|
    requires Progress(Rows(base), p, u, Rows(text), n, c, sofar, appliedDelta, rebasedDelta)
    requires AllAfter(u[c], p[..n]) && AllBefore(u[c], p[n..])
    ensures var start := u[c].oldRows.start + appliedDelta - rebasedDelta;
            var end := u[c].oldRows.end + appliedDelta - rebasedDelta;
            var newStart, newEnd := u[c].newRows.start, u[c].newRows.end;
            && 0 <= start <= end <= RowCount(sofar) && start < RowCount(sofar)
            && 0 <= newStart <= newEnd <= RowCount(text) && newStart < RowCount(text)
            && Free(u[c], p)
            && Fits(Applied(p, u[..c + 1]), RowCount(base), RowCount(text), 0)
            && Rows(ReplaceRows(sofar, start, end, SliceRows(text, newStart, newEnd)))
               == Splice(Rows(base), Applied(p, u[..c + 1]), Rows(text), 0)
            && Growth(Applied(p, u[..c + 1])) == appliedDelta + u[c].Growth()
  {
    hide Applied, Fits, LinksFrom, Growth, Rows, Splice, LoopInput, AllAfter, AllBefore, Free, ReplaceRows, SliceRows;
    var b, t := Rows(base), Rows(text);
    var done, e := Applied(p, u[..c]), InBase(p, u[c]);
    FreeStep(b, p, snap, u, t, n, c);
    FreeAnchored(b, p, snap, u, t, n, c);
    SpliceSnoc(b, done, e, t, 0);
    SpliceLength(b, done, t, 0);
    var start, end := e.oldRows.start + appliedDelta, e.oldRows.end + appliedDelta;
    ReplaceRowsSplices(sofar, start, end, text, u[c].newRows.start, u[c].newRows.end);
    GrowthSnoc(done, e);
  }

  /** What a free edit between hunks `n - 1` and `n` adds to the applied edits. */
  lemma FreeStep(base: seq<string>, p: seq<Edit>, snap: seq<string>, u: seq<Edit>, text: seq<string>, n: nat, c: nat)
    requires LoopInput(base, p, snap, u, text) && c < |u| && n <= |p|
    requires AllAfter(u[c], p[..n]) && AllBefore(u[c], p[n..])
    ensures Free(u[c], p) && InBase(p, u[c]) == u[c].ShiftOld(-Growth(p[..n]))
    ensures Applied(p, u[..c + 1]) == Applied(p, u[..c]) + [InBase(p, u[c])]
    ensures FitsAfter(Applied(p, u[..c]), InBase(p, u[c]), |base|, |text|, 0)
  {
    hide Applied, Fits, LinksFrom, Links, Separated, Anchored, AllAfter, AllBefore, HunksApart, EditsApart, Growth,
         FitsAfter, Free;
    InputFacts(base, p, snap, u, text);
    assert Free(u[c], p) && GrowthBefore(p, u[c]) == Growth(p[..n]) by {
      SplitList(p, n);
      InputApart(base, p, snap, u, text);
      ApartRanges(p[n..], u, p, n);
      BetweenIsFree(p[..n], p[n..], u[c]);
    }
    AppliedSnoc(p, u, c);
    AppliedSplit(p, u, c + 1);
    RebaseDiamond(base, p, snap, u, text);
    FitsPrefix(Applied(p, u[..c]), InBase(p, u[c]), Applied(p, u[c + 1..]), |base|, |text|, 0);
  }

  lemma InputFacts(base: seq<string>, p: seq<Edit>, snap: seq<string>, u: seq<Edit>, text: seq<string>)
    requires LoopInput(base, p, snap, u, text)
    ensures RebaseInput(base, p, snap, u, text)
  {
  }

  lemma SplitList<T>(p: seq<T>, n: nat)
    requires n <= |p|
    ensures p[..n] + p[n..] == p
  {
  }

  lemma ApartRanges(q: seq<Edit>, u: seq<Edit>, p: seq<Edit>, n: nat)
    requires HunksApart(p) && EditsApart(u) && n <= |p| && q == p[n..]
    ensures forall k :: 0 <= k < |q| ==> q[k].newRows.start <= q[k].newRows.end
    ensures forall k :: 0 <= k < |u| ==> u[k].oldRows.start <= u[k].oldRows.end
  {
  }

  /** Both sides of a free edit start at an existing row, and they reach the end of
      their texts together. */
  lemma FreeAnchored(base: seq<string>, p: seq<Edit>, snap: seq<string>, u: seq<Edit>, text: seq<string>, n: nat,
                     c: nat)
    requires LoopInput(base, p, snap, u, text) && c < |u| && n <= |p|
    requires AllAfter(u[c], p[..n]) && AllBefore(u[c], p[n..])
    ensures var e := u[c].ShiftOld(-Growth(p[..n]));
            && 0 <= e.oldRows.start < |base| && 0 <= e.newRows.start < |text|
            && (e.oldRows.end == |base| <==> e.newRows.end == |text|)
  {
    LinksBounds(snap, u, text, 0, 0);
    InBaseAnchored(base, p, snap, u[c], n);
    EndsTogether(snap, u, text, 0, 0, c);
  }

  // ---- The loop ------------------------------------------------------------------

  /** Where the inner loop stands: edit `c` is the current one, hunks before `n` are
      passed, and `conflict` says whether some hunk was in the way. */
  ghost predicate Scanning(p: seq<Edit>, u: seq<Edit>, n: nat, c: nat, conflict: bool) {
    && c < |u| && Passed(p, n, u, c + 1)
    && (conflict ==> !Free(u[c], p))
    && (!conflict ==> AllAfter(u[c], p[..n]))
  }

  lemma ScanFirst(p: seq<Edit>, u: seq<Edit>, n: nat, c: nat)
    requires Passed(p, n, u, c) && c < |u|
    ensures Scanning(p, u, n, c, false)
  {
  }

  lemma ScanPast(p: seq<Edit>, u: seq<Edit>, n: nat, c: nat, conflict: bool)
    requires HunksApart(p) && EditsApart(u) && Scanning(p, u, n, c, conflict)
    requires n < |p| && After(u[c], p[n])
    ensures Scanning(p, u, n + 1, c, conflict)
  {}

  /** The next edit overlaps the hunk too: it becomes the current one. */
  lemma ScanSkip(p: seq<Edit>, u: seq<Edit>, n: nat, c: nat, conflict: bool)
    requires HunksApart(p) && EditsApart(u) && Scanning(p, u, n, c, conflict)
    requires n < |p| && Conflict(u[c], p[n]) && c + 1 < |u| && Overlap(u[c + 1].oldRows, p[n].newRows)
    ensures Scanning(p, u, n, c + 1, true) && !Free(u[c], p)
  {}

  lemma ScanConflict(p: seq<Edit>, u: seq<Edit>, n: nat, c: nat, conflict: bool)
    requires HunksApart(p) && EditsApart(u) && Scanning(p, u, n, c, conflict)
    requires n < |p| && Conflict(u[c], p[n])
    requires c + 1 < |u| ==> !Overlap(u[c + 1].oldRows, p[n].newRows)
    ensures Scanning(p, u, n + 1, c, true)
  {}

  lemma GrowthTake(p: seq<Edit>, n: nat)
    requires n < |p|
    ensures Growth(p[..n + 1]) == Growth(p[..n]) + p[n].Growth()
  {
    assert p[..n + 1] == p[..n] + [p[n]];
    GrowthSnoc(p[..n], p[n]);
  }

  lemma StartProgress(base: Rope, p: seq<Edit>, u: seq<Edit>, text: seq<string>)
    ensures Progress(Rows(base), p, u, text, 0, 0, base, 0, 0)
    ensures Applied(p, u[..0]) == []
  {}

  /** The current edit met a conflict: nothing is applied. */
  lemma ConflictProgress(base: seq<string>, p: seq<Edit>, u: seq<Edit>, text: seq<string>,
                         n: nat, first: nat, sofar: Rope, appliedDelta: int, rebasedDelta: int,
                         n': nat, c: nat, rebasedDelta': int)
    requires Progress(base, p, u, text, n, first, sofar, appliedDelta, rebasedDelta)
    requires Scanning(p, u, n', c, true) && rebasedDelta' == Growth(p[..n'])
    requires first <= |u| && Applied(p, u[..c]) == Applied(p, u[..first])
    ensures Progress(base, p, u, text, n', c + 1, sofar, appliedDelta, rebasedDelta')
    ensures Applied(p, u[..c + 1]) == Applied(p, u[..first])
  {
    AppliedSnoc(p, u, c);
    assert Applied(p, u[..c + 1]) == Applied(p, u[..first]);
  }

  /** The current edit met no conflict, and the next hunk lies behind it: it is
      applied at its place in the text so far. */
  lemma FreeProgress(base: Rope, p: seq<Edit>, snap: seq<string>, u: seq<Edit>, text: Rope,
                     n: nat, c: nat, sofar: Rope, appliedDelta: int, rebasedDelta: int,
                     n': nat, rebasedDelta': int)
    requires LoopInput(Rows(base), p, snap, u, Rows(text))
    requires Progress(Rows(base), p, u, Rows(text), n, c, sofar, appliedDelta, rebasedDelta)
    requires Scanning(p, u, n', c, false) && rebasedDelta' == Growth(p[..n'])
    requires n' < |p| ==> Before(u[c], p[n'])
    ensures var start := u[c].oldRows.start + appliedDelta - rebasedDelta';
            var end := u[c].oldRows.end + appliedDelta - rebasedDelta';
            var newStart, newEnd := u[c].newRows.start, u[c].newRows.end;
            && 0 <= start <= end <= RowCount(sofar) && start < RowCount(sofar)
            && 0 <= newStart <= newEnd <= RowCount(text) && newStart < RowCount(text)
            && Progress(Rows(base), p, u, Rows(text), n', c + 1,
                        ReplaceRows(sofar, start, end, SliceRows(text, newStart, newEnd)),
                        appliedDelta + u[c].Growth(), rebasedDelta')
            && Applied(p, u[..c + 1]) != []
  {
    hide LinksFrom, ReplaceRows, SliceRows, Growth, Splice, Fits, Applied, LoopInput, Rows, Free;
    assert AllBefore(u[c], p[n'..]) by {
      InputFacts(Rows(base), p, snap, u, Rows(text));
      InputApart(Rows(base), p, snap, u, Rows(text));
      BeforeRest(p, n', u[c]);
    }
    assert Passed(p, n', u, c);
    ApplyFree(base, p, snap, u, text, n', c, sofar, appliedDelta, rebasedDelta');
    AppliedSnoc(p, u, c);
  }

  /** `apply_non_conflicting_edits`: rebases the user's edits into the base text,
      past the hunks of the agent's patch. */
  method ApplyNonConflictingEdits(patch: seq<Edit>, edits: seq<Edit>, oldText: Rope, newText: Rope,
                                  ghost snap: seq<string>)
    returns (text: Rope, hasMadeChanges: bool)
    requires LoopInput(Rows(oldText), patch, snap, edits, Rows(newText))
    ensures Fits(Applied(patch, edits), |Rows(oldText)|, |Rows(newText)|, 0)
    ensures Rows(text) == RebasedBase(Rows(oldText), patch, edits, Rows(newText))
    // Exactly the edits that meet no hunk are applied, and what the user wrote there stands.
    ensures StandingEdits.AllStand(patch, edits, Rows(newText), Rows(text))
    ensures hasMadeChanges <==> StandingEdits.SomeUnmet(patch, edits)
  {
    hide *;
    text := oldText;
    hasMadeChanges := false;
    var oldEdits, newEdits := 0, 0;
    var appliedDelta, rebasedDelta := 0, 0;
    ghost var base, rows := Rows(oldText), Rows(newText);
    LoopApart(base, patch, snap, edits, rows);
    StartProgress(oldText, patch, edits, rows);

    while newEdits < |edits|
      invariant oldEdits <= |patch| && newEdits <= |edits|
      invariant Progress(base, patch, edits, rows, oldEdits, newEdits, text, appliedDelta, rebasedDelta)
      invariant hasMadeChanges <==> Applied(patch, edits[..newEdits]) != []
    {
      ghost var passed, first, delta := oldEdits, newEdits, rebasedDelta;
      var newEdit := edits[newEdits];
      newEdits := newEdits + 1;
      var conflict := false;
      ProgressFacts(base, patch, edits, rows, oldEdits, first, text, appliedDelta, rebasedDelta);
      ScanFirst(patch, edits, oldEdits, first);

      while oldEdits < |patch|
        invariant first < newEdits <= |edits| && newEdit == edits[newEdits - 1] && oldEdits <= |patch|
        invariant Scanning(patch, edits, oldEdits, newEdits - 1, conflict)
        invariant !conflict ==> newEdits == first + 1
        invariant Applied(patch, edits[..newEdits - 1]) == Applied(patch, edits[..first])
        invariant rebasedDelta == Growth(patch[..oldEdits])
        decreases |patch| - oldEdits + |edits| - newEdits
      {
        var oldEdit := patch[oldEdits];
        if Before(newEdit, oldEdit) {
          break;
        } else if After(newEdit, oldEdit) {
          ScanPast(patch, edits, oldEdits, newEdits - 1, conflict);
          GrowthTake(patch, oldEdits);
          rebasedDelta := rebasedDelta + oldEdit.Growth();
          oldEdits := oldEdits + 1;
        } else {
          ConflictIs(newEdit, oldEdit);
          if newEdits < |edits| && Overlap(edits[newEdits].oldRows, oldEdit.newRows) {
            ScanSkip(patch, edits, oldEdits, newEdits - 1, conflict);
            AppliedSnoc(patch, edits, newEdits - 1);
            newEdit := edits[newEdits];
            newEdits := newEdits + 1;
          } else {
            ScanConflict(patch, edits, oldEdits, newEdits - 1, conflict);
            GrowthTake(patch, oldEdits);
            rebasedDelta := rebasedDelta + oldEdit.Growth();
            oldEdits := oldEdits + 1;
          }
          conflict := true;
        }
      }

      if conflict {
        ConflictProgress(base, patch, edits, rows, passed, first, text, appliedDelta, delta,
                         oldEdits, newEdits - 1, rebasedDelta);
      } else {
        FreeProgress(oldText, patch, snap, edits, newText, passed, first, text, appliedDelta, delta,
                     oldEdits, rebasedDelta);
        var start := newEdit.oldRows.start + appliedDelta - rebasedDelta;
        var end := newEdit.oldRows.end + appliedDelta - rebasedDelta;
        text := ReplaceRows(text, start, end, SliceRows(newText, newEdit.newRows.start, newEdit.newRows.end));
        appliedDelta := appliedDelta + newEdit.Growth();
        hasMadeChanges := true;
      }
    }
    assert edits[..newEdits] == edits;
    ProgressDone(base, patch, edits, rows, oldEdits, text, appliedDelta, rebasedDelta);
    InputFacts(base, patch, snap, edits, rows);
    StandingEdits.RebaseStands(base, patch, snap, edits, rows);
  }

  lemma LoopApart(base: seq<string>, p: seq<Edit>, snap: seq<string>, u: seq<Edit>, text: seq<string>)
    requires LoopInput(base, p, snap, u, text)
    ensures HunksApart(p) && EditsApart(u)
  {
    InputApart(base, p, snap, u, text);
  }

  lemma ProgressFacts(base: seq<string>, p: seq<Edit>, u: seq<Edit>, text: seq<string>,
                      n: nat, l: nat, sofar: Rope, appliedDelta: int, rebasedDelta: int)
    requires Progress(base, p, u, text, n, l, sofar, appliedDelta, rebasedDelta)
    ensures Passed(p, n, u, l) && n <= |p| && rebasedDelta == Growth(p[..n])
  {
  }

  lemma ProgressDone(base: seq<string>, p: seq<Edit>, u: seq<Edit>, text: seq<string>,
                     n: nat, sofar: Rope, appliedDelta: int, rebasedDelta: int)
    requires Progress(base, p, u, text, n, |u|, sofar, appliedDelta, rebasedDelta)
    ensures Fits(Applied(p, u), |base|, |text|, 0)
    ensures Rows(sofar) == RebasedBase(base, p, u, text)
  {
    assert u[..|u|] == u;
  }

  lemma ConflictIs(edit: Edit, hunk: Edit)
    requires !Before(edit, hunk) && !After(edit, hunk)
    ensures Conflict(edit, hunk)
  {
  }
}
