/** Which user edits a rebase puts into the base, by rows: exactly those that meet no hunk,
    each at the rows it replaces, with the rows the user wrote. */
module StandingEdits {
  import opened Patches
  import opened Conflicts
  import opened Rebase
  import opened Diamond

  /** The rows are in the text, from row `start` on. */
  ghost predicate RowsAt<T>(x: seq<T>, start: int, rows: seq<T>) {
    0 <= start && start + |rows| <= |x| && x[start..start + |rows|] == rows
  }

  lemma RowsInMiddle<T>(front: seq<T>, rows: seq<T>, tail: seq<T>)
    ensures RowsAt(front + rows + tail, |front|, rows)
  {}

  lemma RowsInTail<T>(front: seq<T>, tail: seq<T>, start: int, rows: seq<T>)
    requires RowsAt(tail, start, rows)
    ensures RowsAt(front + tail, |front| + start, rows)
  {}

  lemma FitsAt(p: seq<Edit>, n: nat, m: nat, i: int)
    requires p != [] && Fits(p, n, m, i)
    ensures 0 <= i <= p[0].oldRows.start <= p[0].oldRows.end <= n
    ensures 0 <= p[0].newRows.start <= p[0].newRows.end <= m
    ensures Fits(p[1..], n, m, p[0].oldRows.end)
  {}

  /** The new rows of every edit stand in the spliced text. */
  lemma {:induction false} SpliceHolds<T>(a: seq<T>, p: seq<Edit>, b: seq<T>, i: int, k: nat)
    requires Fits(p, |a|, |b|, i) && k < |p|
    ensures 0 <= p[k].newRows.start <= p[k].newRows.end <= |b|
    ensures RowsAt(Splice(a, p, b, i), p[k].oldRows.start - i + Growth(p[..k]),
                   b[p[k].newRows.start..p[k].newRows.end])
  {
    hide Splice, Fits, RowsAt, Growth;
    var e, q := p[0], p[1..];
    assert p == [e] + q;
    FitsAt(p, |a|, |b|, i);
    SpliceCons(a, e, q, b, i);
    var front, rows, tail := a[i..e.oldRows.start], b[e.newRows.start..e.newRows.end], Splice(a, q, b, e.oldRows.end);
    GrowthSnoc([], e);
    assert [] + [e] == [e];
    assert Growth([]) == 0 by { NoGrowth(); }
    if k == 0 {
      RowsInMiddle(front, rows, tail);
      assert p[..0] == [];
    } else {
      SpliceHolds(a, q, b, e.oldRows.end, k - 1);
      assert p[..k] == [e] + q[..k - 1];
      GrowthAppend([e], q[..k - 1]);
      RowsInTail(front + rows, tail, p[k].oldRows.start - e.oldRows.end + Growth(q[..k - 1]),
                 b[p[k].newRows.start..p[k].newRows.end]);
    }
  }

  lemma NoGrowth()
    ensures Growth([]) == 0
  {}

  /** The user's rows of edit `k` stand in the base `x`, moved by the hunks and by the edits
      that were applied in front of them. */
  ghost predicate Stands<T>(p: seq<Edit>, u: seq<Edit>, text: seq<T>, x: seq<T>, k: nat)
    requires k < |u|
  {
    && 0 <= u[k].newRows.start <= u[k].newRows.end <= |text|
    && RowsAt(x, InBase(p, u[k]).oldRows.start + Growth(Applied(p, u[..k])),
              text[u[k].newRows.start..u[k].newRows.end])
  }

  lemma AppliedAt(p: seq<Edit>, u: seq<Edit>, k: nat)
    requires k < |u| && Free(u[k], p)
    ensures var a, n := Applied(p, u), |Applied(p, u[..k])|;
            n < |a| && a[n] == InBase(p, u[k]) && a[..n] == Applied(p, u[..k])
  {
    hide Free, InBase;
    assert u == u[..k] + ([u[k]] + u[k + 1..]);
    AppliedAppend(p, u[..k], [u[k]] + u[k + 1..]);
    AppliedCons(p, [u[k]] + u[k + 1..]);
  }

  /** A user edit of any length that meets no hunk stands in the new base. */
  lemma UnmetStands<T>(base: seq<T>, p: seq<Edit>, snap: seq<T>, u: seq<Edit>, text: seq<T>, k: nat)
    requires RebaseInput(base, p, snap, u, text) && k < |u| && Unmet(u[k], p)
    ensures Fits(Applied(p, u), |base|, |text|, 0)
    ensures Stands(p, u, text, RebasedBase(base, p, u, text), k)
  {
    hide Applied, InBase, Unmet, Free, Fits, Splice, RebaseInput, Growth, HunksApart, EditsApart, RowsAt;
    InputApart(base, p, snap, u, text);
    RangesApart(p, u, k);
    FreeIffUnmet(u[k], p);
    RebaseDiamond(base, p, snap, u, text);
    AppliedAt(p, u, k);
    InBaseNew(p, u[k]);
    SpliceHolds(base, Applied(p, u), text, 0, |Applied(p, u[..k])|);
  }

  lemma RangesApart(p: seq<Edit>, u: seq<Edit>, k: nat)
    requires HunksApart(p) && EditsApart(u) && k < |u|
    ensures u[k].oldRows.start <= u[k].oldRows.end
    ensures forall l :: 0 <= l < |p| ==> p[l].newRows.start <= p[l].newRows.end
  {}

  lemma InBaseNew(p: seq<Edit>, edit: Edit)
    ensures InBase(p, edit).newRows == edit.newRows
  {}

  /** The edits that meet no hunk, in order. */
  ghost function UnmetEdits(p: seq<Edit>, u: seq<Edit>): seq<Edit> {
    if u == [] then [] else (if Unmet(u[0], p) then [u[0]] else []) + UnmetEdits(p, u[1..])
  }

  /** Nothing else is applied. */
  lemma {:induction false} AppliedIsUnmet(p: seq<Edit>, u: seq<Edit>)
    requires HunksApart(p) && EditsApart(u)
    ensures |Applied(p, u)| == |UnmetEdits(p, u)|
    ensures forall k :: 0 <= k < |Applied(p, u)| ==> Applied(p, u)[k] == InBase(p, UnmetEdits(p, u)[k])
  {
    if u != [] {
      hide Free, Unmet, InBase;
      RangesApart(p, u, 0);
      FreeIffUnmet(u[0], p);
      assert EditsApart(u[1..]);
      AppliedIsUnmet(p, u[1..]);
    }
  }

  /** All that a rebase does with the user's edits: those that meet no hunk stand in the new
      base, and there are such edits exactly if any edit is applied. */
  ghost predicate AllStand<T>(p: seq<Edit>, u: seq<Edit>, text: seq<T>, x: seq<T>) {
    forall k :: 0 <= k < |u| && Unmet(u[k], p) ==> Stands(p, u, text, x, k)
  }

  ghost predicate SomeUnmet(p: seq<Edit>, u: seq<Edit>) {
    exists k :: 0 <= k < |u| && Unmet(u[k], p)
  }

  lemma RebaseStands<T>(base: seq<T>, p: seq<Edit>, snap: seq<T>, u: seq<Edit>, text: seq<T>)
    requires RebaseInput(base, p, snap, u, text)
    ensures Fits(Applied(p, u), |base|, |text|, 0)
    ensures AllStand(p, u, text, RebasedBase(base, p, u, text))
    ensures Applied(p, u) != [] <==> SomeUnmet(p, u)
  {
    hide Applied, Unmet, Stands, Fits, RebasedBase, RebaseInput, HunksApart, EditsApart;
    RebaseDiamond(base, p, snap, u, text);
    forall k | 0 <= k < |u| && Unmet(u[k], p) ensures Stands(p, u, text, RebasedBase(base, p, u, text), k) {
      UnmetStands(base, p, snap, u, text, k);
    }
    InputApart(base, p, snap, u, text);
    AppliedIsUnmet(p, u);
    UnmetIff(p, u);
  }

  lemma {:induction false} UnmetIff(p: seq<Edit>, u: seq<Edit>)
    ensures UnmetEdits(p, u) != [] <==> SomeUnmet(p, u)
  {
    if u != [] {
      hide Unmet;
      UnmetIff(p, u[1..]);
      if SomeUnmet(p, u[1..]) {
        var k :| 0 <= k < |u[1..]| && Unmet(u[1..][k], p);
        assert Unmet(u[k + 1], p);
      }
      if k :| 0 < k < |u| && Unmet(u[k], p) {
        assert u[1..][k - 1] == u[k];
      }
    }
  }
}
