/** Folding hunks into the base one after the other, with a running delta, as both
    accepting a range and accepting a commit do: the base so far is the splice of the
    hunks taken so far. */
module Folds {
  import opened RopeText
  import opened Patches
  import RebaseLoop
  import opened PatchParts

  lemma SelectFirst(p: seq<Edit>, mask: seq<bool>)
    requires |mask| == |p| && p != []
    ensures Select(p, mask) == (if mask[0] then [p[0]] else []) + Select(p[1..], mask[1..])
    ensures Growth(Select(p, mask)) == (if mask[0] then p[0].Growth() else 0) + Growth(Select(p[1..], mask[1..]))
  {
    var rest := Select(p[1..], mask[1..]);
    if mask[0] { assert ([p[0]] + rest)[1..] == rest; } else { assert [] + rest == rest; }
  }

  lemma RemainingFirst(p: seq<Edit>, mask: seq<bool>, d: int)
    requires |mask| == |p| && p != []
    ensures Remaining(p, mask, d)
            == (if mask[0] then [] else [p[0].ShiftOld(d)])
               + Remaining(p[1..], mask[1..], if mask[0] then d + p[0].Growth() else d)
  {}

  lemma NothingSelected(d: int)
    ensures Select([], []) == [] && Remaining([], [], d) == [] && Growth([]) == 0
  {}

  lemma {:induction false} SelectAppend(p: seq<Edit>, mask: seq<bool>, q: seq<Edit>, mask': seq<bool>)
    requires |mask| == |p| && |mask'| == |q|
    ensures Select(p + q, mask + mask') == Select(p, mask) + Select(q, mask')
  {
    hide *;
    if p == [] {
      NothingSelected(0);
      assert p + q == q && mask + mask' == mask';
    } else {
      assert (p + q)[1..] == p[1..] + q && (mask + mask')[1..] == mask[1..] + mask';
      SelectFirst(p, mask);
      SelectFirst(p + q, mask + mask');
      SelectAppend(p[1..], mask[1..], q, mask');
    }
  }

  lemma SelectSnoc(p: seq<Edit>, mask: seq<bool>, e: Edit, take: bool)
    requires |mask| == |p|
    ensures Select(p + [e], mask + [take]) == Select(p, mask) + (if take then [e] else [])
  {
    SelectAppend(p, mask, [e], [take]);
  }

  lemma {:induction false} RemainingSnoc(p: seq<Edit>, mask: seq<bool>, e: Edit, take: bool, d: int)
    requires |mask| == |p|
    ensures Remaining(p + [e], mask + [take], d)
            == Remaining(p, mask, d) + (if take then [] else [e.ShiftOld(d + Growth(Select(p, mask)))])
  {
    hide *;
    RemainingFirst(p + [e], mask + [take], d);
    if p == [] {
      assert (p + [e])[1..] == [] && (mask + [take])[1..] == [];
      NothingSelected(d);
      NothingSelected(if take then d + e.Growth() else d);
    } else {
      assert (p + [e])[1..] == p[1..] + [e] && (mask + [take])[1..] == mask[1..] + [take];
      SelectFirst(p, mask);
      RemainingFirst(p, mask, d);
      RemainingSnoc(p[1..], mask[1..], e, take, if mask[0] then d + p[0].Growth() else d);
    }
  }

  /** The first `|mask|` hunks have been looked at, and those in the mask are folded
      into the base. */
  ghost predicate Folded(base: seq<string>, p: seq<Edit>, snap: seq<string>, mask: seq<bool>, sofar: Rope, delta: int) {
    && |mask| <= |p|
    && Fits(Select(p[..|mask|], mask), |base|, |snap|, 0)
    && Rows(sofar) == Splice(base, Select(p[..|mask|], mask), snap, 0)
    && delta == Growth(Select(p[..|mask|], mask))
  }

  lemma FoldStart(base: Rope, p: seq<Edit>, snap: seq<string>)
    ensures Folded(Rows(base), p, snap, [], base, 0)
  {}

  lemma TakeLonger<T>(p: seq<T>, k: nat)
    requires k < |p|
    ensures p[..k + 1] == p[..k] + [p[k]]
  {
  }

  lemma TakeOne(p: seq<Edit>, mask: seq<bool>, take: bool)
    requires |mask| < |p|
    ensures Select(p[..|mask| + 1], mask + [take])
            == Select(p[..|mask|], mask) + (if take then [p[|mask|]] else [])
  {
    hide *;
    TakeLonger(p, |mask|);
    SelectSnoc(p[..|mask|], mask, p[|mask|], take);
  }

  lemma LeaveOne(p: seq<Edit>, mask: seq<bool>, take: bool)
    requires |mask| < |p|
    ensures Remaining(p[..|mask| + 1], mask + [take], 0)
            == Remaining(p[..|mask|], mask, 0)
               + (if take then [] else [p[|mask|].ShiftOld(Growth(Select(p[..|mask|], mask)))])
  {
    hide *;
    TakeLonger(p, |mask|);
    RemainingSnoc(p[..|mask|], mask, p[|mask|], take, 0);
  }

  lemma FoldSkip(base: seq<string>, p: seq<Edit>, snap: seq<string>, mask: seq<bool>, sofar: Rope, delta: int)
    requires Folded(base, p, snap, mask, sofar, delta) && |mask| < |p|
    ensures Folded(base, p, snap, mask + [false], sofar, delta)
  {
    TakeOne(p, mask, false);
    assert Select(p[..|mask| + 1], mask + [false]) == Select(p[..|mask|], mask);
  }

  /** The next hunk fits behind those taken so far. */
  lemma NextFits(base: seq<string>, p: seq<Edit>, snap: seq<string>, mask: seq<bool>)
    requires PatchBetween(base, p, snap) && |mask| < |p|
    ensures FitsAfter(Select(p[..|mask|], mask), p[|mask|], |base|, |snap|, 0)
  {
    hide LinksFrom, Fits, FitsAfter, Select, Separated, Anchored;
    var k := |mask|;
    var rest := AllSet(|p| - k);
    var full := mask + rest;
    assert p == p[..k] + p[k..];
    LinksFits(base, p, snap, 0, 0);
    SelectFits(p, full, |base|, |snap|, 0);
    SelectAppend(p[..k], mask, p[k..], rest);
    SelectAll(p[k..], rest);
    var taken := Select(p[..k], mask);
    assert taken + p[k..] == taken + [p[k]] + p[k + 1..];
    RebaseLoop.FitsPrefix(taken, p[k], p[k + 1..], |base|, |snap|, 0);
  }

  /** Replacing the shifted rows of the next hunk in the base so far, through clamped
      offsets, folds it in. */
  lemma FoldTake(base: Rope, p: seq<Edit>, snap: Rope, mask: seq<bool>, sofar: Rope, delta: int)
    requires PatchBetween(Rows(base), p, Rows(snap)) && |mask| < |p|
    requires Folded(Rows(base), p, Rows(snap), mask, sofar, delta)
    ensures var e := p[|mask|].ShiftOld(delta);
            && 0 <= e.oldRows.start <= e.oldRows.end <= RowCount(sofar) && e.oldRows.start < RowCount(sofar)
            && 0 <= e.newRows.start <= e.newRows.end <= RowCount(snap) && e.newRows.start < RowCount(snap)
            && Folded(Rows(base), p, Rows(snap), mask + [true],
                      ReplaceRows(sofar, e.oldRows.start, e.oldRows.end,
                                  SliceRows(snap, e.newRows.start, e.newRows.end)),
                      delta + e.Growth())
  {
    hide *;
    var a, b, h := Rows(base), Rows(snap), p[|mask|];
    var taken := Select(p[..|mask|], mask);
    FoldedIs(a, p, b, mask, sofar, delta);
    NextFits(a, p, b, mask);
    PatchHunksFit(a, p, b);
    HunkFitsAt(p, |a|, |b|, |mask|);
    SpliceLength(a, taken, b, 0);
    SpliceSnoc(a, taken, h, b, 0);
    TakeOne(p, mask, true);
    GrowthSnoc(taken, h);
    RowCountIs(sofar);
    RowCountIs(snap);
    var start, end := h.oldRows.start + delta, h.oldRows.end + delta;
    ReplaceRowsSplices(sofar, start, end, snap, h.newRows.start, h.newRows.end);
    SnocIs(Splice(a, taken + [h], b, 0), Splice(a, taken, b, 0), h, b, delta);
    MakeFolded(a, p, b, mask + [true],
               ReplaceRows(sofar, start, end, SliceRows(snap, h.newRows.start, h.newRows.end)),
               delta + h.Growth(), taken + [h]);
    ShiftIs(h, delta);
  }

  lemma ShiftIs(h: Edit, d: int)
    ensures h.ShiftOld(d) == Edit(Span(h.oldRows.start + d, h.oldRows.end + d), h.newRows)
    ensures h.ShiftOld(d).Growth() == h.Growth()
  {
  }

  lemma HunkFitsAt(p: seq<Edit>, n: nat, m: nat, k: nat)
    requires AllHunksFit(p, n, m) && k < |p|
    ensures 0 <= p[k].oldRows.start <= p[k].oldRows.end <= n && p[k].oldRows.start < n
    ensures 0 <= p[k].newRows.start <= p[k].newRows.end <= m && p[k].newRows.start < m
    ensures p[k].oldRows.end == n <==> p[k].newRows.end == m
  {
  }

  lemma FoldedIs(base: seq<string>, p: seq<Edit>, snap: seq<string>, mask: seq<bool>, sofar: Rope, delta: int)
    requires Folded(base, p, snap, mask, sofar, delta)
    ensures |mask| <= |p| && Fits(Select(p[..|mask|], mask), |base|, |snap|, 0)
    ensures Rows(sofar) == Splice(base, Select(p[..|mask|], mask), snap, 0)
    ensures delta == Growth(Select(p[..|mask|], mask))
  {
  }

  lemma MakeFolded(base: seq<string>, p: seq<Edit>, snap: seq<string>, mask: seq<bool>, sofar: Rope, delta: int,
                   taken: seq<Edit>)
    requires |mask| <= |p| && taken == Select(p[..|mask|], mask)
    requires Fits(taken, |base|, |snap|, 0) && Rows(sofar) == Splice(base, taken, snap, 0) && delta == Growth(taken)
    ensures Folded(base, p, snap, mask, sofar, delta)
  {
  }

  lemma SnocIs(z: seq<string>, x: seq<string>, e: Edit, b: seq<string>, g: int)
    requires 0 <= e.newRows.start <= e.newRows.end <= |b| && Snoc(z, x, e, b, 0, g)
    ensures 0 <= e.oldRows.start + g <= e.oldRows.end + g <= |x|
    ensures z == x[..e.oldRows.start + g] + b[e.newRows.start..e.newRows.end] + x[e.oldRows.end + g..]
  {
  }
}
