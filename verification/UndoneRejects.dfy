/** Undoing a reject, seen by the review.  The undo comes back as a user edit; it is free of
    the hunks that were left, so it is folded into the base: rejecting hunks and undoing
    that accepts them. */
module UndoneRejects {
  import opened Patches
  import opened Conflicts
  import opened Rebase
  import Diamond
  import opened PatchParts

  /** The hunks left after a reject, with their new rows shifted by `d`. */
  function Left(p: seq<Edit>, mask: seq<bool>, d: int): seq<Edit>
    requires |mask| == |p|
  {
    if p == [] then []
    else if mask[0] then Left(p[1..], mask[1..], d - p[0].Growth())
    else [p[0].ShiftNew(d)] + Left(p[1..], mask[1..], d)
  }

  lemma {:induction false} LeftIsRemaining(p: seq<Edit>, mask: seq<bool>, d: int)
    requires |mask| == |p|
    ensures Inverse(Remaining(Inverse(p), mask, d)) == Left(p, mask, d)
  {
    if p != [] {
      var inverse := Inverse(p);
      assert inverse[1..] == Inverse(p[1..]) && inverse[0] == p[0].Inverse();
      assert inverse[0].Growth() == -p[0].Growth();
      LeftIsRemaining(p[1..], mask[1..], if mask[0] then d - p[0].Growth() else d);
      if !mask[0] {
        var rest := Remaining(Inverse(p[1..]), mask[1..], d);
        assert Remaining(inverse, mask, d) == [inverse[0].ShiftOld(d)] + rest;
        assert ([inverse[0].ShiftOld(d)] + rest)[1..] == rest;
      }
    }
  }

  /** From the second of two linked texts on, hunks start at rows that differ by `g` and
      what the hunks in front have grown. */
  predicate Aligned(p: seq<Edit>, g: int) {
    p == [] || (p[0].newRows.start - p[0].oldRows.start == g && Aligned(p[1..], g + p[0].Growth()))
  }

  lemma {:induction false} LinksAligned<T>(a: seq<T>, p: seq<Edit>, b: seq<T>, i: int, j: int)
    requires LinksFrom(a, p, b, i, j)
    ensures Aligned(p, j - i)
  {
    if p != [] {
      var e := p[0];
      assert |a[i..e.oldRows.start]| == |b[j..e.newRows.start]|;
      LinksAligned(a, p[1..], b, e.oldRows.end, e.newRows.end);
    }
  }

  /** Separated hunks with ranges that are not inverted. */
  predicate Apart(p: seq<Edit>) {
    p == [] ||
    (&& p[0].oldRows.start <= p[0].oldRows.end && p[0].newRows.start <= p[0].newRows.end
     && (|p| > 1 ==> p[0].oldRows.end < p[1].oldRows.start)
     && Apart(p[1..]))
  }

  lemma {:induction false} LinksApart<T>(a: seq<T>, p: seq<Edit>, b: seq<T>, i: int, j: int)
    requires LinksFrom(a, p, b, i, j) && Separated(p)
    ensures Apart(p)
  {
    if p != [] {
      assert Separated(p[1..]) by { assert forall k :: 0 <= k < |p[1..]| ==> p[1..][k] == p[k + 1]; }
      LinksApart(a, p[1..], b, p[0].oldRows.end, p[0].newRows.end);
    }
  }

  ghost predicate StartsAbove(q: seq<Edit>, lo: int) {
    forall k :: 0 <= k < |q| ==> lo < q[k].newRows.start <= q[k].newRows.end
  }

  /** In the rejected buffer the hunks left lie behind what is in front of the first. */
  lemma {:induction false} LeftAbove(p: seq<Edit>, mask: seq<bool>, dOld: int, dNew: int, lo: int)
    requires |mask| == |p| && Apart(p) && Aligned(p, dOld - dNew)
    requires p != [] ==> lo < p[0].oldRows.start + dOld
    ensures StartsAbove(Left(p, mask, dNew), lo)
  {
    if p != [] {
      var h, g := p[0], p[0].Growth();
      assert |p| > 1 ==> p[1..][0] == p[1];
      if mask[0] {
        LeftAbove(p[1..], mask[1..], dOld, dNew - g, lo);
      } else {
        LeftAbove(p[1..], mask[1..], dOld + g, dNew, lo);
      }
    }
  }

  ghost predicate EndsBelow(pre: seq<Edit>, hi: int) {
    forall k :: 0 <= k < |pre| ==> pre[k].newRows.end < hi
  }

  lemma BehindAll(u: Edit, pre: seq<Edit>)
    requires EndsBelow(pre, u.oldRows.start)
    ensures AllAfter(u, pre)
  {}

  lemma InFrontOfAll(u: Edit, q: seq<Edit>)
    requires StartsAbove(q, u.oldRows.end)
    ensures AllBefore(u, q)
  {}

  /** The undone hunk `h` is free of the hunks left, and lands on its rows of the base. */
  lemma UndoneIsFree(pre: seq<Edit>, q: seq<Edit>, h: Edit, d: int)
    requires h.oldRows.start <= h.oldRows.end && Growth(pre) == d
    requires EndsBelow(pre, h.oldRows.start + d) && StartsAbove(q, h.oldRows.end + d)
    ensures Free(h.ShiftOld(d), pre + q) && InBase(pre + q, h.ShiftOld(d)) == h
  {
    hide Free, AllAfter, AllBefore;
    var u := h.ShiftOld(d);
    BehindAll(u, pre);
    InFrontOfAll(u, q);
    Diamond.BetweenIsFree(pre, q, u);
  }

  /** All undone hunks are applied, at their rows of the base. */
  lemma {:induction false} UndoneApplied(
      all: seq<Edit>, pre: seq<Edit>, p: seq<Edit>, mask: seq<bool>, dOld: int, dNew: int)
    requires |mask| == |p| && Apart(p) && Aligned(p, dOld - dNew)
    requires all == pre + Left(p, mask, dNew) && Growth(pre) == dOld
    requires p != [] ==> EndsBelow(pre, p[0].oldRows.start + dOld)
    ensures Applied(all, Remaining(p, Complement(mask), dOld)) == Select(p, mask)
    decreases p
  {
    if p != [] {
      hide Free, InBase, EndsBelow, StartsAbove;
      var h, q, rest, g := p[0], p[1..], mask[1..], p[0].Growth();
      assert Complement(mask)[1..] == Complement(rest);
      assert |p| > 1 ==> q[0] == p[1];
      if mask[0] {
        var left := Left(q, rest, dNew - g);
        LeftAbove(q, rest, dOld, dNew - g, h.oldRows.end + dOld);
        UndoneIsFree(pre, left, h, dOld);
        if q != [] { EndsStayBelow(pre, h.oldRows.start + dOld, q[0].oldRows.start + dOld); }
        UndoneApplied(all, pre, q, rest, dOld, dNew - g);
        UndoneFirst(all, p, mask, dOld);
      } else {
        var kept := h.ShiftNew(dNew);
        assert kept.Growth() == g;
        GrowthSnoc(pre, kept);
        if q != [] { EndsSnoc(pre, h.oldRows.start + dOld, kept, q[0].oldRows.start + dOld + g); }
        assert pre + ([kept] + Left(q, rest, dNew)) == (pre + [kept]) + Left(q, rest, dNew);
        UndoneApplied(all, pre + [kept], q, rest, dOld + g, dNew);
      }
    }
  }

  lemma UndoneFirst(all: seq<Edit>, p: seq<Edit>, mask: seq<bool>, d: int)
    requires |mask| == |p| && p != [] && mask[0]
    requires Free(p[0].ShiftOld(d), all) && InBase(all, p[0].ShiftOld(d)) == p[0]
    requires Applied(all, Remaining(p[1..], Complement(mask[1..]), d)) == Select(p[1..], mask[1..])
    ensures Applied(all, Remaining(p, Complement(mask), d)) == Select(p, mask)
  {
    hide Free, InBase, Applied;
    var u, undone := p[0].ShiftOld(d), Remaining(p[1..], Complement(mask[1..]), d);
    assert Complement(mask)[1..] == Complement(mask[1..]);
    assert ([u] + undone)[1..] == undone;
    AppliedCons(all, [u] + undone);
  }

  lemma EndsStayBelow(pre: seq<Edit>, hi: int, hi': int)
    requires EndsBelow(pre, hi) && hi <= hi'
    ensures EndsBelow(pre, hi')
  {}

  lemma EndsSnoc(pre: seq<Edit>, hi: int, e: Edit, hi': int)
    requires EndsBelow(pre, hi) && hi <= hi' && e.newRows.end < hi'
    ensures EndsBelow(pre + [e], hi')
  {}

  /** Rejecting some hunks and undoing that folds exactly those hunks into the base: the
      buffer is as before, and the review is as if they had been accepted. */
  lemma UndoneRejectIsAccept<T>(a: seq<T>, p: seq<Edit>, b: seq<T>, mask: seq<bool>)
    requires PatchBetween(a, p, b) && |mask| == |p|
    ensures Fits(Inverse(Select(p, mask)), |b|, |a|, 0) && Fits(Select(p, mask), |a|, |b|, 0)
    ensures var left, undone := RemainingAfterReject(p, mask), Remaining(p, Complement(mask), 0);
      // After the reject the hunks left lead to the buffer; the undo leads back.
      && Links(a, left, Splice(b, Inverse(Select(p, mask)), a, 0))
      && Links(Splice(b, Inverse(Select(p, mask)), a, 0), undone, b)
      // Rebasing the undo accepts the hunks.
      && Applied(left, undone) == Select(p, mask)
      && RebasedBase(a, left, undone, b) == Splice(a, Select(p, mask), b, 0)
  {
    hide *;
    PatchIs(a, p, b);
    RejectLinks(a, p, b, mask);
    UndoneLinks(a, p, b, mask);
    AcceptLinks(a, p, b, mask);
    UndoneAll(a, p, b, mask);
    RebasedIs(a, RemainingAfterReject(p, mask), Remaining(p, Complement(mask), 0), Select(p, mask), b);
  }

  lemma PatchIs<T>(a: seq<T>, p: seq<Edit>, b: seq<T>)
    requires PatchBetween(a, p, b)
    ensures Links(a, p, b) && LinksFrom(a, p, b, 0, 0) && Separated(p)
  {}

  lemma UndoneAll<T>(a: seq<T>, p: seq<Edit>, b: seq<T>, mask: seq<bool>)
    requires LinksFrom(a, p, b, 0, 0) && Separated(p) && |mask| == |p|
    ensures Applied(RemainingAfterReject(p, mask), Remaining(p, Complement(mask), 0)) == Select(p, mask)
  {
    hide *;
    LinksAligned(a, p, b, 0, 0);
    LinksApart(a, p, b, 0, 0);
    LeftIs(p, mask);
    NothingInFront(p);
    assert [] + Left(p, mask, 0) == Left(p, mask, 0);
    UndoneApplied(Left(p, mask, 0), [], p, mask, 0, 0);
  }

  lemma NothingInFront(p: seq<Edit>)
    ensures Growth([]) == 0 && (p != [] ==> EndsBelow([], p[0].oldRows.start + 0))
  {}

  lemma UndoneLinks<T>(a: seq<T>, p: seq<Edit>, b: seq<T>, mask: seq<bool>)
    requires LinksFrom(a, p, b, 0, 0) && |mask| == |p|
    ensures Fits(Inverse(Select(p, mask)), |b|, |a|, 0)
    ensures Links(Splice(b, Inverse(Select(p, mask)), a, 0), Remaining(p, Complement(mask), 0), b)
  {
    hide LinksFrom, Splice, Select, Remaining, Fits;
    RevertIsAcceptRest(a, p, b, mask, 0, 0);
    AcceptLinks(a, p, b, Complement(mask));
  }

  lemma RebasedIs<T>(a: seq<T>, left: seq<Edit>, undone: seq<Edit>, taken: seq<Edit>, b: seq<T>)
    requires Applied(left, undone) == taken && Fits(taken, |a|, |b|, 0)
    ensures RebasedBase(a, left, undone, b) == Splice(a, taken, b, 0)
  {}

  lemma LeftIs(p: seq<Edit>, mask: seq<bool>)
    requires |mask| == |p|
    ensures RemainingAfterReject(p, mask) == Left(p, mask, 0)
  {
    LeftIsRemaining(p, mask, 0);
  }
}
