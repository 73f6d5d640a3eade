/** Laws of accepting ranges of a review: two accepts are one accept of both ranges, an
    accept that touches every hunk is accepting everything, and the base grows by the
    lines reported as added less those reported as removed. */
module KeepLaws {
  import opened Patches
  import PatchParts
  import opened ReviewLog

  /** The mask of the hunks that one range or the other touches. */
  function EitherMask(p: seq<Edit>, first: Span, second: Span): (mask: seq<bool>)
    ensures |mask| == |p|
    ensures forall k :: 0 <= k < |p| ==> mask[k] == (KeepTouches(first, p[k]) || KeepTouches(second, p[k]))
  {
    if p == [] then []
    else [KeepTouches(first, p[0]) || KeepTouches(second, p[0])] + EitherMask(p[1..], first, second)
  }

  lemma {:induction false} BothIsEither(p: seq<Edit>, first: Span, second: Span, d: int)
    ensures PatchParts.Both(KeepMask(p, first), KeepMask(Remaining(p, KeepMask(p, first), d), second))
            == EitherMask(p, first, second)
    decreases |p|
  {
    if p != [] {
      var mask := KeepMask(p, first);
      assert mask[1..] == KeepMask(p[1..], first);
      if mask[0] {
        BothIsEither(p[1..], first, second, d + p[0].Growth());
      } else {
        var q := Remaining(p, mask, d);
        assert q[1..] == Remaining(p[1..], mask[1..], d);
        assert KeepMask(q, second)[1..] == KeepMask(q[1..], second);
        BothIsEither(p[1..], first, second, d);
      }
    }
  }

  /** Accepting one range and then another gives the base and the hunks that accepting
      both at once gives: where a hunk lies in the new text does not move. */
  lemma KeepTwice<T>(a: seq<T>, p: seq<Edit>, b: seq<T>, first: Span, second: Span)
    requires Links(a, p, b)
    ensures Fits(Select(p, KeepMask(p, first)), |a|, |b|, 0)
      && Fits(Select(p, EitherMask(p, first, second)), |a|, |b|, 0)
    ensures var once, left := Splice(a, Select(p, KeepMask(p, first)), b, 0), Remaining(p, KeepMask(p, first), 0);
            && Fits(Select(left, KeepMask(left, second)), |once|, |b|, 0)
            && Splice(once, Select(left, KeepMask(left, second)), b, 0)
               == Splice(a, Select(p, EitherMask(p, first, second)), b, 0)
            && Remaining(left, KeepMask(left, second), 0) == Remaining(p, EitherMask(p, first, second), 0)
  {
    hide LinksFrom, Fits, Splice, Select, Remaining, PatchParts.Both;
    var mask := KeepMask(p, first);
    BothIsEither(p, first, second, 0);
    PatchParts.AcceptTwice(a, p, b, mask, KeepMask(Remaining(p, mask, 0), second));
  }

  lemma {:induction false} RemainingNone(p: seq<Edit>, mask: seq<bool>, d: int)
    requires |mask| == |p| && forall k :: 0 <= k < |p| ==> mask[k]
    ensures Remaining(p, mask, d) == []
    decreases |p|
  {
    if p != [] {
      assert mask[0];
      assert forall k :: 0 <= k < |p[1..]| ==> mask[1..][k] == mask[k + 1];
      RemainingNone(p[1..], mask[1..], d + p[0].Growth());
    }
  }

  /** An accept that touches every hunk makes the new text the base and leaves nothing
      to review, as accepting everything does. */
  lemma KeepEverything<T>(a: seq<T>, p: seq<Edit>, b: seq<T>, range: Span)
    requires Links(a, p, b) && forall k :: 0 <= k < |p| ==> KeepTouches(range, p[k])
    ensures Fits(Select(p, KeepMask(p, range)), |a|, |b|, 0)
    ensures Splice(a, Select(p, KeepMask(p, range)), b, 0) == b
    ensures Remaining(p, KeepMask(p, range), 0) == []
  {
    PatchParts.SelectAll(p, KeepMask(p, range));
    RemainingNone(p, KeepMask(p, range), 0);
    SpliceLinks(a, p, b, 0, 0);
    assert b[0..] == b;
  }

  /** The base grows by the lines added less the lines removed; and what is left to
      review makes up the rest of the difference between the two texts. */
  lemma KeepBalance<T>(a: seq<T>, p: seq<Edit>, b: seq<T>, mask: seq<bool>)
    requires Links(a, p, b) && |mask| == |p|
    ensures Fits(Select(p, mask), |a|, |b|, 0)
    ensures var m, left := AddEdits(NO_METRICS, Select(p, mask)), AddEdits(NO_METRICS, Remaining(p, mask, 0));
            && |Splice(a, Select(p, mask), b, 0)| == |a| + m.linesAdded - m.linesRemoved
            && |b| == |Splice(a, Select(p, mask), b, 0)| + left.linesAdded - left.linesRemoved
  {
    LinksFits(a, p, b, 0, 0);
    SelectFits(p, mask, |a|, |b|, 0);
    SpliceLength(a, Select(p, mask), b, 0);
    SpliceLinks(a, p, b, 0, 0);
    SpliceLength(a, p, b, 0);
    GrowthSplits(p, mask, 0);
    MetricsBalance(NO_METRICS, Select(p, mask));
    MetricsBalance(NO_METRICS, Remaining(p, mask, 0));
  }
}
