/** What part of a patch inherits from the whole: the hunks left after accepting some
    are again a well-formed patch, and the hunks picked for a reject can be reverted. */
module PatchParts {
  import opened Patches
  import opened Conflicts
  import RebaseLoop
  import SnapshotDiffs
  import opened Reverts

  /** A patch as the review engine keeps it: it leads from `a` to `b`, some row lies
      between any two hunks, and every hunk starts at an existing row on both sides. */
  ghost predicate PatchBetween<T>(a: seq<T>, p: seq<Edit>, b: seq<T>) {
    Links(a, p, b) && Separated(p) && Anchored(p, |a|, |b|)
  }

  // ---- Remaining hunks -----------------------------------------------------------------

  ghost predicate NewsAbove(p: seq<Edit>, lo: int) {
    forall k :: 0 <= k < |p| ==> lo < p[k].newRows.start
  }

  lemma {:induction false} RemainingNews(p: seq<Edit>, mask: seq<bool>, d: int, lo: int)
    requires |mask| == |p| && NewsAbove(p, lo)
    ensures NewsAbove(Remaining(p, mask, d), lo)
  {
    if p != [] {
      assert NewsAbove(p[1..], lo) by { assert forall k :: 0 <= k < |p[1..]| ==> p[1..][k] == p[k + 1]; }
      RemainingNews(p[1..], mask[1..], if mask[0] then d + p[0].Growth() else d, lo);
    }
  }

  lemma {:induction false} RemainingApart(p: seq<Edit>, mask: seq<bool>, d: int)
    requires |mask| == |p| && HunksApart(p)
    ensures HunksApart(Remaining(p, mask, d))
  {
    if p != [] {
      var rest := p[1..];
      assert forall k :: 0 <= k < |rest| ==> rest[k] == p[k + 1];
      RemainingApart(rest, mask[1..], if mask[0] then d + p[0].Growth() else d);
      RemainingNews(rest, mask[1..], d, p[0].newRows.end);
      if !mask[0] {
        ApartCons(p[0].ShiftOld(d), Remaining(rest, mask[1..], d));
      }
    }
  }

  lemma ApartCons(e: Edit, q: seq<Edit>)
    requires HunksApart(q) && NewsAbove(q, e.newRows.end) && e.newRows.start <= e.newRows.end
    ensures HunksApart([e] + q)
  {}

  /** If the new ranges of a patch keep apart, so do its old ranges. */
  lemma {:induction false} LinksSeparated<T>(a: seq<T>, p: seq<Edit>, b: seq<T>, i: int, j: int)
    requires LinksFrom(a, p, b, i, j) && HunksApart(p)
    ensures Separated(p)
  {
    if |p| > 1 {
      var rest := p[1..];
      LinksSeparated(a, rest, b, p[0].oldRows.end, p[0].newRows.end);
      assert |a[p[0].oldRows.end..rest[0].oldRows.start]| == |b[p[0].newRows.end..rest[0].newRows.start]|;
      LinksBounds(a, rest, b, p[0].oldRows.end, p[0].newRows.end);
      SnapshotDiffs.SeparatedCons(p[0], rest);
      assert p == [p[0]] + rest;
    }
  }

  ghost predicate OldsAbove(p: seq<Edit>, lo: int) {
    forall k :: 0 <= k < |p| ==> lo < p[k].oldRows.start
  }

  lemma {:induction false} SelectOlds(p: seq<Edit>, mask: seq<bool>, lo: int)
    requires |mask| == |p| && OldsAbove(p, lo)
    ensures OldsAbove(Select(p, mask), lo)
  {
    if p != [] {
      assert OldsAbove(p[1..], lo) by { assert forall k :: 0 <= k < |p[1..]| ==> p[1..][k] == p[k + 1]; }
      SelectOlds(p[1..], mask[1..], lo);
    }
  }

  lemma SpliceNotEmpty<T>(a: seq<T>, p: seq<Edit>, b: seq<T>, i: int)
    requires Fits(p, |a|, |b|, i) && i < |a| && OldsAbove(p, i)
    ensures |Splice(a, p, b, i)| > 0
  {
  }

  lemma {:induction false} RemainingAnchored<T>(a: seq<T>, p: seq<Edit>, b: seq<T>, mask: seq<bool>,
                                                i: int, x: seq<T>, d: int)
    requires Fits(p, |a|, |b|, i) && |mask| == |p|
    requires Separated(p) && Anchored(p, |a|, |b|)
    requires Fits(Select(p, mask), |a|, |b|, i)
    requires 0 <= i + d <= |x| && x[i + d..] == Splice(a, Select(p, mask), b, i)
    ensures Anchored(Remaining(p, mask, d), |x|, |b|)
    decreases |p|
  {
    if p != [] {
      var e, rest := p[0], p[1..];
      assert forall k :: 0 <= k < |rest| ==> rest[k] == p[k + 1];
      var d' := AcceptFirst(a, p, b, mask, i, x, d);
      RemainingAnchored(a, rest, b, mask[1..], e.oldRows.end, x, d');
      if !mask[0] && e.oldRows.IsEmpty() {
        SelectOlds(rest, mask[1..], e.oldRows.end);
        SpliceNotEmpty(a, Select(rest, mask[1..]), b, e.oldRows.end);
      }
    }
  }

  /** Accepting some hunks leaves a well-formed patch from the new base. */
  lemma AcceptPatch<T>(a: seq<T>, p: seq<Edit>, b: seq<T>, mask: seq<bool>)
    requires PatchBetween(a, p, b) && |mask| == |p|
    ensures Fits(Select(p, mask), |a|, |b|, 0)
    ensures PatchBetween(Splice(a, Select(p, mask), b, 0), Remaining(p, mask, 0), b)
  {
    hide LinksFrom, Fits, Splice, Select, Remaining, Separated, Anchored, HunksApart;
    AcceptLinks(a, p, b, mask);
    var x := Splice(a, Select(p, mask), b, 0);
    PatchApart(a, p, b);
    RemainingApart(p, mask, 0);
    LinksSeparated(x, Remaining(p, mask, 0), b, 0, 0);
    LinksFits(a, p, b, 0, 0);
    assert x[0..] == x;
    RemainingAnchored(a, p, b, mask, 0, x, 0);
  }

  lemma PatchApart<T>(a: seq<T>, p: seq<Edit>, b: seq<T>)
    requires PatchBetween(a, p, b)
    ensures HunksApart(p)
  {
    LinksBounds(a, p, b, 0, 0);
  }

  // ---- Hunks picked for a reject -------------------------------------------------------

  ghost predicate AllHunksFit(p: seq<Edit>, n: nat, m: nat) {
    forall k :: 0 <= k < |p| ==> HunkFits(p[k], n, m)
  }

  lemma PatchHunksFit<T>(a: seq<T>, p: seq<Edit>, b: seq<T>)
    requires PatchBetween(a, p, b)
    ensures AllHunksFit(p, |a|, |b|)
  {
    LinksBounds(a, p, b, 0, 0);
    forall k | 0 <= k < |p| ensures HunkFits(p[k], |a|, |b|) {
      RebaseLoop.EndsTogether(a, p, b, 0, 0, k);
    }
  }

  lemma {:induction false} SelectNews(p: seq<Edit>, mask: seq<bool>, lo: int)
    requires |mask| == |p| && NewsAbove(p, lo)
    ensures NewsAbove(Select(p, mask), lo)
  {
    if p != [] {
      assert NewsAbove(p[1..], lo) by { assert forall k :: 0 <= k < |p[1..]| ==> p[1..][k] == p[k + 1]; }
      SelectNews(p[1..], mask[1..], lo);
    }
  }

  lemma {:induction false} SelectHunksFit(p: seq<Edit>, mask: seq<bool>, n: nat, m: nat)
    requires |mask| == |p| && AllHunksFit(p, n, m) && HunksApart(p)
    ensures HunksFit(Select(p, mask), n, m)
  {
    if p != [] {
      var rest := p[1..];
      assert forall k :: 0 <= k < |rest| ==> rest[k] == p[k + 1];
      SelectHunksFit(rest, mask[1..], n, m);
      SelectNews(rest, mask[1..], p[0].newRows.end);
      if mask[0] {
        assert HunkFits(p[0], n, m);
        assert Select(p, mask)[1..] == Select(rest, mask[1..]);
      } else {
        assert Select(p, mask) == Select(rest, mask[1..]);
      }
    }
  }

  /** Any hunks of a patch can be reverted together. */
  lemma RejectableHunks<T>(a: seq<T>, p: seq<Edit>, b: seq<T>, mask: seq<bool>)
    requires PatchBetween(a, p, b) && |mask| == |p|
    ensures HunksFit(Select(p, mask), |a|, |b|)
  {
    PatchHunksFit(a, p, b);
    PatchApart(a, p, b);
    SelectHunksFit(p, mask, |a|, |b|);
  }

  // ---- The patch after a reject ----------------------------------------------------------

  /** The hunks that are not rejected, where they lie in the reverted buffer. */
  function RemainingAfterReject(p: seq<Edit>, mask: seq<bool>): seq<Edit>
    requires |mask| == |p|
  {
    Inverse(Remaining(Inverse(p), mask, 0))
  }

  lemma {:induction false} SelectInverse(p: seq<Edit>, mask: seq<bool>)
    requires |mask| == |p|
    ensures Select(Inverse(p), mask) == Inverse(Select(p, mask))
  {
    if p != [] {
      assert Inverse(p)[1..] == Inverse(p[1..]);
      SelectInverse(p[1..], mask[1..]);
      if mask[0] {
        assert Select(p, mask) == [p[0]] + Select(p[1..], mask[1..]);
        assert Inverse(Select(p, mask)) == [p[0].Inverse()] + Inverse(Select(p[1..], mask[1..]));
      } else {
        assert Select(p, mask) == Select(p[1..], mask[1..]);
      }
    }
  }

  /** Reverting some hunks leaves the others leading from the base to the buffer. */
  lemma RejectLinks<T>(a: seq<T>, p: seq<Edit>, b: seq<T>, mask: seq<bool>)
    requires Links(a, p, b) && |mask| == |p|
    ensures Fits(Inverse(Select(p, mask)), |b|, |a|, 0)
    ensures Links(a, RemainingAfterReject(p, mask), Splice(b, Inverse(Select(p, mask)), a, 0))
  {
    hide LinksFrom, Fits, Splice, Select, Remaining;
    LinksInverse(a, p, b, 0, 0);
    SelectInverse(p, mask);
    AcceptLinks(b, Inverse(p), a, mask);
    LinksInverse(Splice(b, Inverse(Select(p, mask)), a, 0), Remaining(Inverse(p), mask, 0), a, 0, 0);
  }

  // ---- Accepting and rejecting together --------------------------------------------------

  function AllSet(n: nat): (r: seq<bool>)
    ensures |r| == n && forall k :: 0 <= k < n ==> r[k]
  {
    seq(n, _ => true)
  }

  lemma {:induction false} SelectAll(p: seq<Edit>, mask: seq<bool>)
    requires |mask| == |p| && forall k :: 0 <= k < |p| ==> mask[k]
    ensures Select(p, mask) == p
  {
    hide *;
    if p == [] {
      NoneSelected(p, mask);
    } else {
      assert forall k :: 0 <= k < |p[1..]| ==> mask[1..][k] == mask[k + 1];
      SelectAll(p[1..], mask[1..]);
      FirstSelected(p, mask);
      assert [p[0]] + p[1..] == p;
    }
  }

  lemma NoneSelected(p: seq<Edit>, mask: seq<bool>)
    requires |mask| == |p| && p == []
    ensures Select(p, mask) == []
  {}

  lemma FirstSelected(p: seq<Edit>, mask: seq<bool>)
    requires |mask| == |p| && p != [] && mask[0]
    ensures Select(p, mask) == [p[0]] + Select(p[1..], mask[1..])
  {}

  /** However a patch is split into accepted and rejected hunks, accepting first and
      rejecting first end in the same base and the same buffer, and both are equal. */
  lemma AcceptRejectCommute<T>(a: seq<T>, p: seq<Edit>, b: seq<T>, accepted: seq<bool>)
    requires Links(a, p, b) && |accepted| == |p|
    ensures var rejected := Complement(accepted);
            && Fits(Select(p, accepted), |a|, |b|, 0)
            && Fits(Inverse(Select(p, rejected)), |b|, |a|, 0)
            && (var acceptBase, left := Splice(a, Select(p, accepted), b, 0), Remaining(p, accepted, 0);
                var rejectBuffer := Splice(b, Inverse(Select(p, rejected)), a, 0);
                var left' := RemainingAfterReject(p, rejected);
                && Fits(Inverse(left), |b|, |acceptBase|, 0) && Fits(left', |a|, |rejectBuffer|, 0)
                && Splice(b, Inverse(left), acceptBase, 0) == acceptBase
                && Splice(a, left', rejectBuffer, 0) == rejectBuffer
                && acceptBase == rejectBuffer)
  {
    hide LinksFrom, Fits, Splice, Select, Remaining;
    var rejected := Complement(accepted);
    AcceptLinks(a, p, b, accepted);
    var acceptBase, left := Splice(a, Select(p, accepted), b, 0), Remaining(p, accepted, 0);
    LinksInverse(acceptBase, left, b, 0, 0);
    SpliceLinks(b, Inverse(left), acceptBase, 0, 0);
    assert acceptBase[0..] == acceptBase;
    RejectLinks(a, p, b, rejected);
    var rejectBuffer := Splice(b, Inverse(Select(p, rejected)), a, 0);
    SpliceLinks(a, RemainingAfterReject(p, rejected), rejectBuffer, 0, 0);
    assert rejectBuffer[0..] == rejectBuffer;
    RevertIsAcceptRest(a, p, b, rejected, 0, 0);
    assert Complement(rejected) == accepted;
  }

  /** The mask of the hunks accepted by the first of two accepts or by the second,
      which sees only the hunks the first one left. */
  function Both(first: seq<bool>, second: seq<bool>): (r: seq<bool>)
    ensures |r| == |first|
  {
    if first == [] then []
    else if first[0] then [true] + Both(first[1..], second)
    else if second == [] then [false] + Both(first[1..], [])
    else [second[0]] + Both(first[1..], second[1..])
  }

  /** Two accepts in succession leave the hunks that accepting both at once leaves. */
  lemma {:induction false} RemainingTwice(p: seq<Edit>, first: seq<bool>, second: seq<bool>, d: int, d': int)
    requires |first| == |p| && |second| == |Remaining(p, first, d)|
    ensures Remaining(Remaining(p, first, d), second, d') == Remaining(p, Both(first, second), d + d')
    decreases |p|
  {
    if p != [] {
      var q := Remaining(p, first, d);
      assert Both(first, second)[1..] == if first[0] then Both(first[1..], second)
                                         else Both(first[1..], second[1..]);
      if first[0] {
        RemainingTwice(p[1..], first[1..], second, d + p[0].Growth(), d');
      } else {
        assert q[0] == p[0].ShiftOld(d) && q[1..] == Remaining(p[1..], first[1..], d);
        assert q[0].Growth() == p[0].Growth();
        RemainingTwice(p[1..], first[1..], second[1..], d, if second[0] then d' + p[0].Growth() else d');
      }
    }
  }

  /** What the rest of a patch contributes to two accepts in succession (`q`, behind
      row `k` of the text after the first) and to one accept of both (`both`). */
  ghost predicate SameRest<T>(x: seq<T>, q: seq<Edit>, k: int, a: seq<T>, both: seq<Edit>, i: int, b: seq<T>) {
    && Fits(q, |x|, |b|, k) && Fits(both, |a|, |b|, i)
    && Splice(x, q, b, k) == Splice(a, both, b, i)
  }

  /** A hunk taken by the first accept. */
  lemma TwiceTaken<T>(x: seq<T>, q: seq<Edit>, a: seq<T>, both: seq<Edit>, b: seq<T>, e: Edit, i: int, d: int)
    requires 0 <= i <= e.oldRows.start <= e.oldRows.end <= |a|
    requires 0 <= e.newRows.start <= e.newRows.end <= |b| && 0 <= i + d
    requires i + d <= e.oldRows.end + d + e.Growth() <= |x|
    requires x[i + d..e.oldRows.end + d + e.Growth()] == a[i..e.oldRows.start] + b[e.newRows.start..e.newRows.end]
    requires SameRest(x, q, e.oldRows.end + d + e.Growth(), a, both, e.oldRows.end, b)
    ensures SameRest(x, q, i + d, a, [e] + both, i, b)
  {
    hide Splice;
    SpliceAdvance(x, q, b, i + d, e.oldRows.end + d + e.Growth());
    assert ([e] + both)[1..] == both;
    SpliceCons(a, e, both, b, i);
  }

  /** A hunk taken by the second accept. */
  lemma TwiceThen<T>(x: seq<T>, q: seq<Edit>, a: seq<T>, both: seq<Edit>, b: seq<T>, e: Edit, i: int, d: int)
    requires 0 <= i <= e.oldRows.start <= e.oldRows.end <= |a|
    requires 0 <= e.newRows.start <= e.newRows.end <= |b| && 0 <= i + d
    requires e.oldRows.end + d <= |x| && x[i + d..e.oldRows.end + d] == a[i..e.oldRows.end]
    requires SameRest(x, q, e.oldRows.end + d, a, both, e.oldRows.end, b)
    ensures SameRest(x, [e.ShiftOld(d)] + q, i + d, a, [e] + both, i, b)
  {
    assert x[i + d..e.oldRows.end + d][..e.oldRows.start - i] == x[i + d..e.oldRows.start + d];
    assert a[i..e.oldRows.end][..e.oldRows.start - i] == a[i..e.oldRows.start];
    assert ([e] + both)[1..] == both && ([e.ShiftOld(d)] + q)[1..] == q;
  }

  /** A hunk taken by neither. */
  lemma TwiceLeft<T>(x: seq<T>, q: seq<Edit>, a: seq<T>, both: seq<Edit>, b: seq<T>, e: Edit, i: int, d: int)
    requires 0 <= i <= e.oldRows.end <= |a| && 0 <= i + d
    requires e.oldRows.end + d <= |x| && x[i + d..e.oldRows.end + d] == a[i..e.oldRows.end]
    requires SameRest(x, q, e.oldRows.end + d, a, both, e.oldRows.end, b)
    ensures SameRest(x, q, i + d, a, both, i, b)
  {
    hide Fits, Splice;
    SpliceAdvance(x, q, b, i + d, e.oldRows.end + d);
    SpliceAdvance(a, both, b, i, e.oldRows.end);
  }

  /** The lists of hunks of both ways, taken apart into the first hunk and the rest. */
  lemma TwiceLists(p: seq<Edit>, first: seq<bool>, second: seq<bool>, d: int) returns (second': seq<bool>)
    requires |first| == |p| && p != [] && |second| == |Remaining(p, first, d)|
    ensures second' == if first[0] then second else second[1..]
    ensures var d' := if first[0] then d + p[0].Growth() else d;
            && |second'| == |Remaining(p[1..], first[1..], d')|
            && (!first[0] ==> second != [])
            && (var sel := Select(Remaining(p, first, d), second);
                var all := Select(p, Both(first, second));
                var q := Select(Remaining(p[1..], first[1..], d'), second');
                var both := Select(p[1..], Both(first[1..], second'));
                if first[0] then sel == q && all == [p[0]] + both
                else if second[0] then sel == [p[0].ShiftOld(d)] + q && all == [p[0]] + both
                else sel == q && all == both)
  {
    second' := if first[0] then second else second[1..];
    assert Both(first, second)[1..] == Both(first[1..], second');
    if !first[0] {
      assert Remaining(p, first, d)[1..] == Remaining(p[1..], first[1..], d);
    }
  }

  lemma {:induction false} AcceptTwiceFrom<T>(a: seq<T>, p: seq<Edit>, b: seq<T>, first: seq<bool>, second: seq<bool>,
                                              i: int, j: int, x: seq<T>, d: int)
    requires LinksFrom(a, p, b, i, j) && |first| == |p| && |second| == |Remaining(p, first, d)|
    requires Fits(Select(p, first), |a|, |b|, i)
    requires 0 <= i + d <= |x| && x[i + d..] == Splice(a, Select(p, first), b, i)
    ensures SameRest(x, Select(Remaining(p, first, d), second), i + d, a, Select(p, Both(first, second)), i, b)
    decreases |p|
  {
    hide *;
    if p == [] {
      TwiceNothing(a, b, second, i, x, d);
    } else {
      var e := p[0];
      LinksFits(a, p, b, i, j);
      LinksHead(a, p, b, i, j);
      var d' := AcceptFirst(a, p, b, first, i, x, d);
      var second' := TwiceLists(p, first, second, d);
      AcceptTwiceFrom(a, p[1..], b, first[1..], second', e.oldRows.end, e.newRows.end, x, d');
      var q, both := Select(Remaining(p[1..], first[1..], d'), second'), Select(p[1..], Both(first[1..], second'));
      if first[0] {
        assert e.oldRows.end + d' == e.oldRows.end + d + e.Growth();
        TwiceTaken(x, q, a, both, b, e, i, d);
      } else if second[0] {
        TwiceThen(x, q, a, both, b, e, i, d);
      } else {
        TwiceLeft(x, q, a, both, b, e, i, d);
      }
    }
  }

  lemma TwiceNothing<T>(a: seq<T>, b: seq<T>, second: seq<bool>, i: int, x: seq<T>, d: int)
    requires |second| == |Remaining([], [], d)|
    requires Fits(Select([], []), |a|, |b|, i)
    requires 0 <= i + d <= |x| && x[i + d..] == Splice(a, Select([], []), b, i)
    ensures SameRest(x, Select(Remaining([], [], d), second), i + d, a, Select([], Both([], second)), i, b)
  {
  }

  lemma LinksHead<T>(a: seq<T>, p: seq<Edit>, b: seq<T>, i: int, j: int)
    requires p != [] && LinksFrom(a, p, b, i, j)
    ensures 0 <= i <= p[0].oldRows.start <= p[0].oldRows.end <= |a|
    ensures 0 <= j <= p[0].newRows.start <= p[0].newRows.end <= |b|
    ensures LinksFrom(a, p[1..], b, p[0].oldRows.end, p[0].newRows.end)
  {
  }

  /** ... and the same base. */
  lemma AcceptTwice<T>(a: seq<T>, p: seq<Edit>, b: seq<T>, first: seq<bool>, second: seq<bool>)
    requires Links(a, p, b) && |first| == |p| && |second| == |Remaining(p, first, 0)|
    ensures Fits(Select(p, first), |a|, |b|, 0) && Fits(Select(p, Both(first, second)), |a|, |b|, 0)
    ensures var once, left := Splice(a, Select(p, first), b, 0), Remaining(p, first, 0);
            && Fits(Select(left, second), |once|, |b|, 0)
            && Splice(once, Select(left, second), b, 0) == Splice(a, Select(p, Both(first, second)), b, 0)
            && Remaining(left, second, 0) == Remaining(p, Both(first, second), 0)
  {
    hide LinksFrom, Fits, Splice, Select, Remaining;
    AcceptLinks(a, p, b, first);
    var once := Splice(a, Select(p, first), b, 0);
    assert once[0..] == once;
    AcceptTwiceFrom(a, p, b, first, second, 0, 0, once, 0);
    RemainingTwice(p, first, second, 0, 0);
  }
}
