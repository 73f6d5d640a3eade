/** Row patches.  A patch is a list of edits, each pairing a range of old rows
    with the range of new rows that stands in its place; `Links` says that a
    patch really leads from one text to another.  Accepting or rejecting part of
    a patch is a splice, and what is left of the patch still links both ends. */
module Patches {

  /** A half-open range of rows. */
  datatype Span = Span(start: int, end: int) {
    function Len(): int { end - start }
    predicate IsEmpty() { start == end }
    predicate Has(row: int) { start <= row < end }
    function Shift(d: int): Span { Span(start + d, end + d) }
  }

  datatype Edit = Edit(oldRows: Span, newRows: Span) {
    /** How much longer the new rows are than the old ones. */
    function Growth(): int { newRows.Len() - oldRows.Len() }
    function Inverse(): Edit { Edit(newRows, oldRows) }
    function ShiftOld(d: int): Edit { Edit(oldRows.Shift(d), newRows) }
    function ShiftNew(d: int): Edit { Edit(oldRows, newRows.Shift(d)) }
  }

  function Growth(p: seq<Edit>): int {
    if p == [] then 0 else p[0].Growth() + Growth(p[1..])
  }

  lemma {:induction false} GrowthAppend(p: seq<Edit>, q: seq<Edit>)
    ensures Growth(p + q) == Growth(p) + Growth(q)
  {
    if p == [] {
      assert p + q == q;
    } else {
      assert (p + q)[1..] == p[1..] + q;
      GrowthAppend(p[1..], q);
    }
  }

  lemma GrowthSnoc(p: seq<Edit>, e: Edit)
    ensures Growth(p + [e]) == Growth(p) + e.Growth()
  {
    GrowthAppend(p, [e]);
    assert [e][1..] == [];
  }

  // ---- Splicing --------------------------------------------------------------

  /** From row `i` of `n` old rows on, the edits come one after the other, and
      their new ranges are ranges of `m` rows. */
  predicate Fits(p: seq<Edit>, n: nat, m: nat, i: int) {
    0 <= i <= n &&
    (p != [] ==>
       && i <= p[0].oldRows.start <= p[0].oldRows.end <= n
       && 0 <= p[0].newRows.start <= p[0].newRows.end <= m
       && Fits(p[1..], n, m, p[0].oldRows.end))
  }

  /** The rows of `a` from row `i` on, with the old rows of every edit replaced,
      all at once, by its rows of `b`. */
  function Splice<T>(a: seq<T>, p: seq<Edit>, b: seq<T>, i: int): (r: seq<T>)
    requires Fits(p, |a|, |b|, i)
  {
    if p == [] then a[i..]
    else
      a[i..p[0].oldRows.start]
      + b[p[0].newRows.start..p[0].newRows.end]
      + Splice(a, p[1..], b, p[0].oldRows.end)
  }

  lemma {:induction false} SpliceLength<T>(a: seq<T>, p: seq<Edit>, b: seq<T>, i: int)
    requires Fits(p, |a|, |b|, i)
    ensures |Splice(a, p, b, i)| == |a| - i + Growth(p)
  {
    if p != [] {
      SpliceLength(a, p[1..], b, p[0].oldRows.end);
    }
  }

  /** Rows in front of the first edit are copied. */
  lemma SpliceAdvance<T>(a: seq<T>, p: seq<Edit>, b: seq<T>, i: int, i': int)
    requires 0 <= i <= i' && Fits(p, |a|, |b|, i')
    ensures Fits(p, |a|, |b|, i)
    ensures Splice(a, p, b, i) == a[i..i'] + Splice(a, p, b, i')
  {}

  lemma SplitAt<T>(a: seq<T>, i: int, j: int, k: int)
    requires 0 <= i <= j <= k <= |a|
    ensures a[i..k] == a[i..j] + a[j..k]
  {
  }

  predicate FitsAfter(p: seq<Edit>, e: Edit, n: nat, m: nat, i: int) {
    && Fits(p, n, m, i)
    && (if p == [] then i else p[|p| - 1].oldRows.end) <= e.oldRows.start <= e.oldRows.end <= n
    && 0 <= e.newRows.start <= e.newRows.end <= m
  }

  lemma {:induction false} FitsSnoc(p: seq<Edit>, e: Edit, n: nat, m: nat, i: int)
    requires FitsAfter(p, e, n, m, i)
    ensures Fits(p + [e], n, m, i)
  {
    if p == [] {
      assert (p + [e])[1..] == [];
    } else {
      assert (p + [e])[1..] == p[1..] + [e];
      FitsSnoc(p[1..], e, n, m, p[0].oldRows.end);
    }
  }

  /** `x` with the rows from `start` to `end` replaced. */
  function Replace<T>(x: seq<T>, start: int, end: int, y: seq<T>): seq<T>
    requires 0 <= start <= end <= |x|
  {
    x[..start] + y + x[end..]
  }

  lemma SpliceOne<T>(a: seq<T>, e: Edit, b: seq<T>, i: int)
    requires FitsAfter([], e, |a|, |b|, i)
    ensures Fits([e], |a|, |b|, i)
    ensures Splice(a, [e], b, i)
            == Replace(a[i..], e.oldRows.start - i, e.oldRows.end - i, b[e.newRows.start..e.newRows.end])
  {}

  lemma SpliceCons<T>(a: seq<T>, f: Edit, q: seq<Edit>, b: seq<T>, i: int)
    requires Fits([f] + q, |a|, |b|, i)
    ensures Fits(q, |a|, |b|, f.oldRows.end)
    ensures Splice(a, [f] + q, b, i)
            == a[i..f.oldRows.start] + b[f.newRows.start..f.newRows.end] + Splice(a, q, b, f.oldRows.end)
  {}

  /** `z` is `x` with the old rows of `e` replaced, where row `i` of the old text
      has become row 0 of `x` and everything in front of `e` has grown by `g`. */
  ghost predicate Snoc<T>(z: seq<T>, x: seq<T>, e: Edit, b: seq<T>, i: int, g: int)
    requires 0 <= e.newRows.start <= e.newRows.end <= |b|
  {
    && 0 <= e.oldRows.start - i + g <= e.oldRows.end - i + g <= |x|
    && z == Replace(x, e.oldRows.start - i + g, e.oldRows.end - i + g, b[e.newRows.start..e.newRows.end])
  }

  lemma SnocBehind<T>(head: seq<T>, z: seq<T>, x: seq<T>, e: Edit, b: seq<T>, i: int, g: int, i': int, g': int)
    requires 0 <= e.newRows.start <= e.newRows.end <= |b|
    requires Snoc(z, x, e, b, i', g')
    requires |head| + g' - i' == g - i
    ensures Snoc(head + z, head + x, e, b, i, g)
  {}

  /** One more edit at the end is one replacement in what was spliced so far, at
      the old rows shifted by the growth of the edits before. */
  lemma {:induction false} SpliceSnoc<T>(a: seq<T>, p: seq<Edit>, e: Edit, b: seq<T>, i: int)
    requires FitsAfter(p, e, |a|, |b|, i)
    ensures Fits(p + [e], |a|, |b|, i)
    ensures Snoc(Splice(a, p + [e], b, i), Splice(a, p, b, i), e, b, i, Growth(p))
  {
    FitsSnoc(p, e, |a|, |b|, i);
    if p == [] {
      assert p + [e] == [e];
      SpliceOne(a, e, b, i);
    } else {
      var f, q := p[0], p[1..];
      assert (p + [e])[1..] == q + [e];
      SpliceSnoc(a, q, e, b, f.oldRows.end);
      SnocBehind(a[i..f.oldRows.start] + b[f.newRows.start..f.newRows.end],
                 Splice(a, q + [e], b, f.oldRows.end), Splice(a, q, b, f.oldRows.end),
                 e, b, i, Growth(p), f.oldRows.end, Growth(q));
    }
  }

  // ---- Links -----------------------------------------------------------------

  /** From row `i` of `a` and row `j` of `b` on, the patch is ordered, and the
      rows between its edits are the same in both texts. */
  ghost predicate LinksFrom<T>(a: seq<T>, p: seq<Edit>, b: seq<T>, i: int, j: int) {
    && 0 <= i <= |a| && 0 <= j <= |b|
    && if p == [] then a[i..] == b[j..]
       else
         var e := p[0];
         && i <= e.oldRows.start <= e.oldRows.end <= |a|
         && j <= e.newRows.start <= e.newRows.end <= |b|
         && a[i..e.oldRows.start] == b[j..e.newRows.start]
         && LinksFrom(a, p[1..], b, e.oldRows.end, e.newRows.end)
  }

  /** The patch leads from `a` to `b`. */
  ghost predicate Links<T>(a: seq<T>, p: seq<Edit>, b: seq<T>) {
    LinksFrom(a, p, b, 0, 0)
  }

  /** Two edits never touch: some row lies between them, on both sides. */
  ghost predicate Separated(p: seq<Edit>) {
    forall k, l :: 0 <= k < l < |p| ==>
      p[k].oldRows.end < p[l].oldRows.start && p[k].newRows.end < p[l].newRows.start
  }

  /** Every edit starts at an existing row on both sides. */
  ghost predicate Anchored(p: seq<Edit>, n: nat, m: nat) {
    forall k :: 0 <= k < |p| ==> p[k].oldRows.start < n && p[k].newRows.start < m
  }

  lemma {:induction false} LinksFits<T>(a: seq<T>, p: seq<Edit>, b: seq<T>, i: int, j: int)
    requires LinksFrom(a, p, b, i, j)
    ensures Fits(p, |a|, |b|, i)
  {
    if p != [] {
      LinksFits(a, p[1..], b, p[0].oldRows.end, p[0].newRows.end);
    }
  }

  lemma LinksCons<T>(a: seq<T>, e: Edit, q: seq<Edit>, b: seq<T>, i: int, j: int)
    requires 0 <= i <= e.oldRows.start <= e.oldRows.end <= |a|
    requires 0 <= j <= e.newRows.start <= e.newRows.end <= |b|
    requires a[i..e.oldRows.start] == b[j..e.newRows.start]
    requires LinksFrom(a, q, b, e.oldRows.end, e.newRows.end)
    ensures LinksFrom(a, [e] + q, b, i, j)
  {}

  lemma {:induction false} LinksBounds<T>(a: seq<T>, p: seq<Edit>, b: seq<T>, i: int, j: int)
    requires LinksFrom(a, p, b, i, j)
    ensures forall k :: 0 <= k < |p| ==>
              && i <= p[k].oldRows.start <= p[k].oldRows.end <= |a|
              && j <= p[k].newRows.start <= p[k].newRows.end <= |b|
  {
    if p != [] {
      LinksBounds(a, p[1..], b, p[0].oldRows.end, p[0].newRows.end);
      assert forall k :: 1 <= k < |p| ==> p[k] == p[1..][k - 1];
    }
  }

  /** Splicing all edits of a patch gives the text it leads to. */
  lemma {:induction false} SpliceLinks<T>(a: seq<T>, p: seq<Edit>, b: seq<T>, i: int, j: int)
    requires LinksFrom(a, p, b, i, j)
    ensures Fits(p, |a|, |b|, i)
    ensures Splice(a, p, b, i) == b[j..]
  {
    LinksFits(a, p, b, i, j);
    if p != [] {
      var e := p[0];
      SpliceLinks(a, p[1..], b, e.oldRows.end, e.newRows.end);
      assert b[j..] == b[j..e.newRows.start] + b[e.newRows.start..e.newRows.end] + b[e.newRows.end..];
    }
  }

  /** Both texts may be read from further on, up to the first edit. */
  lemma LinksAdvance<T>(a: seq<T>, p: seq<Edit>, b: seq<T>, i: int, j: int, d: nat)
    requires LinksFrom(a, p, b, i, j)
    requires if p == [] then i + d <= |a| else i + d <= p[0].oldRows.start
    ensures LinksFrom(a, p, b, i + d, j + d)
    ensures a[i..i + d] == b[j..j + d]
  {
    if p == [] {
      assert |a[i..]| == |b[j..]|;
      assert a[i + d..] == a[i..][d..];
      assert a[i..i + d] == a[i..][..d];
      assert b[j..j + d] == b[j..][..d];
    } else {
      var s, t := p[0].oldRows.start, p[0].newRows.start;
      assert |a[i..s]| == |b[j..t]|;
      assert a[i + d..s] == a[i..s][d..];
      assert b[j + d..t] == b[j..t][d..];
      assert a[i..i + d] == a[i..s][..d];
      assert b[j..j + d] == b[j..t][..d];
    }
  }

  /** Both texts may be read from further back, over equal rows. */
  lemma LinksRetreat<T>(a: seq<T>, p: seq<Edit>, b: seq<T>, i: int, j: int, i': int, j': int)
    requires LinksFrom(a, p, b, i', j')
    requires 0 <= i <= i' && 0 <= j <= j' && a[i..i'] == b[j..j']
    ensures LinksFrom(a, p, b, i, j)
  {
    if p == [] {
      assert a[i..] == a[i..i'] + a[i'..];
      assert b[j..] == b[j..j'] + b[j'..];
    } else {
      var s, t := p[0].oldRows.start, p[0].newRows.start;
      assert a[i..s] == a[i..i'] + a[i'..s];
      assert b[j..t] == b[j..j'] + b[j'..t];
    }
  }

  // ---- The patch read backwards ----------------------------------------------

  function Inverse(p: seq<Edit>): (q: seq<Edit>)
    ensures |q| == |p|
  {
    if p == [] then [] else [p[0].Inverse()] + Inverse(p[1..])
  }

  lemma {:induction false} LinksInverse<T>(a: seq<T>, p: seq<Edit>, b: seq<T>, i: int, j: int)
    requires LinksFrom(a, p, b, i, j)
    ensures LinksFrom(b, Inverse(p), a, j, i)
  {
    if p != [] {
      LinksInverse(a, p[1..], b, p[0].oldRows.end, p[0].newRows.end);
      assert Inverse(p)[1..] == Inverse(p[1..]);
    }
  }

  // ---- Taking part of a patch ------------------------------------------------

  /** The edits whose place in the mask is set. */
  function Select(p: seq<Edit>, mask: seq<bool>): seq<Edit>
    requires |mask| == |p|
  {
    if p == [] then []
    else (if mask[0] then [p[0]] else []) + Select(p[1..], mask[1..])
  }

  /** The edits whose place in the mask is not set, where their old rows lie once
      the others have been folded into the old text. */
  function Remaining(p: seq<Edit>, mask: seq<bool>, d: int): seq<Edit>
    requires |mask| == |p|
  {
    if p == [] then []
    else if mask[0] then Remaining(p[1..], mask[1..], d + p[0].Growth())
    else [p[0].ShiftOld(d)] + Remaining(p[1..], mask[1..], d)
  }

  function Complement(mask: seq<bool>): (r: seq<bool>)
    ensures |r| == |mask|
    ensures forall k :: 0 <= k < |mask| ==> r[k] == !mask[k]
  {
    if mask == [] then [] else [!mask[0]] + Complement(mask[1..])
  }

  lemma {:induction false} FitsFrom(p: seq<Edit>, n: nat, m: nat, i: int, i': int)
    requires Fits(p, n, m, i) && 0 <= i' <= i
    ensures Fits(p, n, m, i')
  {
  }

  lemma {:induction false} SelectFits(p: seq<Edit>, mask: seq<bool>, n: nat, m: nat, i: int)
    requires |mask| == |p| && Fits(p, n, m, i)
    ensures Fits(Select(p, mask), n, m, i)
  {
    if p != [] {
      SelectFits(p[1..], mask[1..], n, m, p[0].oldRows.end);
      FitsFrom(Select(p[1..], mask[1..]), n, m, p[0].oldRows.end, i);
      if mask[0] {
        assert Select(p, mask)[1..] == Select(p[1..], mask[1..]);
      } else {
        assert Select(p, mask) == Select(p[1..], mask[1..]);
      }
    }
  }

  lemma {:induction false} GrowthSplits(p: seq<Edit>, mask: seq<bool>, d: int)
    requires |mask| == |p|
    ensures Growth(Select(p, mask)) + Growth(Remaining(p, mask, d)) == Growth(p)
  {
    if p != [] {
      if mask[0] {
        GrowthSplits(p[1..], mask[1..], d + p[0].Growth());
        assert Select(p, mask)[1..] == Select(p[1..], mask[1..]);
      } else {
        GrowthSplits(p[1..], mask[1..], d);
        assert Remaining(p, mask, d)[1..] == Remaining(p[1..], mask[1..], d);
        assert p[0].ShiftOld(d).Growth() == p[0].Growth();
        assert Select(p, mask) == Select(p[1..], mask[1..]);
      }
    }
  }

  /** An edit that is not folded leaves its gap and its old rows as they are. */
  lemma AcceptLeft<T>(a: seq<T>, p: seq<Edit>, b: seq<T>, i: int, j: int, x: seq<T>, q: seq<Edit>, d: int)
    requires p != [] && LinksFrom(a, p, b, i, j) && 0 <= i + d
    requires LinksFrom(x, q, b, p[0].oldRows.end + d, p[0].newRows.end)
    requires x[i + d..p[0].oldRows.end + d] == a[i..p[0].oldRows.end]
    ensures LinksFrom(x, [p[0].ShiftOld(d)] + q, b, i + d, j)
  {
    var e := p[0];
    LinksInBounds(x, q, b, e.oldRows.end + d, e.newRows.end);
    SliceStart(a, i, e.oldRows.start, e.oldRows.end);
    SliceStart(x, i + d, e.oldRows.start + d, e.oldRows.end + d);
    hide LinksFrom;
    LinksCons(x, e.ShiftOld(d), q, b, i + d, j);
  }

  lemma LinksInBounds<T>(a: seq<T>, p: seq<Edit>, b: seq<T>, i: int, j: int)
    requires LinksFrom(a, p, b, i, j)
    ensures 0 <= i <= |a| && 0 <= j <= |b|
  {}

  lemma SliceStart<T>(a: seq<T>, i: int, j: int, k: int)
    requires 0 <= i <= j <= k <= |a|
    ensures a[i..k][..j - i] == a[i..j]
  {}

  /** An edit that is folded brings its gap and its new rows in front. */
  lemma AcceptTaken<T>(a: seq<T>, p: seq<Edit>, b: seq<T>, i: int, j: int, x: seq<T>, q: seq<Edit>, d: int)
    requires p != [] && LinksFrom(a, p, b, i, j) && 0 <= i + d
    requires LinksFrom(x, q, b, p[0].oldRows.end + d + p[0].Growth(), p[0].newRows.end)
    requires x[i + d..p[0].oldRows.end + d + p[0].Growth()]
             == a[i..p[0].oldRows.start] + b[p[0].newRows.start..p[0].newRows.end]
    ensures LinksFrom(x, q, b, i + d, j)
  {
    var e := p[0];
    SplitAt(b, j, e.newRows.start, e.newRows.end);
    LinksRetreat(x, q, b, i + d, j, e.oldRows.end + d + e.Growth(), e.newRows.end);
  }

  lemma Pieces<T>(x: seq<T>, k: int, piece: seq<T>, tail: seq<T>)
    requires 0 <= k <= |x| && x[k..] == piece + tail
    ensures k + |piece| <= |x| && x[k..k + |piece|] == piece && x[k + |piece|..] == tail
  {}

  /** What the first edit contributes to the folded text, and where the rest of
      the folded text starts. */
  lemma AcceptFirst<T>(a: seq<T>, p: seq<Edit>, b: seq<T>, mask: seq<bool>, i: int, x: seq<T>, d: int)
    returns (d': int)
    requires |mask| == |p| && p != [] && Fits(p, |a|, |b|, i)
    requires Fits(Select(p, mask), |a|, |b|, i)
    requires 0 <= i + d <= |x| && x[i + d..] == Splice(a, Select(p, mask), b, i)
    ensures d' == if mask[0] then d + p[0].Growth() else d
    ensures Fits(Select(p[1..], mask[1..]), |a|, |b|, p[0].oldRows.end)
    ensures i + d <= p[0].oldRows.end + d' <= |x|
    ensures x[p[0].oldRows.end + d'..] == Splice(a, Select(p[1..], mask[1..]), b, p[0].oldRows.end)
    ensures x[i + d..p[0].oldRows.end + d']
            == if mask[0] then a[i..p[0].oldRows.start] + b[p[0].newRows.start..p[0].newRows.end]
               else a[i..p[0].oldRows.end]
  {
    var e, q, rest := p[0], p[1..], mask[1..];
    d' := if mask[0] then d + e.Growth() else d;
    SelectFits(q, rest, |a|, |b|, e.oldRows.end);
    var tail := Splice(a, Select(q, rest), b, e.oldRows.end);
    if mask[0] {
      assert Select(p, mask)[1..] == Select(q, rest);
      Pieces(x, i + d, a[i..e.oldRows.start] + b[e.newRows.start..e.newRows.end], tail);
    } else {
      assert Select(p, mask) == Select(q, rest);
      SpliceAdvance(a, Select(q, rest), b, i, e.oldRows.end);
      Pieces(x, i + d, a[i..e.oldRows.end], tail);
    }
  }

  /** Folding part of a patch into its old text leaves the rest of the patch
      leading from there to the same new text.  Read from row `i` of the old
      text on, which is row `i + d` of the folded text `x`. */
  lemma {:induction false} AcceptLinksFrom<T>(a: seq<T>, p: seq<Edit>, b: seq<T>, mask: seq<bool>,
                                              i: int, j: int, x: seq<T>, d: int)
    requires LinksFrom(a, p, b, i, j) && |mask| == |p|
    requires Fits(Select(p, mask), |a|, |b|, i)
    requires 0 <= i + d <= |x| && x[i + d..] == Splice(a, Select(p, mask), b, i)
    ensures LinksFrom(x, Remaining(p, mask, d), b, i + d, j)
    decreases |p|
  {
    hide Splice, Select, Fits;
    if p == [] {
      AcceptNothing(a, b, i, j, x, d);
    } else {
      LinksFits(a, p, b, i, j);
      var d' := AcceptFirst(a, p, b, mask, i, x, d);
      AcceptLinksFrom(a, p[1..], b, mask[1..], p[0].oldRows.end, p[0].newRows.end, x, d');
      if mask[0] {
        AcceptTaken(a, p, b, i, j, x, Remaining(p[1..], mask[1..], d'), d);
      } else {
        AcceptLeft(a, p, b, i, j, x, Remaining(p[1..], mask[1..], d'), d);
      }
    }
  }

  lemma AcceptNothing<T>(a: seq<T>, b: seq<T>, i: int, j: int, x: seq<T>, d: int)
    requires LinksFrom(a, [], b, i, j) && Fits(Select([], []), |a|, |b|, i)
    requires 0 <= i + d <= |x| && x[i + d..] == Splice(a, Select([], []), b, i)
    ensures LinksFrom(x, [], b, i + d, j)
  {}

  lemma AcceptLinks<T>(a: seq<T>, p: seq<Edit>, b: seq<T>, mask: seq<bool>)
    requires Links(a, p, b) && |mask| == |p|
    ensures Fits(Select(p, mask), |a|, |b|, 0)
    ensures Links(Splice(a, Select(p, mask), b, 0), Remaining(p, mask, 0), b)
  {
    LinksFits(a, p, b, 0, 0);
    SelectFits(p, mask, |a|, |b|, 0);
    AcceptLinksFrom(a, p, b, mask, 0, 0, Splice(a, Select(p, mask), b, 0), 0);
  }

  /** Reverting some edits in the new text gives the same text as folding the
      others into the old one. */
  lemma {:induction false} RevertIsAcceptRest<T>(a: seq<T>, p: seq<Edit>, b: seq<T>, mask: seq<bool>, i: int, j: int)
    requires LinksFrom(a, p, b, i, j) && |mask| == |p|
    ensures Fits(Inverse(Select(p, mask)), |b|, |a|, j)
    ensures Fits(Select(p, Complement(mask)), |a|, |b|, i)
    ensures Splice(b, Inverse(Select(p, mask)), a, j) == Splice(a, Select(p, Complement(mask)), b, i)
    decreases |p|
  {
    if p != [] {
      var e, q, rest := p[0], p[1..], mask[1..];
      var i', j' := e.oldRows.end, e.newRows.end;
      RevertIsAcceptRest(a, q, b, rest, i', j');
      var back, forth := Inverse(Select(q, rest)), Select(q, Complement(rest));
      var tail := Splice(a, forth, b, i');
      assert Complement(mask)[1..] == Complement(rest);
      if mask[0] {
        assert Select(p, mask)[1..] == Select(q, rest);
        assert Inverse(Select(p, mask))[1..] == back;
        assert Select(p, Complement(mask)) == forth;
        SpliceAdvance(a, forth, b, i, i');
        SplitAt(a, i, e.oldRows.start, i');
      } else {
        assert Select(p, mask) == Select(q, rest);
        assert Select(p, Complement(mask))[1..] == forth;
        SpliceAdvance(b, back, a, j, j');
        SplitAt(b, j, e.newRows.start, j');
      }
    }
  }
}
