/** Rejecting hunks: the buffer edits that put the base rows of hunks back, made at
    character offsets and all at once, splice those rows into the buffer's rows. */
module Reverts {
  import opened RopeText
  import opened Patches
  import opened TextEdits

  /** A hunk whose ranges are clamped rows of the base and of the snapshot. */
  predicate HunkFits(h: Edit, n: nat, m: nat) {
    && 0 <= h.oldRows.start <= h.oldRows.end <= n && h.oldRows.start < n
    && 0 <= h.newRows.start <= h.newRows.end <= m && h.newRows.start < m
    && (h.oldRows.end == n <==> h.newRows.end == m)
  }

  /** Hunks of a patch, with some snapshot row between any two of them. */
  predicate HunksFit(hs: seq<Edit>, n: nat, m: nat) {
    hs != [] ==>
      && HunkFits(hs[0], n, m)
      && (|hs| > 1 ==> hs[0].newRows.end < hs[1].newRows.start)
      && HunksFit(hs[1..], n, m)
  }

  /** The buffer edit that reverts one hunk. */
  function RevertEdit(base: Rope, snap: Rope, h: Edit): TextEdit
    requires HunkFits(h, RowCount(base), RowCount(snap))
  {
    TextEdit(RowStart(snap, h.newRows.start), RowEnd(snap, h.newRows.end),
             SliceRows(base, h.oldRows.start, h.oldRows.end))
  }

  function RevertEdits(base: Rope, snap: Rope, hs: seq<Edit>): seq<TextEdit>
    requires HunksFit(hs, RowCount(base), RowCount(snap))
  {
    if hs == [] then [] else [RevertEdit(base, snap, hs[0])] + RevertEdits(base, snap, hs[1..])
  }

  lemma {:induction false} HunksFitSplice(hs: seq<Edit>, n: nat, m: nat, i: int)
    requires HunksFit(hs, n, m) && 0 <= i <= m && (hs != [] ==> i <= hs[0].newRows.start)
    ensures Fits(Inverse(hs), m, n, i)
  {
    if hs != [] {
      HunksFitSplice(hs[1..], n, m, hs[0].newRows.end);
      assert Inverse(hs)[1..] == Inverse(hs[1..]);
    }
  }

  lemma RowStartBefore(t: Rope, x: nat, y: nat)
    requires x < y < RowCount(t)
    ensures RowStart(t, x) < RowStart(t, y)
  {
    var rows := Rows(t);
    assert rows[..y] == rows[..x] + rows[x..y];
    LinesAppend(rows[..x], rows[x..y]);
  }

  lemma {:induction false} RevertsOrdered(base: Rope, snap: Rope, hs: seq<Edit>, i: int)
    requires HunksFit(hs, RowCount(base), RowCount(snap))
    requires 0 <= i <= |snap| && (hs != [] ==> i <= RowStart(snap, hs[0].newRows.start))
    ensures Ordered(RevertEdits(base, snap, hs), |snap|, i)
  {
    if hs != [] {
      var h, es := hs[0], RevertEdits(base, snap, hs);
      RowStartMonotone(snap, h.newRows.start, h.newRows.end);
      assert es[1..] == RevertEdits(base, snap, hs[1..]);
      if |hs| > 1 {
        RowStartBefore(snap, h.newRows.end, hs[1].newRows.start);
        assert es[1] == RevertEdit(base, snap, hs[1]);
      }
      RevertsOrdered(base, snap, hs[1..], RowEnd(snap, h.newRows.end));
    }
  }

  /** The first edit can be made last: it is one replacement in the text that the
      others have been applied to. */
  lemma FirstEditLast(t: Rope, es: seq<TextEdit>)
    requires es != [] && Ordered(es, |t|, 0)
    ensures Ordered(es[1..], |t|, 0)
    ensures var u := ApplyEdits(t, es[1..], 0);
            && es[0].end <= |u| && u[..es[0].end] == t[..es[0].end]
            && ApplyEdits(t, es, 0) == u[..es[0].start] + es[0].text + u[es[0].end..]
  {}

  /** Two texts with the same first rows have the same offsets for them. */
  lemma SameOffset(t: Rope, u: Rope, r: nat)
    requires r < RowCount(t) && r < RowCount(u) && Rows(t)[..r] == Rows(u)[..r]
    ensures RowStart(t, r) == RowStart(u, r)
  {
  }

  /** `HunksFit` hunks reverted at their character offsets, all at once, are spliced
      into the rows. */
  lemma {:induction false} RevertsSplice(base: Rope, snap: Rope, hs: seq<Edit>)
    requires HunksFit(hs, RowCount(base), RowCount(snap))
    ensures Fits(Inverse(hs), |Rows(snap)|, |Rows(base)|, 0)
    ensures Ordered(RevertEdits(base, snap, hs), |snap|, 0)
    ensures Rows(ApplyEdits(snap, RevertEdits(base, snap, hs), 0)) == Splice(Rows(snap), Inverse(hs), Rows(base), 0)
    decreases |hs|
  {
    HunksFitSplice(hs, RowCount(base), RowCount(snap), 0);
    RevertsOrdered(base, snap, hs, 0);
    if hs == [] {
      assert snap[0..] == snap && Rows(snap)[0..] == Rows(snap);
    } else {
      RevertsSplice(base, snap, hs[1..]);
      RevertOneMore(base, snap, hs);
    }
  }

  lemma RevertOneMore(base: Rope, snap: Rope, hs: seq<Edit>)
    requires hs != [] && HunksFit(hs, RowCount(base), RowCount(snap))
    requires Ordered(RevertEdits(base, snap, hs), |snap|, 0)
    requires Ordered(RevertEdits(base, snap, hs[1..]), |snap|, 0)
    requires Fits(Inverse(hs), |Rows(snap)|, |Rows(base)|, 0)
    requires Fits(Inverse(hs[1..]), |Rows(snap)|, |Rows(base)|, 0)
    requires Rows(ApplyEdits(snap, RevertEdits(base, snap, hs[1..]), 0))
             == Splice(Rows(snap), Inverse(hs[1..]), Rows(base), 0)
    ensures Rows(ApplyEdits(snap, RevertEdits(base, snap, hs), 0)) == Splice(Rows(snap), Inverse(hs), Rows(base), 0)
  {
    hide *;
    FirstHunk(base, snap, hs);
    var h, rest := hs[0], hs[1..];
    var es := RevertEdits(base, snap, hs);
    var u := ApplyEdits(snap, RevertEdits(base, snap, rest), 0);
    var s, e := h.newRows.start, h.newRows.end;
    FirstEditLast(snap, es);
    SplicedRest(Rows(snap), hs, Rows(base), Rows(u));
    RestOffsets(base, snap, hs, u);
    ReplaceRowsSplices(u, s, e, base, h.oldRows.start, h.oldRows.end);
    ReplaceRowsIs(u, s, e, SliceRows(base, h.oldRows.start, h.oldRows.end));
  }

  lemma ReplaceRowsIs(t: Rope, start: nat, end: nat, replacement: Rope)
    requires start <= end <= RowCount(t) && start < RowCount(t)
    ensures ReplaceRows(t, start, end, replacement) == t[..RowStart(t, start)] + replacement + t[RowEnd(t, end)..]
  {
  }

  lemma FirstHunk(base: Rope, snap: Rope, hs: seq<Edit>)
    requires hs != [] && HunksFit(hs, RowCount(base), RowCount(snap))
    ensures HunksFit(hs[1..], RowCount(base), RowCount(snap))
    ensures var h, es := hs[0], RevertEdits(base, snap, hs);
            && 0 <= h.oldRows.start <= h.oldRows.end <= RowCount(base) && h.oldRows.start < RowCount(base)
            && 0 <= h.newRows.start <= h.newRows.end <= RowCount(snap) && h.newRows.start < RowCount(snap)
            && |es| > 0 && es[1..] == RevertEdits(base, snap, hs[1..])
            && (h.newRows.end == RowCount(snap) <==> h.oldRows.end == RowCount(base))
            && es[0] == TextEdit(RowStart(snap, h.newRows.start), RowEnd(snap, h.newRows.end),
                                 SliceRows(base, h.oldRows.start, h.oldRows.end))
  {
  }

  /** Splicing the first hunk into what the others were spliced into. */
  lemma SplicedRest(a: seq<string>, hs: seq<Edit>, b: seq<string>, x: seq<string>)
    requires hs != [] && Fits(Inverse(hs), |a|, |b|, 0) && Fits(Inverse(hs[1..]), |a|, |b|, 0)
    requires x == Splice(a, Inverse(hs[1..]), b, 0)
    ensures var h := hs[0];
            && 0 <= h.newRows.start <= h.newRows.end <= |a| && h.newRows.end <= |x|
            && 0 <= h.oldRows.start <= h.oldRows.end <= |b|
            && Splice(a, Inverse(hs), b, 0)
               == x[..h.newRows.start] + b[h.oldRows.start..h.oldRows.end] + x[h.newRows.end..]
  {
    hide *;
    var h, rest := hs[0], Inverse(hs[1..]);
    InverseCons(hs);
    SpliceCons(a, h.Inverse(), rest, b, 0);
    assert Fits([h.Inverse()] + rest, |a|, |b|, 0);
    FirstFits(h.Inverse(), rest, |a|, |b|);
    SpliceAdvance(a, rest, b, 0, h.newRows.end);
    PrefixParts(a, x, h.newRows.start, h.newRows.end, Splice(a, rest, b, h.newRows.end));
  }

  lemma InverseCons(hs: seq<Edit>)
    requires hs != []
    ensures Inverse(hs) == [hs[0].Inverse()] + Inverse(hs[1..])
    ensures hs[0].Inverse() == Edit(hs[0].newRows, hs[0].oldRows)
  {
  }

  lemma FirstFits(e: Edit, rest: seq<Edit>, n: nat, m: nat)
    requires Fits([e] + rest, n, m, 0)
    ensures 0 <= e.oldRows.start <= e.oldRows.end <= n && 0 <= e.newRows.start <= e.newRows.end <= m
  {
  }

  lemma PrefixParts<T>(a: seq<T>, x: seq<T>, s: int, e: int, tail: seq<T>)
    requires 0 <= s <= e <= |a| && x == a[0..e] + tail
    ensures e <= |x| && x[..s] == a[0..s] && x[e..] == tail
  {
  }

  /** Reverting the other hunks leaves the offsets of the first hunk's rows alone. */
  lemma RestOffsets(base: Rope, snap: Rope, hs: seq<Edit>, u: Rope)
    requires hs != [] && HunksFit(hs, RowCount(base), RowCount(snap))
    requires Ordered(RevertEdits(base, snap, hs[1..]), |snap|, 0)
    requires u == ApplyEdits(snap, RevertEdits(base, snap, hs[1..]), 0)
    requires Fits(Inverse(hs[1..]), |Rows(snap)|, |Rows(base)|, 0)
    requires Rows(u) == Splice(Rows(snap), Inverse(hs[1..]), Rows(base), 0)
    ensures var h := hs[0];
            && h.newRows.start < RowCount(u) && h.newRows.end <= RowCount(u)
            && (h.newRows.end == RowCount(u) <==> h.oldRows.end == RowCount(base))
            && RowStart(u, h.newRows.start) == RowStart(snap, h.newRows.start)
            && RowEnd(u, h.newRows.end) == RowEnd(snap, h.newRows.end)
  {
    hide *;
    FirstHunk(base, snap, hs);
    var s, e := hs[0].newRows.start, hs[0].newRows.end;
    if |hs| == 1 {
      assert hs[1..] == [];
      NoReverts(base, snap);
    } else {
      NextHunk(hs, RowCount(base), RowCount(snap));
      var q := Inverse(hs[1..]);
      RestOffset(snap, q, Rows(base), u, s);
      RestOffset(snap, q, Rows(base), u, e);
    }
  }

  /** In front of the first splice rows keep their offsets. */
  lemma RestOffset(t: Rope, q: seq<Edit>, b: seq<string>, u: Rope, r: nat)
    requires q != [] && Fits(q, |Rows(t)|, |b|, 0) && Rows(u) == Splice(Rows(t), q, b, 0)
    requires r < q[0].oldRows.start
    ensures r < RowCount(t) && r < RowCount(u)
    ensures RowStart(u, r) == RowStart(t, r) && RowEnd(u, r) == RowEnd(t, r)
  {
    hide Rows, Splice;
    SplicePrefix(Rows(t), q, b, Rows(u), r);
    SameOffset(t, u, r);
  }

  lemma NoReverts(base: Rope, snap: Rope)
    ensures RevertEdits(base, snap, []) == []
    ensures ApplyEdits(snap, [], 0) == snap
  {}

  lemma NextHunk(hs: seq<Edit>, n: nat, m: nat)
    requires |hs| > 1 && HunksFit(hs, n, m)
    ensures var q := Inverse(hs[1..]);
            q != [] && hs[0].newRows.end < q[0].oldRows.start < m
    ensures hs[0].oldRows.end < n
  {}

  lemma RowEndInside(t: Rope, r: nat)
    requires r < RowCount(t)
    ensures RowEnd(t, r) == RowStart(t, r)
  {
  }

  lemma SplicePrefix<T>(a: seq<T>, p: seq<Edit>, b: seq<T>, x: seq<T>, r: int)
    requires p != [] && Fits(p, |a|, |b|, 0) && x == Splice(a, p, b, 0)
    requires 0 <= r < p[0].oldRows.start
    ensures r < |x| && x[..r] == a[..r]
  {}
}
