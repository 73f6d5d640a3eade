/** What becomes of each agent hunk in a rebase.  The composed patch is the ordered
    list of connected components of the conflict relation; every hunk that no user
    edit is in the way of is a component of its own and survives with the same rows,
    and every other component turns into exactly one hunk. */
module Survivors {
  import opened Patches
  import opened Conflicts
  import opened Rebase
  import opened Diamond

  // ---- Components --------------------------------------------------------------

  function HunksOf(groups: seq<Group>): seq<Edit> {
    if groups == [] then [] else groups[0].hunks + HunksOf(groups[1..])
  }

  function EditsOf(groups: seq<Group>): seq<Edit> {
    if groups == [] then [] else groups[0].edits + EditsOf(groups[1..])
  }

  /** The groups that hold some hunk. */
  function WithHunks(groups: seq<Group>): seq<Group> {
    if groups == [] then []
    else (if groups[0].hunks == [] then [] else [groups[0]]) + WithHunks(groups[1..])
  }

  /** One hunk alone, one edit alone, or a chain of conflicts. */
  predicate Component(g: Group) {
    || (|g.hunks| == 1 && g.edits == [])
    || (g.hunks == [] && |g.edits| == 1)
    || Chained(g.hunks, g.edits)
  }

  /** No conflict between the two groups: `a` lies in front of `b`. */
  predicate InOrder(a: Group, b: Group) {
    && (forall k :: 0 <= k < |b.edits| ==> AllAfter(b.edits[k], a.hunks))
    && (forall k :: 0 <= k < |a.edits| ==> AllBefore(a.edits[k], b.hunks))
  }

  ghost predicate Components(groups: seq<Group>) {
    && (forall k :: 0 <= k < |groups| ==> Component(groups[k]))
    && (forall k, l :: 0 <= k < l < |groups| ==> InOrder(groups[k], groups[l]))
  }

  lemma ComposeCons(p: seq<Edit>, u: seq<Edit>, g: int, h: int) returns (n: nat, m: nat, first: Group, rest: seq<Group>)
    requires p != [] || u != []
    ensures n <= |p| && m <= |u| && n + m > 0 && (n, m) == NextGroup(p, u)
    ensures first.hunks == p[..n] && first.edits == u[..m]
    ensures rest == Compose(p[n..], u[m..], g + Growth(p[..n]), h + Growth(u[..m]))
    ensures Compose(p, u, g, h) == [first] + rest
  {
    hide Whole, NextGroup, Growth;
    var r := NextGroup(p, u);
    n, m := r.0, r.1;
    first := Group(p[..n], u[..m], Whole(p[..n], u[..m], g, h));
    rest := Compose(p[n..], u[m..], g + Growth(p[..n]), h + Growth(u[..m]));
  }

  lemma ComposeNil(g: int, h: int)
    ensures Compose([], [], g, h) == []
  {
  }

  /** The groups partition the hunks and the edits, in order. */
  lemma {:induction false} ComposePartitions(p: seq<Edit>, u: seq<Edit>, g: int, h: int)
    ensures HunksOf(Compose(p, u, g, h)) == p && EditsOf(Compose(p, u, g, h)) == u
    decreases |p| + |u|
  {
    hide Compose, NextGroup, Growth;
    if p == [] && u == [] {
      assert Compose(p, u, g, h) == [] by { ComposeNil(g, h); }
    } else {
      var n, m, first, rest := ComposeCons(p, u, g, h);
      ComposePartitions(p[n..], u[m..], g + Growth(p[..n]), h + Growth(u[..m]));
      PartitionCons(first, rest, p, u, n, m);
    }
  }

  lemma PartitionCons(first: Group, rest: seq<Group>, p: seq<Edit>, u: seq<Edit>, n: nat, m: nat)
    requires n <= |p| && m <= |u| && first.hunks == p[..n] && first.edits == u[..m]
    requires HunksOf(rest) == p[n..] && EditsOf(rest) == u[m..]
    ensures HunksOf([first] + rest) == p && EditsOf([first] + rest) == u
  {}

  ghost predicate HunksWithin(groups: seq<Group>, p: seq<Edit>, u: seq<Edit>) {
    forall k :: 0 <= k < |groups| ==>
      (forall x :: x in groups[k].hunks ==> x in p) && (forall x :: x in groups[k].edits ==> x in u)
  }

  lemma {:induction false} ComposeWithin(p: seq<Edit>, u: seq<Edit>, g: int, h: int)
    ensures HunksWithin(Compose(p, u, g, h), p, u)
    decreases |p| + |u|
  {
    hide *;
    if p == [] && u == [] {
      ComposeNil(g, h);
      NothingWithin(p, u);
    } else {
      var n, m, first, rest := ComposeCons(p, u, g, h);
      ComposeWithin(p[n..], u[m..], g + Growth(p[..n]), h + Growth(u[..m]));
      WithinCons(p, u, n, m, first, rest);
    }
  }

  lemma NothingWithin(p: seq<Edit>, u: seq<Edit>)
    ensures HunksWithin([], p, u)
  {}

  lemma WithinCons(p: seq<Edit>, u: seq<Edit>, n: nat, m: nat, first: Group, rest: seq<Group>)
    requires n <= |p| && m <= |u| && first.hunks == p[..n] && first.edits == u[..m]
    requires HunksWithin(rest, p[n..], u[m..])
    ensures HunksWithin([first] + rest, p, u)
  {
    var groups := [first] + rest;
    forall k | 0 <= k < |groups|
      ensures (forall x :: x in groups[k].hunks ==> x in p) && (forall x :: x in groups[k].edits ==> x in u)
    {
      if k > 0 {
        assert groups[k] == rest[k - 1];
        assert (forall x :: x in p[n..] ==> x in p) && (forall x :: x in u[m..] ==> x in u);
      }
    }
  }

  lemma FirstInOrder(p: seq<Edit>, u: seq<Edit>, n: nat, m: nat, first: Group, b: Group)
    requires Cleared(p, u, n, m)
    requires first.hunks == p[..n] && first.edits == u[..m]
    requires (forall x :: x in b.hunks ==> x in p[n..]) && (forall x :: x in b.edits ==> x in u[m..])
    ensures InOrder(first, b)
  {
    forall k | 0 <= k < |b.edits| ensures AllAfter(b.edits[k], first.hunks) {
      assert b.edits[k] in u[m..];
      var l :| 0 <= l < |u[m..]| && u[m..][l] == b.edits[k];
      assert u[m + l] == b.edits[k];
    }
    forall k | 0 <= k < |first.edits| ensures AllBefore(first.edits[k], b.hunks) {
      forall j | 0 <= j < |b.hunks| ensures Before(first.edits[k], b.hunks[j]) {
        assert b.hunks[j] in p[n..];
        var l :| 0 <= l < |p[n..]| && p[n..][l] == b.hunks[j];
        assert p[n + l] == b.hunks[j];
      }
    }
  }

  /** The groups are the connected components of the conflict relation, in order. */
  lemma {:induction false} ComposeComponents(p: seq<Edit>, u: seq<Edit>, g: int, h: int)
    requires HunksApart(p) && EditsApart(u)
    ensures Components(Compose(p, u, g, h))
    decreases |p| + |u|
  {
    hide *;
    if p == [] && u == [] {
      ComposeNil(g, h);
      NoComponents();
    } else {
      var n, m, first, rest := ComposeCons(p, u, g, h);
      NextGroupCleared(p, u);
      ApartRest(p, u, n, m);
      ComposeComponents(p[n..], u[m..], g + Growth(p[..n]), h + Growth(u[..m]));
      ComposeWithin(p[n..], u[m..], g + Growth(p[..n]), h + Growth(u[..m]));
      ComponentsCons(p, u, n, m, first, rest);
    }
  }

  lemma NoComponents()
    ensures Components([])
  {}

  lemma ComponentsCons(p: seq<Edit>, u: seq<Edit>, n: nat, m: nat, first: Group, rest: seq<Group>)
    requires Cleared(p, u, n, m) && (n + m == 1 || Chained(p[..n], u[..m]))
    requires first.hunks == p[..n] && first.edits == u[..m]
    requires Components(rest) && HunksWithin(rest, p[n..], u[m..])
    ensures Components([first] + rest)
  {
    var groups := [first] + rest;
    assert Component(first) by {
      if n + m == 1 && n == 0 { assert p[..n] == []; }
      if n + m == 1 && m == 0 { assert u[..m] == []; }
    }
    forall k, l | 0 <= k < l < |groups| ensures InOrder(groups[k], groups[l]) {
      if k == 0 {
        FirstInOrder(p, u, n, m, first, rest[l - 1]);
      }
    }
  }

  /** The rows of the component reach from the first row of a hunk or an edit of it to the
      last one, and cover the base rows of all its hunks and the new rows of all its edits. */
  ghost predicate Spans(g: Group) {
    && (forall k :: 0 <= k < |g.hunks| ==> Inside(g.hunks[k].oldRows, g.whole.oldRows))
    && (forall k :: 0 <= k < |g.edits| ==> Inside(g.edits[k].newRows, g.whole.newRows))
    && ((g.hunks != [] && g.whole.oldRows.start == g.hunks[0].oldRows.start)
        || (g.edits != [] && g.whole.newRows.start == g.edits[0].newRows.start))
    && ((g.hunks != [] && g.whole.oldRows.end == g.hunks[|g.hunks| - 1].oldRows.end)
        || (g.edits != [] && g.whole.newRows.end == g.edits[|g.edits| - 1].newRows.end))
  }

  predicate Inside(s: Span, t: Span) {
    t.start <= s.start <= s.end <= t.end
  }

  /** Any of the first `n` edits of a patch lies between the first and the last of them. */
  lemma LinksRange<T>(a: seq<T>, p: seq<Edit>, b: seq<T>, i: int, j: int, n: nat, k: nat)
    requires LinksFrom(a, p, b, i, j) && k < n <= |p|
    ensures Inside(p[k].oldRows, Span(p[0].oldRows.start, p[n - 1].oldRows.end))
    ensures Inside(p[k].newRows, Span(p[0].newRows.start, p[n - 1].newRows.end))
  {
    LinksSkip(a, p, b, i, j, k);
    LinksSkip(a, p, b, i, j, k + 1);
    var i', j' := p[k].oldRows.end, p[k].newRows.end;
    LinksSkip(a, p[k + 1..], b, i', j', n - k - 1);
    assert p[k..][0] == p[k];
    if k + 1 < n { assert p[k + 1..][n - k - 2] == p[n - 1]; }
  }

  /** Where the first `n` edits of a patch start and end on one side, from the other. */
  lemma LinksEnds<T>(a: seq<T>, p: seq<Edit>, b: seq<T>, i: int, j: int, n: nat)
    requires LinksFrom(a, p, b, i, j) && 0 < n <= |p|
    ensures p[0].newRows.start - p[0].oldRows.start == j - i
    ensures p[n - 1].newRows.end - p[n - 1].oldRows.end == j - i + Growth(p[..n])
  {
    LinksSkip(a, p, b, i, j, n);
    assert |a[i..p[0].oldRows.start]| == |b[j..p[0].newRows.start]|;
  }

  lemma GroupSpans<T>(base: seq<T>, p: seq<Edit>, snap: seq<T>, u: seq<Edit>, text: seq<T>,
                      i: int, s: int, t: int, n: nat, m: nat, g: Group)
    requires LinksFrom(base, p, snap, i, s) && LinksFrom(snap, u, text, s, t)
    requires HunksApart(p) && EditsApart(u) && (p != [] || u != []) && (n, m) == NextGroup(p, u)
    requires g == Group(p[..n], u[..m], Whole(p[..n], u[..m], s - i, t - s))
    ensures Spans(g)
  {
    hide HunksApart, EditsApart, NextGroup, LinksFrom, Growth;
    LinksInside(base, p, snap, i, s);
    LinksInside(snap, u, text, s, t);
    GroupBounds(p, u, s);
    if n > 0 { LinksEnds(base, p, snap, i, s, n); }
    if m > 0 { LinksEnds(snap, u, text, s, t, m); }
    forall k | 0 <= k < n ensures Inside(g.hunks[k].oldRows, g.whole.oldRows) {
      LinksRange(base, p, snap, i, s, n, k);
    }
    forall k | 0 <= k < m ensures Inside(g.edits[k].newRows, g.whole.newRows) {
      LinksRange(snap, u, text, s, t, m, k);
    }
  }

  ghost predicate AllSpan(groups: seq<Group>) {
    forall k :: 0 <= k < |groups| ==> Spans(groups[k])
  }

  lemma AllSpanCons(first: Group, rest: seq<Group>)
    requires Spans(first) && AllSpan(rest)
    ensures AllSpan([first] + rest)
  {}

  lemma NoneSpans()
    ensures AllSpan([])
  {}

  lemma {:induction false} ComposeSpans<T>(base: seq<T>, p: seq<Edit>, snap: seq<T>, u: seq<Edit>, text: seq<T>,
                                           i: int, s: int, t: int)
    requires LinksFrom(base, p, snap, i, s) && LinksFrom(snap, u, text, s, t)
    requires HunksApart(p) && EditsApart(u)
    ensures AllSpan(Compose(p, u, s - i, t - s))
    decreases |p| + |u|
  {
    hide *;
    if p == [] && u == [] {
      ComposeNil(s - i, t - s);
      NoneSpans();
    } else {
      var n, m, hi, whole, rest := ComposeFirst(p, u, s - i, t - s);
      ComposeUnfolds(p, u, s - i, t - s, n, m);
      GroupBehind(base, p, snap, u, text, i, s, t, n, m, hi, whole);
      ApartRest(p, u, n, m);
      ComposeSpans(base, p[n..], snap, u[m..], text, whole.oldRows.end, hi, whole.newRows.end);
      GroupSpans(base, p, snap, u, text, i, s, t, n, m, Group(p[..n], u[..m], whole));
      AllSpanCons(Group(p[..n], u[..m], whole), rest);
    }
  }

  /** How much the components without hunks have grown the base in front of the `k`-th
      component that has some. */
  function FreeGrowth(groups: seq<Group>, k: nat): int
    requires k < |WithHunks(groups)|
  {
    if groups[0].hunks == [] then groups[0].whole.Growth() + FreeGrowth(groups[1..], k)
    else if k == 0 then 0
    else FreeGrowth(groups[1..], k - 1)
  }

  /** The hunk that the `k`-th component with hunks turns into. */
  function HunkOf(groups: seq<Group>, k: nat, d: int): Edit
    requires k < |WithHunks(groups)|
  {
    WithHunks(groups)[k].whole.ShiftOld(d + FreeGrowth(groups, k))
  }

  /** Each component with hunks becomes exactly one hunk of the rebased patch. */
  lemma {:induction false} OneHunkEach(groups: seq<Group>, d: int)
    ensures |Remaining(Wholes(groups), UserOnly(groups), d)| == |WithHunks(groups)|
    ensures forall k :: 0 <= k < |WithHunks(groups)| ==>
      Remaining(Wholes(groups), UserOnly(groups), d)[k] == HunkOf(groups, k, d)
  {
    if groups != [] {
      var rest := groups[1..];
      assert Wholes(groups)[1..] == Wholes(rest) && UserOnly(groups)[1..] == UserOnly(rest);
      OneHunkEach(rest, if groups[0].hunks == [] then d + groups[0].whole.Growth() else d);
    }
  }

  /** The rebased patch: the hunks and edits fall into the connected components of the
      conflict relation, and the `k`-th component with hunks is the `k`-th hunk: it covers
      the rows of all its hunks and edits, moved on the old side by what was applied to the
      base in front of it. */
  lemma RebaseComponents<T>(base: seq<T>, p: seq<Edit>, snap: seq<T>, u: seq<Edit>, text: seq<T>)
    requires RebaseInput(base, p, snap, u, text)
    ensures var groups := Compose(p, u, 0, 0);
            && HunksOf(groups) == p && EditsOf(groups) == u && Components(groups) && AllSpan(groups)
            && |RebasedPatch(p, u)| == |WithHunks(groups)|
            && forall k :: 0 <= k < |WithHunks(groups)| ==> RebasedPatch(p, u)[k] == HunkOf(groups, k, 0)
  {
    hide Compose, LinksFrom, Separated, HunksApart, EditsApart, RebasedPatch, Remaining, Components, AllSpan, HunkOf;
    InputApart(base, p, snap, u, text);
    ComposePartitions(p, u, 0, 0);
    ComposeComponents(p, u, 0, 0);
    ComposeSpans(base, p, snap, u, text, 0, 0, 0);
    assert Compose(p, u, 0 - 0, 0 - 0) == Compose(p, u, 0, 0);
    OneHunkEach(Compose(p, u, 0, 0), 0);
    RebasedPatchIs(p, u);
  }

  // ---- Survivors -----------------------------------------------------------------

  /** The edits that lie in front of the hunk. */
  function InFront(u: seq<Edit>, hunk: Edit): seq<Edit> {
    if u == [] then []
    else (if Before(u[0], hunk) then [u[0]] else []) + InFront(u[1..], hunk)
  }

  /** The hunk where it lies after the rebase: its old rows shifted by what was
      applied in front of it, its new rows by what the user typed in front of it. */
  function Survivor(p: seq<Edit>, u: seq<Edit>, hunk: Edit): Edit {
    var before := InFront(u, hunk);
    hunk.ShiftOld(Growth(Applied(p, before))).ShiftNew(Growth(before))
  }

  ghost predicate Same<T>(a: seq<T>, s: Span, b: seq<T>, t: Span) {
    && 0 <= s.start <= s.end <= |a| && 0 <= t.start <= t.end <= |b|
    && a[s.start..s.end] == b[t.start..t.end]
  }

  /** The hunk is in the rebased patch, with the same rows on both sides. */
  ghost predicate Survives<T>(base: seq<T>, snap: seq<T>, text: seq<T>, base': seq<T>,
                              hunk: Edit, e: Edit, patch': seq<Edit>) {
    e in patch' && Same(base', e.oldRows, base, hunk.oldRows) && Same(text, e.newRows, snap, hunk.newRows)
  }

  lemma {:induction false} InFrontAppend(u: seq<Edit>, v: seq<Edit>, hunk: Edit)
    ensures InFront(u + v, hunk) == InFront(u, hunk) + InFront(v, hunk)
  {
    if u == [] {
      assert u + v == v;
    } else {
      assert (u + v)[1..] == u[1..] + v;
      InFrontAppend(u[1..], v, hunk);
    }
  }

  lemma {:induction false} InFrontAll(u: seq<Edit>, hunk: Edit)
    requires forall k :: 0 <= k < |u| ==> Before(u[k], hunk)
    ensures InFront(u, hunk) == u
  {
    if u != [] {
      assert Before(u[0], hunk);
      assert forall k :: 0 <= k < |u[1..]| ==> u[1..][k] == u[k + 1];
      InFrontAll(u[1..], hunk);
    }
  }

  lemma {:induction false} InFrontNone(u: seq<Edit>, hunk: Edit)
    requires forall k :: 0 <= k < |u| ==> !Before(u[k], hunk)
    ensures InFront(u, hunk) == []
  {
    if u != [] {
      assert !Before(u[0], hunk);
      assert forall k :: 0 <= k < |u[1..]| ==> u[1..][k] == u[k + 1];
      InFrontNone(u[1..], hunk);
    }
  }

  lemma SameWithin<T>(a: seq<T>, s: Span, b: seq<T>, t: Span, s': Span, t': Span)
    requires Same(a, s, b, t)
    requires s.start <= s'.start <= s'.end <= s.end && t'.start - t.start == s'.start - s.start && t'.Len() == s'.Len()
    ensures Same(a, s', b, t')
  {
    SubSlice(a, s.start, s.end, s'.start - s.start, s'.end - s.start);
    SubSlice(b, t.start, t.end, s'.start - s.start, s'.end - s.start);
  }

  lemma SubSlice<T>(a: seq<T>, i: int, j: int, k: int, l: int)
    requires 0 <= i <= j <= |a| && 0 <= k <= l <= j - i
    ensures a[i..j][k..l] == a[i + k..i + l]
  {
    forall x | 0 <= x < l - k ensures a[i..j][k..l][x] == a[i + k..i + l][x] {
    }
  }

  /** A hunk that is a group of its own: its place in the composed patch, moved by
      what was applied in front of it, is the survivor. */
  lemma AloneIsSurvivor(all: seq<Edit>, preU: seq<Edit>, p: seq<Edit>, u: seq<Edit>, g: int, d: int)
    requires HunksApart(p) && EditsApart(u) && p != [] && NextGroup(p, u) == (1, 0)
    requires forall l :: 0 <= l < |preU| ==> AllBefore(preU[l], p)
    requires g == p[0].newRows.start - p[0].oldRows.start && d == Growth(Applied(all, preU))
    ensures Survivor(all, preU + u, p[0]) == Whole(p[..1], u[..0], g, Growth(preU)).ShiftOld(d)
  {
    NextGroupCleared(p, u);
    InFrontAppend(preU, u, p[0]);
    forall l | 0 <= l < |preU| ensures Before(preU[l], p[0]) {
      assert AllBefore(preU[l], p);
    }
    InFrontAll(preU, p[0]);
    InFrontNone(u, p[0]);
    assert InFront(preU + u, p[0]) == preU;
    assert p[..1] == [p[0]] && u[..0] == [];
    assert Growth(p[..1]) == p[0].Growth() by { assert [p[0]][1..] == []; }
  }

  /** The rows of a hunk that is a group of its own are untouched by the user. */
  lemma AloneKeepsNewRows<T>(snap: seq<T>, p: seq<Edit>, u: seq<Edit>, text: seq<T>, s: int, t: int)
    requires LinksFrom(snap, u, text, s, t)
    requires HunksApart(p) && EditsApart(u) && p != [] && NextGroup(p, u) == (1, 0)
    requires s <= p[0].newRows.start && p[0].newRows.end <= |snap|
    ensures Same(text, p[0].newRows.Shift(t - s), snap, p[0].newRows)
  {
    NextGroupCleared(p, u);
    var hi := p[0].newRows.end;
    if u != [] { assert After(u[0], p[0]); }
    LinksAdvance(snap, u, text, s, t, hi - s);
    SameWithin(text, Span(t, t + hi - s), snap, Span(s, hi), p[0].newRows.Shift(t - s), p[0].newRows);
  }

  ghost predicate Ahead(preU: seq<Edit>, p: seq<Edit>) {
    forall l :: 0 <= l < |preU| ==> AllBefore(preU[l], p)
  }

  /** Going through the groups: the hunks `preP` and edits `preU` are done, base row
      `i`, snapshot row `s` and new row `t` lie behind them, and base row `i` has
      become row `i + d` of the rebased base `x`. */
  ghost predicate Reached<T>(base: seq<T>, p: seq<Edit>, snap: seq<T>, u: seq<Edit>, text: seq<T>,
                             i: int, s: int, t: int, x: seq<T>, d: int, preP: seq<Edit>, preU: seq<Edit>) {
    && LinksFrom(base, p, snap, i, s) && LinksFrom(snap, u, text, s, t)
    && HunksApart(p) && EditsApart(u)
    && Behind(u, preP) && Ahead(preU, p)
    && Growth(preP) == s - i && Growth(preU) == t - s && Growth(Applied(preP + p, preU)) == d
    && Spliced(base, Wholes(Compose(p, u, s - i, t - s)), UserOnly(Compose(p, u, s - i, t - s)), text, i, x, d)
  }

  ghost predicate Spliced<T>(base: seq<T>, composed: seq<Edit>, mask: seq<bool>, text: seq<T>, i: int, x: seq<T>,
                             d: int)
    requires |mask| == |composed|
  {
    && Fits(composed, |base|, |text|, i) && Fits(Select(composed, mask), |base|, |text|, i)
    && 0 <= i + d <= |x| && x[i + d..] == Splice(base, Select(composed, mask), text, i)
  }

  /** The applied edits of the first group move the rebased base on by its growth. */
  lemma ReachedGrowth<T>(p: seq<Edit>, snap: seq<T>, u: seq<Edit>, text: seq<T>,
                         s: int, t: int, d: int, preP: seq<Edit>, preU: seq<Edit>, n: nat, m: nat, whole: Edit)
    requires LinksFrom(snap, u, text, s, t)
    requires HunksApart(p) && EditsApart(u) && Behind(u, preP) && (p != [] || u != [])
    requires (n, m) == NextGroup(p, u) && whole == Whole(p[..n], u[..m], Growth(preP), t - s)
    requires Growth(Applied(preP + p, preU)) == d
    ensures Growth(Applied(preP + p, preU + u[..m])) == if n == 0 then d + whole.Growth() else d
  {
    hide Whole, HunksApart, EditsApart, Behind, NextGroup;
    AppliedFirst(preP, p, snap, u, text, s, t, n, m);
    AppliedAppend(preP + p, preU, u[..m]);
    if n == 0 {
      assert p[..n] == [];
      GrowthSnoc(Applied(preP + p, preU), whole);
    } else {
      assert Applied(preP + p, preU) + [] == Applied(preP + p, preU);
    }
  }

  lemma AheadNext(preU: seq<Edit>, p: seq<Edit>, u: seq<Edit>, n: nat, m: nat)
    requires Ahead(preU, p) && Cleared(p, u, n, m)
    ensures Ahead(preU + u[..m], p[n..])
  {}

  lemma SplicedNext<T>(base: seq<T>, whole: Edit, rest: seq<Edit>, taken: bool, mask: seq<bool>, text: seq<T>,
                       i: int, x: seq<T>, d: int)
    returns (d': int)
    requires |mask| == |rest|
    requires Spliced(base, [whole] + rest, [taken] + mask, text, i, x, d)
    ensures d' == if taken then d + whole.Growth() else d
    ensures Spliced(base, rest, mask, text, whole.oldRows.end, x, d')
    ensures !taken ==> Same(x, Span(i + d, whole.oldRows.end + d), base, Span(i, whole.oldRows.end))
    ensures Remaining([whole] + rest, [taken] + mask, d)
            == (if taken then [] else [whole.ShiftOld(d)]) + Remaining(rest, mask, d')
  {
    assert ([whole] + rest)[1..] == rest && ([taken] + mask)[1..] == mask;
    d' := AcceptFirst(base, [whole] + rest, text, [taken] + mask, i, x, d);
  }

  lemma ReachedNext<T>(base: seq<T>, p: seq<Edit>, snap: seq<T>, u: seq<Edit>, text: seq<T>,
                       i: int, s: int, t: int, x: seq<T>, d: int, preP: seq<Edit>, preU: seq<Edit>)
    returns (n: nat, m: nat, hi: int, whole: Edit, d': int)
    requires Reached(base, p, snap, u, text, i, s, t, x, d, preP, preU) && (p != [] || u != [])
    ensures n <= |p| && m <= |u| && n + m > 0 && (n, m) == NextGroup(p, u)
    ensures whole == Whole(p[..n], u[..m], s - i, t - s)
    ensures d' == if n == 0 then d + whole.Growth() else d
    ensures Reached(base, p[n..], snap, u[m..], text, whole.oldRows.end, hi, whole.newRows.end,
                    x, d', preP + p[..n], preU + u[..m])
    ensures n > 0 ==> Same(x, Span(i + d, whole.oldRows.end + d), base, Span(i, whole.oldRows.end))
    ensures var groups := Compose(p, u, s - i, t - s);
            var rest := Compose(p[n..], u[m..], hi - whole.oldRows.end, whole.newRows.end - hi);
            Remaining(Wholes(groups), UserOnly(groups), d)
            == (if n == 0 then [] else [whole.ShiftOld(d)]) + Remaining(Wholes(rest), UserOnly(rest), d')
  {
    hide HunksApart, EditsApart, Behind, Ahead, Cleared, NextGroup, Whole, Hi, Compose, Wholes, UserOnly,
         Spliced, Applied, Growth, Remaining, LinksFrom, Same;
    var rest: seq<Group>;
    n, m, hi, whole, rest := ComposeFirst(p, u, s - i, t - s);
    d' := SplicedNext(base, whole, Wholes(rest), n == 0, UserOnly(rest), text, i, x, d);
    assert LinksFrom(base, p[n..], snap, whole.oldRows.end, hi)
           && LinksFrom(snap, u[m..], text, hi, whole.newRows.end) by {
      GroupBehind(base, p, snap, u, text, i, s, t, n, m, hi, whole);
    }
    assert Behind(u[m..], preP + p[..n]) && Ahead(preU + u[..m], p[n..]) && HunksApart(p[n..])
      && EditsApart(u[m..]) by {
      NextGroupCleared(p, u);
      BehindNext(preP, p, u, n, m);
      AheadNext(preU, p, u, n, m);
      ApartRest(p, u, n, m);
    }
    assert Growth(preP + p[..n]) == hi - whole.oldRows.end && Growth(preU + u[..m]) == whole.newRows.end - hi by {
      GrowthAppend(preP, p[..n]);
      GrowthAppend(preU, u[..m]);
    }
    assert Growth(Applied(preP + p[..n] + p[n..], preU + u[..m])) == d' by {
      ReachedGrowth(p, snap, u, text, s, t, d, preP, preU, n, m, whole);
      assert p[..n] + p[n..] == p;
      assert preP + p[..n] + p[n..] == preP + p;
    }
  }

  /** The first group is the hunk alone: it survives. */
  lemma AloneSurvives<T>(base: seq<T>, p: seq<Edit>, snap: seq<T>, u: seq<Edit>, text: seq<T>,
                         i: int, s: int, t: int, x: seq<T>, d: int, preP: seq<Edit>, preU: seq<Edit>, whole: Edit)
    requires Reached(base, p, snap, u, text, i, s, t, x, d, preP, preU)
    requires p != [] && NextGroup(p, u) == (1, 0) && whole == Whole(p[..1], u[..0], s - i, t - s)
    requires Same(x, Span(i + d, whole.oldRows.end + d), base, Span(i, whole.oldRows.end))
    ensures var e := Survivor(preP + p, preU + u, p[0]);
            && e == whole.ShiftOld(d)
            && Same(x, e.oldRows, base, p[0].oldRows) && Same(text, e.newRows, snap, p[0].newRows)
  {
    hide LinksFrom, HunksApart, EditsApart, Growth, Spliced, NextGroup, Survivor, Whole, Same;
    LinksInside(base, p, snap, i, s);
    LinksEnds(base, p, snap, i, s, 1);
    LinksBounds(base, p, snap, i, s);
    AloneIsSurvivor(preP + p, preU, p, u, s - i, d);
    AloneKeepsNewRows(snap, p, u, text, s, t);
    WholeAlone(p, u, s - i, t - s);
    SameWithin(x, Span(i + d, whole.oldRows.end + d), base, Span(i, whole.oldRows.end),
               p[0].oldRows.Shift(d), p[0].oldRows);
  }

  lemma WholeAlone(p: seq<Edit>, u: seq<Edit>, g: int, h: int)
    requires p != [] && p[0].newRows.start - p[0].oldRows.start == g
    ensures Whole(p[..1], u[..0], g, h) == p[0].ShiftNew(h)
  {
    assert p[..1] == [p[0]] && [p[0]][1..] == [];
  }

  lemma TouchedInChain(p: seq<Edit>, u: seq<Edit>, preU: seq<Edit>, n: nat, m: nat, k: nat)
    requires n <= |p| && m <= |u| && Chained(p[..n], u[..m]) && k < n
    ensures !Untouched(p[k], preU + u)
  {
    ChainedConflicts(p[..n], u[..m]);
    assert p[..n][k] == p[k];
    var l :| 0 <= l < m && Conflict(u[..m][l], p[k]);
    assert (preU + u)[|preU| + l] == u[l];
  }

  lemma {:induction false} SurvivesFrom<T>(base: seq<T>, p: seq<Edit>, snap: seq<T>, u: seq<Edit>, text: seq<T>,
                                           i: int, s: int, t: int, x: seq<T>, d: int, preP: seq<Edit>,
                                           preU: seq<Edit>, k: nat)
    requires Reached(base, p, snap, u, text, i, s, t, x, d, preP, preU)
    requires k < |p| && Untouched(p[k], preU + u)
    ensures var groups := Compose(p, u, s - i, t - s);
            Survives(base, snap, text, x, p[k], Survivor(preP + p, preU + u, p[k]),
                     Remaining(Wholes(groups), UserOnly(groups), d))
    decreases |p| + |u|
  {
    hide *;
    var n, m, hi, whole, d' := ReachedNext(base, p, snap, u, text, i, s, t, x, d, preP, preU);
    var groups := Compose(p, u, s - i, t - s);
    var rest := Compose(p[n..], u[m..], hi - whole.oldRows.end, whole.newRows.end - hi);
    var patch', rest' := Remaining(Wholes(groups), UserOnly(groups), d), Remaining(Wholes(rest), UserOnly(rest), d');
    if k < n {
      assert n == 1 && m == 0 by {
        ReachedApart(base, p, snap, u, text, i, s, t, x, d, preP, preU);
        NextGroupCleared(p, u);
        if n + m != 1 { TouchedInChain(p, u, preU, n, m, k); }
      }
      AloneSurvives(base, p, snap, u, text, i, s, t, x, d, preP, preU, whole);
      assert whole.ShiftOld(d) in patch';
      MakeSurvives(base, snap, text, x, p[k], whole.ShiftOld(d), patch');
    } else {
      assert (preU + u[..m]) + u[m..] == preU + u;
      assert (preP + p[..n]) + p[n..] == preP + p;
      assert p[n..][k - n] == p[k];
      SurvivesFrom(base, p[n..], snap, u[m..], text, whole.oldRows.end, hi, whole.newRows.end, x, d',
                   preP + p[..n], preU + u[..m], k - n);
      StillSurvives(base, snap, text, x, p[k], Survivor(preP + p, preU + u, p[k]), rest', patch');
    }
  }

  lemma ReachedApart<T>(base: seq<T>, p: seq<Edit>, snap: seq<T>, u: seq<Edit>, text: seq<T>,
                        i: int, s: int, t: int, x: seq<T>, d: int, preP: seq<Edit>, preU: seq<Edit>)
    requires Reached(base, p, snap, u, text, i, s, t, x, d, preP, preU)
    ensures HunksApart(p) && EditsApart(u)
  {
  }

  lemma MakeSurvives<T>(base: seq<T>, snap: seq<T>, text: seq<T>, x: seq<T>, hunk: Edit, e: Edit, patch': seq<Edit>)
    requires e in patch' && Same(x, e.oldRows, base, hunk.oldRows) && Same(text, e.newRows, snap, hunk.newRows)
    ensures Survives(base, snap, text, x, hunk, e, patch')
  {
  }

  lemma StillSurvives<T>(base: seq<T>, snap: seq<T>, text: seq<T>, x: seq<T>, hunk: Edit, e: Edit,
                         q: seq<Edit>, patch': seq<Edit>)
    requires Survives(base, snap, text, x, hunk, e, q)
    requires forall f :: f in q ==> f in patch'
    ensures Survives(base, snap, text, x, hunk, e, patch')
  {
  }

  /** A hunk that no user edit is in the way of is still in the patch after the
      rebase, shifted on both sides and with the same old and new rows. */
  lemma UntouchedSurvives<T>(base: seq<T>, p: seq<Edit>, snap: seq<T>, u: seq<Edit>, text: seq<T>, k: nat)
    requires RebaseInput(base, p, snap, u, text)
    requires k < |p| && Untouched(p[k], u)
    ensures Fits(Applied(p, u), |base|, |text|, 0)
    ensures Survives(base, snap, text, RebasedBase(base, p, u, text), p[k], Survivor(p, u, p[k]), RebasedPatch(p, u))
  {
    hide *;
    RebaseDiamond(base, p, snap, u, text);
    ReachedStart(base, p, snap, u, text);
    assert [] + p == p && [] + u == u;
    SurvivesFrom(base, p, snap, u, text, 0, 0, 0, RebasedBase(base, p, u, text), 0, [], [], k);
    RebasedPatchIs(p, u);
  }

  lemma RebasedPatchIs(p: seq<Edit>, u: seq<Edit>)
    ensures RebasedPatch(p, u)
      == Remaining(Wholes(Compose(p, u, 0 - 0, 0 - 0)), UserOnly(Compose(p, u, 0 - 0, 0 - 0)), 0)
  {
  }

  lemma ReachedStart<T>(base: seq<T>, p: seq<Edit>, snap: seq<T>, u: seq<Edit>, text: seq<T>)
    requires RebaseInput(base, p, snap, u, text)
    requires Fits(Applied(p, u), |base|, |text|, 0)
    ensures Reached(base, p, snap, u, text, 0, 0, 0, RebasedBase(base, p, u, text), 0, [], [])
  {
    hide Compose, LinksFrom, Fits, Splice, Select, Remaining, Separated, HunksApart, EditsApart;
    InputApart(base, p, snap, u, text);
    var groups := Compose(p, u, 0, 0);
    ComposeLinks(base, p, snap, u, text, 0, 0, 0, Wholes(groups));
    LinksFits(base, Wholes(groups), text, 0, 0);
    assert p != [] ==> 0 <= p[0].newRows.start by { LinksBounds(base, p, snap, 0, 0); }
    assert [] + p == p;
    UserOnlyIsApplied([], p, snap, u, text, 0, 0, p, 0, 0);
  }
}
