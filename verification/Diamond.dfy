/** The rebase diamond: the base with the free user edits applied is linked to the
    new snapshot by the rebased patch, in which every untouched hunk survives,
    only shifted, and every cluster of conflicts has become one hunk. */
module Diamond {
  import opened Patches
  import opened Conflicts
  import opened Rebase

  // ---- The edits of user-only groups are the applied ones ---------------------

  lemma {:induction false} GrowthBeforeAppend(p: seq<Edit>, q: seq<Edit>, v: Edit)
    ensures GrowthBefore(p + q, v) == GrowthBefore(p, v) + GrowthBefore(q, v)
  {
    if p == [] {
      assert p + q == q;
    } else {
      assert (p + q)[1..] == p[1..] + q;
      GrowthBeforeAppend(p[1..], q, v);
    }
  }

  lemma {:induction false} GrowthBeforeAll(p: seq<Edit>, v: Edit)
    requires AllAfter(v, p)
    ensures GrowthBefore(p, v) == Growth(p)
  {
    if p != [] {
      assert After(v, p[0]);
      assert forall k :: 0 <= k < |p[1..]| ==> p[1..][k] == p[k + 1];
      GrowthBeforeAll(p[1..], v);
    }
  }

  lemma {:induction false} GrowthBeforeNone(p: seq<Edit>, v: Edit)
    requires AllBefore(v, p)
    requires v.oldRows.start <= v.oldRows.end
    requires forall k :: 0 <= k < |p| ==> p[k].newRows.start <= p[k].newRows.end
    ensures GrowthBefore(p, v) == 0
  {
    if p != [] {
      assert Before(v, p[0]) && !After(v, p[0]);
      assert forall k :: 0 <= k < |p[1..]| ==> p[1..][k] == p[k + 1];
      GrowthBeforeNone(p[1..], v);
    }
  }

  /** An edit between the hunks `pre` and the hunks `p` is free and lies behind
      the growth of `pre`. */
  lemma BetweenIsFree(pre: seq<Edit>, p: seq<Edit>, v: Edit)
    requires AllAfter(v, pre) && AllBefore(v, p)
    requires v.oldRows.start <= v.oldRows.end
    requires forall k :: 0 <= k < |p| ==> p[k].newRows.start <= p[k].newRows.end
    ensures Free(v, pre + p) && GrowthBefore(pre + p, v) == Growth(pre)
  {
    GrowthBeforeAppend(pre, p, v);
    GrowthBeforeAll(pre, v);
    GrowthBeforeNone(p, v);
    forall k | 0 <= k < |pre + p| ensures !Conflict(v, (pre + p)[k]) {
      if k >= |pre| { assert Before(v, p[k - |pre|]); } else { assert After(v, pre[k]); }
    }
  }

  lemma {:induction false} NoneApplied(p: seq<Edit>, u: seq<Edit>)
    requires forall k :: 0 <= k < |u| ==> !Free(u[k], p)
    ensures Applied(p, u) == []
  {
    if u != [] {
      assert !Free(u[0], p);
      assert forall k :: 0 <= k < |u[1..]| ==> u[1..][k] == u[k + 1];
      NoneApplied(p, u[1..]);
    }
  }

  lemma ClusterNotApplied(pre: seq<Edit>, p: seq<Edit>, u: seq<Edit>, n: nat, m: nat)
    requires n <= |p| && m <= |u| && Chained(p[..n], u[..m])
    ensures Applied(pre + p, u[..m]) == []
  {
    ChainedConflicts(p[..n], u[..m]);
    forall k | 0 <= k < m ensures !Free(u[..m][k], pre + p) {
      var l :| 0 <= l < n && Conflict(u[..m][k], p[..n][l]);
      assert (pre + p)[|pre| + l] == p[..n][l];
    }
    NoneApplied(pre + p, u[..m]);
  }

  ghost predicate Behind(u: seq<Edit>, pre: seq<Edit>) {
    forall l :: 0 <= l < |u| ==> AllAfter(u[l], pre)
  }

  lemma AppliedSplit(p: seq<Edit>, u: seq<Edit>, m: nat)
    requires m <= |u|
    ensures Applied(p, u) == Applied(p, u[..m]) + Applied(p, u[m..])
  {
    assert u == u[..m] + u[m..];
    AppliedAppend(p, u[..m], u[m..]);
  }

  /** What the first group contributes to the applied edits. */
  lemma AppliedFirst<T>(pre: seq<Edit>, p: seq<Edit>, snap: seq<T>, u: seq<Edit>, text: seq<T>,
                        s: int, t: int, n: nat, m: nat)
    requires LinksFrom(snap, u, text, s, t)
    requires HunksApart(p) && EditsApart(u) && (p != [] || u != []) && (n, m) == NextGroup(p, u)
    requires Behind(u, pre)
    ensures Applied(pre + p, u[..m])
            == if n == 0 then [Whole([], u[..m], Growth(pre), t - s)] else []
  {
    NextGroupCleared(p, u);
    if n == 0 {
      assert AllBefore(u[0], p);
      assert AllAfter(u[0], pre);
      BetweenIsFree(pre, p, u[0]);
      assert |snap[s..u[0].oldRows.start]| == |text[t..u[0].newRows.start]|;
      assert u[..m] == [u[0]] && u[..m][1..] == [];
      assert Applied(pre + p, []) == [];
      assert Growth([u[0]]) == u[0].Growth() + Growth([u[0]][1..]);
      assert Whole([], u[..m], Growth(pre), t - s) == InBase(pre + p, u[0]);
    } else if m > 0 {
      ClusterNotApplied(pre, p, u, n, m);
    } else {
      assert u[..m] == [];
    }
  }

  /** Behind the next group: the edits left lie behind all hunks that are done, and
      are linked from the end of the group on. */
  lemma AppliedRest<T>(pre: seq<Edit>, p: seq<Edit>, snap: seq<T>, u: seq<Edit>, text: seq<T>,
                       s: int, t: int, n: nat, m: nat, hi: int)
    requires LinksFrom(snap, u, text, s, t)
    requires HunksApart(p) && EditsApart(u) && (p != [] || u != []) && (n, m) == NextGroup(p, u)
    requires p != [] ==> s <= p[0].newRows.start
    requires Behind(u, pre) && hi == Hi(p[..n], u[..m])
    requires forall k :: 0 <= k < |p| ==> p[k].newRows.end <= |snap|
    ensures LinksFrom(snap, u[m..], text, hi, hi + (t - s) + Growth(u[..m]))
    ensures Behind(u[m..], pre + p[..n])
    ensures n < |p| ==> hi <= p[n].newRows.start
  {
    NextGroupCleared(p, u);
    GroupBounds(p, u, s);
    assert LinksFrom(snap, u[m..], text, hi, hi + (t - s) + Growth(u[..m])) by {
      LinksBounds(snap, u, text, s, t);
      EditsBehind(snap, u, text, s, t, m, hi);
    }
    BehindNext(pre, p, u, n, m);
  }

  lemma BehindNext(pre: seq<Edit>, p: seq<Edit>, u: seq<Edit>, n: nat, m: nat)
    requires Behind(u, pre) && Cleared(p, u, n, m)
    ensures Behind(u[m..], pre + p[..n])
  {}

  lemma SelectFirst(p: seq<Edit>, u: seq<Edit>, g: int, h: int, n: nat, m: nat)
    requires (p != [] || u != []) && (n, m) == NextGroup(p, u)
    ensures var groups := Compose(p, u, g, h);
            var rest := Compose(p[n..], u[m..], g + Growth(p[..n]), h + Growth(u[..m]));
            Select(Wholes(groups), UserOnly(groups))
            == (if n == 0 then [Whole([], u[..m], g, h)] else []) + Select(Wholes(rest), UserOnly(rest))
  {}

  /** The user-only groups of the composed patch, as a patch of the base, are the
      free edits at their places in the base. */
  lemma {:induction false} UserOnlyIsApplied<T>(pre: seq<Edit>, p: seq<Edit>, snap: seq<T>, u: seq<Edit>, text: seq<T>,
                                                s: int, t: int, all: seq<Edit>, g: int, h: int)
    requires LinksFrom(snap, u, text, s, t)
    requires HunksApart(p) && EditsApart(u) && Behind(u, pre)
    requires p != [] ==> s <= p[0].newRows.start
    requires forall k :: 0 <= k < |p| ==> p[k].newRows.end <= |snap|
    requires all == pre + p && g == Growth(pre) && h == t - s
    ensures Select(Wholes(Compose(p, u, g, h)), UserOnly(Compose(p, u, g, h))) == Applied(all, u)
    decreases |p| + |u|
  {
    hide *;
    if p == [] && u == [] {
      NothingApplied(all, g, h);
    } else {
      var (n, m) := NextGroup(p, u);
      var hi := Hi(p[..n], u[..m]);
      var g', h' := g + Growth(p[..n]), h + Growth(u[..m]);
      var groups, rest := Compose(p, u, g, h), Compose(p[n..], u[m..], g', h');
      var first := if n == 0 then [Whole([], u[..m], g, h)] else [];
      assert Applied(all, u[..m]) == first by {
        AppliedFirst(pre, p, snap, u, text, s, t, n, m);
      }
      assert Select(Wholes(rest), UserOnly(rest)) == Applied(all, u[m..]) by {
        AppliedRest(pre, p, snap, u, text, s, t, n, m, hi);
        ApartRest(p, u, n, m);
        GrowthAppend(pre, p[..n]);
        assert all == (pre + p[..n]) + p[n..];
        UserOnlyIsApplied(pre + p[..n], p[n..], snap, u[m..], text, hi, hi + h', all, g', h');
      }
      assert Select(Wholes(groups), UserOnly(groups)) == first + Select(Wholes(rest), UserOnly(rest)) by {
        SelectFirst(p, u, g, h, n, m);
      }
      AppliedSplit(all, u, m);
    }
  }

  lemma NothingApplied(p: seq<Edit>, g: int, h: int)
    ensures Select(Wholes(Compose([], [], g, h)), UserOnly(Compose([], [], g, h))) == Applied(p, [])
  {
  }

  // ---- The diamond -----------------------------------------------------------

  /** What a rebase is given: the agent's patch and the user's edits, each leading
      where it should, and each keeping some row between any two of its edits. */
  ghost predicate RebaseInput<T>(base: seq<T>, p: seq<Edit>, snap: seq<T>, u: seq<Edit>, text: seq<T>) {
    && Links(base, p, snap) && Links(snap, u, text)
    && Separated(p) && Separated(u)
  }

  lemma InputApart<T>(base: seq<T>, p: seq<Edit>, snap: seq<T>, u: seq<Edit>, text: seq<T>)
    requires RebaseInput(base, p, snap, u, text)
    ensures HunksApart(p) && EditsApart(u)
    ensures forall k :: 0 <= k < |p| ==> p[k].newRows.end <= |snap|
  {
    LinksBounds(base, p, snap, 0, 0);
    LinksBounds(snap, u, text, 0, 0);
  }

  /** The diamond closes: the base with the free edits applied is again linked to
      the new snapshot, by an ordered patch whose edits do not overlap. */
  lemma RebaseDiamond<T>(base: seq<T>, p: seq<Edit>, snap: seq<T>, u: seq<Edit>, text: seq<T>)
    requires RebaseInput(base, p, snap, u, text)
    ensures Fits(Applied(p, u), |base|, |text|, 0)
    ensures Links(RebasedBase(base, p, u, text), RebasedPatch(p, u), text)
  {
    hide Applied, Compose, Select, Remaining, Splice, Separated, HunksApart, EditsApart, LinksFrom, Fits;
    InputApart(base, p, snap, u, text);
    var groups := Compose(p, u, 0, 0);
    assert p != [] ==> 0 <= p[0].newRows.start by { LinksBounds(base, p, snap, 0, 0); }
    assert [] + p == p;
    ComposeLinks(base, p, snap, u, text, 0, 0, 0, Wholes(groups));
    UserOnlyIsApplied([], p, snap, u, text, 0, 0, p, 0, 0);
    AcceptLinks(base, Wholes(groups), text, UserOnly(groups));
  }
}
