/** Rebasing user edits into the base text past the agent's hunks.  The agent's
    patch leads from the base to the snapshot, the user's edits lead from the
    snapshot to the new snapshot.  Composed group by group they lead from the base
    to the new snapshot; applying the edits that no hunk is in the way of is
    accepting, in that composition, the groups that consist of one edit alone. */
module Rebase {
  import opened Patches
  import opened Conflicts

  // ---- What is applied to the base -------------------------------------------

  /** How much the hunks in front of the edit have grown the text. */
  function GrowthBefore(p: seq<Edit>, edit: Edit): int {
    if p == [] then 0
    else (if After(edit, p[0]) then p[0].Growth() else 0) + GrowthBefore(p[1..], edit)
  }

  /** The edit, at the rows of the base that it replaces. */
  function InBase(p: seq<Edit>, edit: Edit): Edit {
    edit.ShiftOld(-GrowthBefore(p, edit))
  }

  /** The edits that no hunk of the whole patch is in the way of, in the base. */
  function Applied(p: seq<Edit>, u: seq<Edit>): seq<Edit> {
    if u == [] then []
    else (if Free(u[0], p) then [InBase(p, u[0])] else []) + Applied(p, u[1..])
  }

  /** The base after a rebase: all those edits replaced at once. */
  function RebasedBase<T>(base: seq<T>, p: seq<Edit>, u: seq<Edit>, text: seq<T>): seq<T>
    requires Fits(Applied(p, u), |base|, |text|, 0)
  {
    Splice(base, Applied(p, u), text, 0)
  }

  lemma AppliedCons(p: seq<Edit>, u: seq<Edit>)
    requires u != []
    ensures Applied(p, u) == (if Free(u[0], p) then [InBase(p, u[0])] else []) + Applied(p, u[1..])
  {}

  lemma AppliedNothing(p: seq<Edit>)
    ensures Applied(p, []) == []
  {}

  lemma {:induction false} AppliedAppend(p: seq<Edit>, u: seq<Edit>, v: seq<Edit>)
    ensures Applied(p, u + v) == Applied(p, u) + Applied(p, v)
  {
    hide *;
    if u == [] {
      assert u + v == v;
      AppliedNothing(p);
    } else {
      assert (u + v)[1..] == u[1..] + v && (u + v)[0] == u[0];
      AppliedAppend(p, u[1..], v);
      AppliedCons(p, u);
      AppliedCons(p, u + v);
    }
  }

  // ---- The composed patch ----------------------------------------------------

  /** One connected component of hunks and edits, with the rows of the base and
      the rows of the new snapshot that it spans. */
  datatype Group = Group(hunks: seq<Edit>, edits: seq<Edit>, whole: Edit)

  function Min(x: int, y: int): int { if x <= y then x else y }
  function Max(x: int, y: int): int { if x >= y then x else y }

  /** The first and the last snapshot row of a group. */
  function Lo(hunks: seq<Edit>, edits: seq<Edit>): int
    requires hunks != [] || edits != []
  {
    if edits == [] then hunks[0].newRows.start
    else if hunks == [] then edits[0].oldRows.start
    else Min(hunks[0].newRows.start, edits[0].oldRows.start)
  }

  function Hi(hunks: seq<Edit>, edits: seq<Edit>): int
    requires hunks != [] || edits != []
  {
    if edits == [] then hunks[|hunks| - 1].newRows.end
    else if hunks == [] then edits[|edits| - 1].oldRows.end
    else Max(hunks[|hunks| - 1].newRows.end, edits[|edits| - 1].oldRows.end)
  }

  /** The rows a group spans in the base and in the new snapshot, where everything
      in front of it has grown by `g` from base to snapshot and by `h` from
      snapshot to new snapshot. */
  function Whole(hunks: seq<Edit>, edits: seq<Edit>, g: int, h: int): Edit
    requires hunks != [] || edits != []
  {
    var lo, hi := Lo(hunks, edits), Hi(hunks, edits);
    Edit(Span(lo - g, hi - g - Growth(hunks)), Span(lo + h, hi + h + Growth(edits)))
  }

  function Compose(p: seq<Edit>, u: seq<Edit>, g: int, h: int): seq<Group>
    decreases |p| + |u|
  {
    if p == [] && u == [] then []
    else
      var (n, m) := NextGroup(p, u);
      [Group(p[..n], u[..m], Whole(p[..n], u[..m], g, h))]
      + Compose(p[n..], u[m..], g + Growth(p[..n]), h + Growth(u[..m]))
  }

  /** The composed patch, from the base to the new snapshot. */
  function Wholes(groups: seq<Group>): (r: seq<Edit>)
    ensures |r| == |groups|
  {
    if groups == [] then [] else [groups[0].whole] + Wholes(groups[1..])
  }

  /** Which groups are one user edit alone. */
  function UserOnly(groups: seq<Group>): (r: seq<bool>)
    ensures |r| == |groups|
  {
    if groups == [] then [] else [groups[0].hunks == []] + UserOnly(groups[1..])
  }

  /** The agent's patch after a rebase. */
  function RebasedPatch(p: seq<Edit>, u: seq<Edit>): seq<Edit> {
    var groups := Compose(p, u, 0, 0);
    Remaining(Wholes(groups), UserOnly(groups), 0)
  }

  // ---- Groups against the texts ----------------------------------------------

  /** Leaving out the first `n` edits of a patch. */
  lemma {:induction false} LinksSkip<T>(a: seq<T>, p: seq<Edit>, b: seq<T>, i: int, j: int, n: nat)
    requires LinksFrom(a, p, b, i, j) && n <= |p|
    ensures var i' := if n == 0 then i else p[n - 1].oldRows.end;
            var j' := if n == 0 then j else p[n - 1].newRows.end;
            && LinksFrom(a, p[n..], b, i', j')
            && j' - i' == j - i + Growth(p[..n])
            && i <= i' && j <= j'
            && (n > 0 ==> p[0].oldRows.start <= i' && p[0].newRows.start <= j')
    decreases n
  {
    if n > 0 {
      var e := p[0];
      assert |a[i..e.oldRows.start]| == |b[j..e.newRows.start]|;
      LinksSkip(a, p[1..], b, e.oldRows.end, e.newRows.end, n - 1);
      assert p[1..][n - 1..] == p[n..];
      assert p[..n][1..] == p[1..][..n - 1];
      if n > 1 { assert p[1..][n - 2] == p[n - 1]; }
    } else {
      assert p[0..] == p;
    }
  }

  /** Where the next group lies in the snapshot, read from row `s` on. */
  lemma GroupBounds(p: seq<Edit>, u: seq<Edit>, s: int)
    requires HunksApart(p) && EditsApart(u) && (p != [] || u != [])
    requires p != [] ==> s <= p[0].newRows.start
    requires u != [] ==> s <= u[0].oldRows.start
    ensures
      var (n, m) := NextGroup(p, u);
      var lo, hi := Lo(p[..n], u[..m]), Hi(p[..n], u[..m]);
      && s <= lo <= hi
      && (p != [] ==> lo <= p[0].newRows.start) && (u != [] ==> lo <= u[0].oldRows.start)
      && (n < |p| ==> hi <= p[n].newRows.start) && (m < |u| ==> hi <= u[m].oldRows.start)
      && (n > 0 ==> p[n - 1].newRows.end <= hi) && (m > 0 ==> u[m - 1].oldRows.end <= hi)
  {
    NextGroupCleared(p, u);
    var (n, m) := NextGroup(p, u);
    if n < |p| && m > 0 { assert Before(u[m - 1], p[n]); }
    if m < |u| && n > 0 { assert After(u[m], p[n - 1]); }
  }

  /** The patch is linked again behind the next group: it reaches snapshot row `hi`. */
  lemma LinksBehind<T>(a: seq<T>, p: seq<Edit>, b: seq<T>, i: int, j: int, n: nat, hi: int)
    requires LinksFrom(a, p, b, i, j) && n <= |p|
    requires j <= hi <= |b|
    requires n > 0 ==> p[n - 1].newRows.end <= hi
    requires n < |p| ==> hi <= p[n].newRows.start
    ensures LinksFrom(a, p[n..], b, hi - (j - i) - Growth(p[..n]), hi)
    ensures n > 0 ==> p[0].newRows.start - (j - i) <= hi - (j - i) - Growth(p[..n])
  {
    LinksSkip(a, p, b, i, j, n);
    var i' := if n == 0 then i else p[n - 1].oldRows.end;
    var j' := if n == 0 then j else p[n - 1].newRows.end;
    if n < |p| {
      assert |a[i'..p[n].oldRows.start]| == |b[j'..p[n].newRows.start]|;
    } else {
      assert |a[i'..]| == |b[j'..]|;
    }
    LinksAdvance(a, p[n..], b, i', j', hi - j');
    if n > 0 { assert |a[i..p[0].oldRows.start]| == |b[j..p[0].newRows.start]|; }
  }

  /** The same for a patch whose old side is the snapshot. */
  lemma EditsBehind<T>(a: seq<T>, u: seq<Edit>, b: seq<T>, i: int, j: int, m: nat, hi: int)
    requires LinksFrom(a, u, b, i, j) && m <= |u|
    requires i <= hi <= |a|
    requires m > 0 ==> u[m - 1].oldRows.end <= hi
    requires m < |u| ==> hi <= u[m].oldRows.start
    ensures LinksFrom(a, u[m..], b, hi, hi + (j - i) + Growth(u[..m]))
    ensures m > 0 ==> u[0].oldRows.start + (j - i) <= hi + (j - i) + Growth(u[..m])
  {
    LinksSkip(a, u, b, i, j, m);
    var i' := if m == 0 then i else u[m - 1].oldRows.end;
    var j' := if m == 0 then j else u[m - 1].newRows.end;
    LinksAdvance(a, u[m..], b, i', j', hi - i');
    if m > 0 { assert |a[i..u[0].oldRows.start]| == |b[j..u[0].newRows.start]|; }
  }

  /** In front of the first group all three texts have the same rows. */
  lemma GapEqual<T>(base: seq<T>, p: seq<Edit>, snap: seq<T>, u: seq<Edit>, text: seq<T>,
                    i: int, s: int, t: int, d: nat)
    requires LinksFrom(base, p, snap, i, s) && LinksFrom(snap, u, text, s, t)
    requires p != [] ==> s + d <= p[0].newRows.start
    requires u != [] ==> s + d <= u[0].oldRows.start
    requires s + d <= |snap|
    ensures i + d <= |base| && t + d <= |text|
    ensures base[i..i + d] == snap[s..s + d] == text[t..t + d]
  {
    if p == [] {
      assert |base[i..]| == |snap[s..]|;
    } else {
      assert |base[i..p[0].oldRows.start]| == |snap[s..p[0].newRows.start]|;
    }
    LinksAdvance(base, p, snap, i, s, d);
    LinksAdvance(snap, u, text, s, t, d);
  }

  lemma GroupInside<T>(base: seq<T>, p: seq<Edit>, snap: seq<T>, u: seq<Edit>, text: seq<T>,
                       i: int, s: int, t: int, n: nat, m: nat)
    requires LinksFrom(base, p, snap, i, s) && LinksFrom(snap, u, text, s, t)
    requires n <= |p| && m <= |u| && n + m > 0
    ensures Hi(p[..n], u[..m]) <= |snap|
  {
    LinksBounds(base, p, snap, i, s);
    LinksBounds(snap, u, text, s, t);
  }

  /** The first group spans rows of the base and of the new snapshot that lie
      behind equal gaps. */
  lemma GroupGap<T>(base: seq<T>, p: seq<Edit>, snap: seq<T>, u: seq<Edit>, text: seq<T>,
                    i: int, s: int, t: int, n: nat, m: nat, whole: Edit)
    requires LinksFrom(base, p, snap, i, s) && LinksFrom(snap, u, text, s, t)
    requires HunksApart(p) && EditsApart(u) && (p != [] || u != [])
    requires (n, m) == NextGroup(p, u) && whole == Whole(p[..n], u[..m], s - i, t - s)
    ensures i <= whole.oldRows.start <= |base| && t <= whole.newRows.start <= |text|
    ensures base[i..whole.oldRows.start] == text[t..whole.newRows.start]
  {
    hide HunksApart, EditsApart, NextGroup;
    var lo := Lo(p[..n], u[..m]);
    GroupBounds(p, u, s);
    GroupInside(base, p, snap, u, text, i, s, t, n, m);
    assert i + (lo - s) == whole.oldRows.start && t + (lo - s) == whole.newRows.start;
    GapEqual(base, p, snap, u, text, i, s, t, lo - s);
  }

  /** Behind the first group both patches are linked again. */
  lemma GroupBehind<T>(base: seq<T>, p: seq<Edit>, snap: seq<T>, u: seq<Edit>, text: seq<T>,
                       i: int, s: int, t: int, n: nat, m: nat, hi: int, whole: Edit)
    requires LinksFrom(base, p, snap, i, s) && LinksFrom(snap, u, text, s, t)
    requires HunksApart(p) && EditsApart(u) && (p != [] || u != [])
    requires (n, m) == NextGroup(p, u) && whole == Whole(p[..n], u[..m], s - i, t - s)
    requires hi == Hi(p[..n], u[..m])
    ensures whole.oldRows.start <= whole.oldRows.end && whole.newRows.start <= whole.newRows.end
    ensures LinksFrom(base, p[n..], snap, whole.oldRows.end, hi)
    ensures LinksFrom(snap, u[m..], text, hi, whole.newRows.end)
  {
    hide *;
    LinksInside(base, p, snap, i, s);
    LinksInside(snap, u, text, s, t);
    GroupBounds(p, u, s);
    GroupInside(base, p, snap, u, text, i, s, t, n, m);
    WholeEnds(p[..n], u[..m], s - i, t - s);
    var i', t' := hi - (s - i) - Growth(p[..n]), hi + (t - s) + Growth(u[..m]);
    LinksBehind(base, p, snap, i, s, n, hi);
    EditsBehind(snap, u, text, s, t, m, hi);
    WholeOrdered(p[..n], u[..m], s - i, t - s);
  }

  lemma WholeOrdered(hunks: seq<Edit>, edits: seq<Edit>, g: int, h: int)
    requires hunks != [] || edits != []
    requires Lo(hunks, edits) <= Hi(hunks, edits)
    requires hunks != [] ==> hunks[0].newRows.start <= Hi(hunks, edits) - Growth(hunks)
    requires edits != [] ==> edits[0].oldRows.start <= Hi(hunks, edits) + Growth(edits)
    ensures Whole(hunks, edits, g, h).oldRows.start <= Whole(hunks, edits, g, h).oldRows.end
    ensures Whole(hunks, edits, g, h).newRows.start <= Whole(hunks, edits, g, h).newRows.end
  {}

  /** The composed patch leads from the base to the new snapshot: the outer side of
      the diamond.  Read behind base row `i`, snapshot row `s`, new row `t`. */
  lemma {:induction false} ComposeLinks<T>(base: seq<T>, p: seq<Edit>, snap: seq<T>, u: seq<Edit>, text: seq<T>,
                                           i: int, s: int, t: int, composed: seq<Edit>)
    requires LinksFrom(base, p, snap, i, s) && LinksFrom(snap, u, text, s, t)
    requires HunksApart(p) && EditsApart(u)
    requires composed == Wholes(Compose(p, u, s - i, t - s))
    ensures LinksFrom(base, composed, text, i, t)
    decreases |p| + |u|
  {
    hide *;
    if p == [] && u == [] {
      ComposeNothing(base, snap, text, i, s, t);
    } else {
      var n, m, hi, whole, rest := ComposeFirst(p, u, s - i, t - s);
      GroupGap(base, p, snap, u, text, i, s, t, n, m, whole);
      GroupBehind(base, p, snap, u, text, i, s, t, n, m, hi, whole);
      ApartRest(p, u, n, m);
      ComposeLinks(base, p[n..], snap, u[m..], text, whole.oldRows.end, hi, whole.newRows.end, Wholes(rest));
      LinksInside(base, p[n..], snap, whole.oldRows.end, hi);
      LinksInside(snap, u[m..], text, hi, whole.newRows.end);
      LinksInside(base, p, snap, i, s);
      LinksInside(snap, u, text, s, t);
      LinksCons(base, whole, Wholes(rest), text, i, t);
    }
  }

  lemma LinksInside<T>(a: seq<T>, p: seq<Edit>, b: seq<T>, i: int, j: int)
    requires LinksFrom(a, p, b, i, j)
    ensures 0 <= i <= |a| && 0 <= j <= |b|
    ensures p != [] ==> i <= p[0].oldRows.start && j <= p[0].newRows.start
  {
  }

  lemma ComposeNothing<T>(base: seq<T>, snap: seq<T>, text: seq<T>, i: int, s: int, t: int)
    requires LinksFrom(base, [], snap, i, s) && LinksFrom(snap, [], text, s, t)
    ensures LinksFrom(base, Wholes(Compose([], [], s - i, t - s)), text, i, t)
  {
  }

  lemma ApartRest(p: seq<Edit>, u: seq<Edit>, n: nat, m: nat)
    requires HunksApart(p) && EditsApart(u) && n <= |p| && m <= |u|
    ensures HunksApart(p[n..]) && EditsApart(u[m..])
  {
  }

  /** The composed patch taken apart into its first group and the groups behind it. */
  lemma ComposeFirst(p: seq<Edit>, u: seq<Edit>, g: int, h: int)
    returns (n: nat, m: nat, hi: int, whole: Edit, rest: seq<Group>)
    requires p != [] || u != []
    ensures n <= |p| && m <= |u| && n + m > 0 && (n, m) == NextGroup(p, u)
    ensures hi == Hi(p[..n], u[..m]) && whole == Whole(p[..n], u[..m], g, h)
    ensures rest == Compose(p[n..], u[m..], hi - whole.oldRows.end, whole.newRows.end - hi)
    ensures hi - whole.oldRows.end == g + Growth(p[..n]) && whole.newRows.end - hi == h + Growth(u[..m])
    ensures Wholes(Compose(p, u, g, h)) == [whole] + Wholes(rest)
    ensures UserOnly(Compose(p, u, g, h)) == [n == 0] + UserOnly(rest)
  {
    hide *;
    n, m := NextGroup(p, u).0, NextGroup(p, u).1;
    hi, whole := Hi(p[..n], u[..m]), Whole(p[..n], u[..m], g, h);
    WholeEnds(p[..n], u[..m], g, h);
    rest := Compose(p[n..], u[m..], g + Growth(p[..n]), h + Growth(u[..m]));
    ComposeUnfolds(p, u, g, h, n, m);
    WholesCons(Group(p[..n], u[..m], whole), rest);
    assert p[..n] == [] <==> n == 0;
  }

  lemma WholeEnds(hunks: seq<Edit>, edits: seq<Edit>, g: int, h: int)
    requires hunks != [] || edits != []
    ensures Hi(hunks, edits) - Whole(hunks, edits, g, h).oldRows.end == g + Growth(hunks)
    ensures Whole(hunks, edits, g, h).newRows.end - Hi(hunks, edits) == h + Growth(edits)
  {}

  lemma ComposeUnfolds(p: seq<Edit>, u: seq<Edit>, g: int, h: int, n: nat, m: nat)
    requires (p != [] || u != []) && (n, m) == NextGroup(p, u)
    ensures Compose(p, u, g, h) ==
      [Group(p[..n], u[..m], Whole(p[..n], u[..m], g, h))]
      + Compose(p[n..], u[m..], g + Growth(p[..n]), h + Growth(u[..m]))
  {
    hide Whole, NextGroup, Growth;
  }

  lemma WholesCons(first: Group, rest: seq<Group>)
    ensures Wholes([first] + rest) == [first.whole] + Wholes(rest)
    ensures UserOnly([first] + rest) == [first.hunks == []] + UserOnly(rest)
  {
    assert ([first] + rest)[1..] == rest;
  }
}
