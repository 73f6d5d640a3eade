/** When a user edit and an agent hunk are in each other's way, and how the hunks
    and edits of one rebase fall into groups: the connected components of that
    relation, in order. */
module Conflicts {
  import opened Patches

  /** The user edit lies in front of the agent hunk; both are ranges of the same
      snapshot.  Touching is allowed unless the hunk is a pure deletion. */
  predicate Before(edit: Edit, hunk: Edit) {
    || edit.oldRows.end < hunk.newRows.start
    || (!hunk.newRows.IsEmpty() && edit.oldRows.end == hunk.newRows.start)
  }

  /** The user edit lies behind the agent hunk. */
  predicate After(edit: Edit, hunk: Edit) {
    || edit.oldRows.start > hunk.newRows.end
    || (!hunk.newRows.IsEmpty() && edit.oldRows.start == hunk.newRows.end)
  }

  predicate Conflict(edit: Edit, hunk: Edit) {
    !Before(edit, hunk) && !After(edit, hunk)
  }

  /** What a conflict is, by rows: some row lies in both ranges, or the edit inserts
      strictly inside the hunk, or it touches the place where the hunk deleted rows. */
  ghost predicate Meets(edit: Edit, hunk: Edit) {
    || (exists row :: edit.oldRows.Has(row) && hunk.newRows.Has(row))
    || (edit.oldRows.IsEmpty() && hunk.newRows.start < edit.oldRows.start < hunk.newRows.end)
    || (hunk.newRows.IsEmpty() && edit.oldRows.start <= hunk.newRows.start <= edit.oldRows.end)
  }

  lemma ConflictIffMeets(edit: Edit, hunk: Edit)
    requires edit.oldRows.start <= edit.oldRows.end && hunk.newRows.start <= hunk.newRows.end
    ensures Conflict(edit, hunk) <==> Meets(edit, hunk)
  {
    var row := if edit.oldRows.start >= hunk.newRows.start then edit.oldRows.start else hunk.newRows.start;
    if Conflict(edit, hunk) && !edit.oldRows.IsEmpty() && !hunk.newRows.IsEmpty() {
      assert edit.oldRows.Has(row) && hunk.newRows.Has(row);
    }
  }

  /** The edit meets no hunk. */
  ghost predicate Unmet(edit: Edit, p: seq<Edit>) {
    forall k :: 0 <= k < |p| ==> !Meets(edit, p[k])
  }

  lemma FreeIffUnmet(edit: Edit, p: seq<Edit>)
    requires edit.oldRows.start <= edit.oldRows.end
    requires forall k :: 0 <= k < |p| ==> p[k].newRows.start <= p[k].newRows.end
    ensures Free(edit, p) <==> Unmet(edit, p)
  {
    hide Conflict, Meets;
    forall k | 0 <= k < |p| ensures Conflict(edit, p[k]) <==> Meets(edit, p[k]) {
      ConflictIffMeets(edit, p[k]);
    }
  }

  /** `RangeExt::overlaps`. */
  predicate Overlap(s: Span, t: Span) {
    s.start < t.end && t.start < s.end
  }

  /** Ranges are not inverted, and some row lies between any two edits, on the
      side that faces the shared snapshot. */
  ghost predicate HunksApart(p: seq<Edit>) {
    && (forall k :: 0 <= k < |p| ==> p[k].newRows.start <= p[k].newRows.end)
    && forall k, l :: 0 <= k < l < |p| ==> p[k].newRows.end < p[l].newRows.start
  }

  ghost predicate EditsApart(u: seq<Edit>) {
    && (forall k :: 0 <= k < |u| ==> u[k].oldRows.start <= u[k].oldRows.end)
    && forall k, l :: 0 <= k < l < |u| ==> u[k].oldRows.end < u[l].oldRows.start
  }

  /** No hunk is in the way of the edit. */
  predicate Free(edit: Edit, p: seq<Edit>) {
    forall k :: 0 <= k < |p| ==> !Conflict(edit, p[k])
  }

  /** No edit is in the way of the hunk. */
  predicate Untouched(hunk: Edit, u: seq<Edit>) {
    forall k :: 0 <= k < |u| ==> !Conflict(u[k], hunk)
  }

  predicate AllAfter(edit: Edit, p: seq<Edit>) {
    forall k :: 0 <= k < |p| ==> After(edit, p[k])
  }

  predicate AllBefore(edit: Edit, p: seq<Edit>) {
    forall k :: 0 <= k < |p| ==> Before(edit, p[k])
  }

  // ---- Groups ----------------------------------------------------------------

  /** How many hunks and edits belong to the cluster that starts with a conflict
      between the first of each. */
  function Cluster(p: seq<Edit>, u: seq<Edit>): (r: (nat, nat))
    requires p != [] && u != []
    ensures 1 <= r.0 <= |p| && 1 <= r.1 <= |u|
    decreases |p| + |u|
  {
    if |u| > 1 && Overlap(u[1].oldRows, p[0].newRows) then
      var (n, m) := Cluster(p, u[1..]); (n, m + 1)
    else if |p| > 1 && Conflict(u[0], p[1]) then
      var (n, m) := Cluster(p[1..], u); (n + 1, m)
    else (1, 1)
  }

  /** How many hunks and edits the next group takes. */
  function NextGroup(p: seq<Edit>, u: seq<Edit>): (r: (nat, nat))
    requires p != [] || u != []
    ensures r.0 <= |p| && r.1 <= |u| && r.0 + r.1 > 0
  {
    if p == [] || (u != [] && Before(u[0], p[0])) then (0, 1)
    else if u == [] || After(u[0], p[0]) then (1, 0)
    else Cluster(p, u)
  }

  /** A walk of conflicts through all hunks and all edits, each step going on to
      the next hunk or to the next edit: the group is connected. */
  predicate Chained(hunks: seq<Edit>, edits: seq<Edit>)
    decreases |hunks| + |edits|
  {
    && hunks != [] && edits != [] && Conflict(edits[0], hunks[0])
    && ((|hunks| == 1 && |edits| == 1)
        || (|edits| > 1 && Chained(hunks, edits[1..]))
        || (|hunks| > 1 && Chained(hunks[1..], edits)))
  }

  /** Every hunk and every edit of the group is in a conflict with the group. */
  ghost predicate AllMet(hunks: seq<Edit>, edits: seq<Edit>) {
    && (forall k :: 0 <= k < |edits| ==> !Free(edits[k], hunks))
    && (forall k :: 0 <= k < |hunks| ==> !Untouched(hunks[k], edits))
  }

  lemma MetFirst(hunks: seq<Edit>, edits: seq<Edit>)
    requires hunks != [] && edits != [] && Conflict(edits[0], hunks[0])
    ensures !Free(edits[0], hunks) && !Untouched(hunks[0], edits)
  {}

  lemma TouchedStays(hunk: Edit, edits: seq<Edit>)
    requires edits != [] && !Untouched(hunk, edits[1..])
    ensures !Untouched(hunk, edits)
  {
    hide Conflict;
    var l :| 0 <= l < |edits[1..]| && Conflict(edits[1..][l], hunk);
    assert Conflict(edits[l + 1], hunk);
  }

  lemma BlockedStays(edit: Edit, hunks: seq<Edit>)
    requires hunks != [] && !Free(edit, hunks[1..])
    ensures !Free(edit, hunks)
  {
    hide Conflict;
    var l :| 0 <= l < |hunks[1..]| && Conflict(edit, hunks[1..][l]);
    assert Conflict(edit, hunks[l + 1]);
  }

  lemma MetMoreEdits(hunks: seq<Edit>, edits: seq<Edit>)
    requires edits != [] && !Free(edits[0], hunks) && AllMet(hunks, edits[1..])
    ensures AllMet(hunks, edits)
  {
    hide Free, Untouched;
    forall k | 0 <= k < |hunks| ensures !Untouched(hunks[k], edits) { TouchedStays(hunks[k], edits); }
    forall k | 1 <= k < |edits| ensures !Free(edits[k], hunks) { assert edits[k] == edits[1..][k - 1]; }
  }

  lemma MetMoreHunks(hunks: seq<Edit>, edits: seq<Edit>)
    requires hunks != [] && !Untouched(hunks[0], edits) && AllMet(hunks[1..], edits)
    ensures AllMet(hunks, edits)
  {
    hide Free, Untouched;
    forall k | 0 <= k < |edits| ensures !Free(edits[k], hunks) { BlockedStays(edits[k], hunks); }
    forall k | 1 <= k < |hunks| ensures !Untouched(hunks[k], edits) { assert hunks[k] == hunks[1..][k - 1]; }
  }

  lemma {:induction false} ChainedConflicts(hunks: seq<Edit>, edits: seq<Edit>)
    requires Chained(hunks, edits)
    ensures AllMet(hunks, edits)
    decreases |hunks| + |edits|
  {
    hide Conflict, Free, Untouched;
    MetFirst(hunks, edits);
    if |edits| > 1 && Chained(hunks, edits[1..]) {
      hide AllMet;
      ChainedConflicts(hunks, edits[1..]);
      MetMoreEdits(hunks, edits);
    } else if |hunks| > 1 && Chained(hunks[1..], edits) {
      hide AllMet;
      ChainedConflicts(hunks[1..], edits);
      MetMoreHunks(hunks, edits);
    }
  }

  /** Nothing of the first group is in the way of anything behind it. */
  ghost predicate Cleared(p: seq<Edit>, u: seq<Edit>, n: nat, m: nat) {
    && n <= |p| && m <= |u|
    && (forall k, l :: 0 <= k < n && m <= l < |u| ==> After(u[l], p[k]))
    && (forall k, l :: n <= k < |p| && 0 <= l < m ==> Before(u[l], p[k]))
  }

  lemma {:induction false} ClusterCleared(p: seq<Edit>, u: seq<Edit>)
    requires HunksApart(p) && EditsApart(u)
    requires p != [] && u != [] && Conflict(u[0], p[0])
    ensures Cleared(p, u, Cluster(p, u).0, Cluster(p, u).1)
    ensures Chained(p[..Cluster(p, u).0], u[..Cluster(p, u).1])
    decreases |p| + |u|
  {
    var (n, m) := Cluster(p, u);
    if |u| > 1 && Overlap(u[1].oldRows, p[0].newRows) {
      var v := u[1..];
      ClusterCleared(p, v);
      assert Cluster(p, v) == (n, m - 1);
      assert u[..m][1..] == v[..m - 1];
      forall k, l | 0 <= k < n && m <= l < |u| ensures After(u[l], p[k]) {
        assert u[l] == v[l - 1];
      }
      forall k, l | n <= k < |p| && 0 <= l < m ensures Before(u[l], p[k]) {
        if l > 0 { assert u[l] == v[l - 1]; }
      }
    } else if |p| > 1 && Conflict(u[0], p[1]) {
      var q := p[1..];
      ClusterCleared(q, u);
      assert Cluster(q, u) == (n - 1, m);
      assert p[..n][1..] == q[..n - 1];
      forall k, l | 0 <= k < n && m <= l < |u| ensures After(u[l], p[k]) {
        if k > 0 { assert p[k] == q[k - 1]; }
      }
      forall k, l | n <= k < |p| && 0 <= l < m ensures Before(u[l], p[k]) {
        assert p[k] == q[k - 1];
      }
    }
  }

  /** Every group is a hunk alone, an edit alone, or a chain of conflicts, and no
      conflict crosses from one group to the next. */
  lemma NextGroupCleared(p: seq<Edit>, u: seq<Edit>)
    requires HunksApart(p) && EditsApart(u) && (p != [] || u != [])
    ensures var (n, m) := NextGroup(p, u);
            && Cleared(p, u, n, m)
            && (n + m == 1 || Chained(p[..n], u[..m]))
  {
    if p != [] && u != [] && Conflict(u[0], p[0]) {
      ClusterCleared(p, u);
    }
  }
}
