/** Lists kept minimal under a covering relation: what `insert_granted_subtree` does for
    directory subtrees and `insert_host_pattern` for host patterns.  The list is always
    an antichain, covers exactly what was inserted, and up to equivalent elements does
    not depend on the order of insertion. */
module MinimalSets {

  type Covering<!T> = (T, T) -> bool

  ghost predicate Preorder<T(!new)>(covers: Covering<T>) {
    && (forall x :: covers(x, x))
    && (forall x, y, z :: covers(x, y) && covers(y, z) ==> covers(x, z))
  }

  predicate CoveredBy<T>(covers: Covering<T>, s: seq<T>, x: T) {
    exists k :: 0 <= k < |s| && covers(s[k], x)
  }

  predicate Antichain<T>(covers: Covering<T>, s: seq<T>) {
    forall k, l :: 0 <= k < |s| && 0 <= l < |s| && k != l ==> !covers(s[k], s[l])
  }

  /** The elements that `x` does not cover, in order. */
  function Prune<T>(covers: Covering<T>, s: seq<T>, x: T): seq<T> {
    if s == [] then []
    else (if covers(x, s[0]) then [] else [s[0]]) + Prune(covers, s[1..], x)
  }

  function Insert<T>(covers: Covering<T>, s: seq<T>, x: T): seq<T> {
    if CoveredBy(covers, s, x) then s else Prune(covers, s, x) + [x]
  }

  function InsertAll<T>(covers: Covering<T>, s: seq<T>, xs: seq<T>): seq<T>
    decreases xs
  {
    if xs == [] then s else InsertAll(covers, Insert(covers, s, xs[0]), xs[1..])
  }

  // ---- The loops ---------------------------------------------------------------------------

  lemma {:induction false} PruneSnoc<T>(covers: Covering<T>, s: seq<T>, y: T, x: T)
    ensures Prune(covers, s + [y], x) == Prune(covers, s, x) + (if covers(x, y) then [] else [y])
    decreases s, 1
  {
    if s == [] {
      assert s + [y] == [y] && [y][1..] == [];
    } else {
      PruneSnocStep(covers, s, y, x);
    }
  }

  lemma PruneCons<T>(covers: Covering<T>, s: seq<T>, x: T)
    requires s != []
    ensures Prune(covers, s, x) == (if covers(x, s[0]) then [] else [s[0]]) + Prune(covers, s[1..], x)
  {}

  lemma {:induction false} PruneSnocStep<T>(covers: Covering<T>, s: seq<T>, y: T, x: T)
    requires s != []
    ensures Prune(covers, s + [y], x) == Prune(covers, s, x) + (if covers(x, y) then [] else [y])
    decreases s, 0
  {
    hide *;
    var head, tail := if covers(x, s[0]) then [] else [s[0]], if covers(x, y) then [] else [y];
    assert (s + [y])[1..] == s[1..] + [y] && (s + [y])[0] == s[0];
    PruneCons(covers, s, x);
    PruneCons(covers, s + [y], x);
    PruneSnoc(covers, s[1..], y, x);
    assert head + (Prune(covers, s[1..], x) + tail) == head + Prune(covers, s[1..], x) + tail;
  }

  /** Skips an element that is covered, and drops the elements it covers. */
  method InsertMinimal<T>(covers: Covering<T>, s: seq<T>, x: T) returns (r: seq<T>)
    ensures r == Insert(covers, s, x)
  {
    var k := 0;
    while k < |s|
      invariant k <= |s|
      invariant forall l :: 0 <= l < k ==> !covers(s[l], x)
    {
      if covers(s[k], x) {
        return s;
      }
      k := k + 1;
    }
    r, k := [], 0;
    while k < |s|
      invariant k <= |s|
      invariant r == Prune(covers, s[..k], x)
    {
      assert s[..k + 1] == s[..k] + [s[k]];
      PruneSnoc(covers, s[..k], s[k], x);
      if !covers(x, s[k]) {
        r := r + [s[k]];
      }
      k := k + 1;
    }
    assert s[..k] == s;
    r := r + [x];
  }

  lemma {:induction false} InsertAllSnoc<T>(covers: Covering<T>, s: seq<T>, xs: seq<T>, x: T)
    ensures InsertAll(covers, s, xs + [x]) == Insert(covers, InsertAll(covers, s, xs), x)
    decreases xs
  {
    if xs == [] {
      assert (xs + [x])[1..] == [];
      assert InsertAll(covers, Insert(covers, s, x), []) == Insert(covers, s, x);
    } else {
      assert (xs + [x])[1..] == xs[1..] + [x];
      InsertAllSnoc(covers, Insert(covers, s, xs[0]), xs[1..], x);
    }
  }

  // ---- What insertion keeps ------------------------------------------------------------------

  lemma {:induction false} PruneMembers<T>(covers: Covering<T>, s: seq<T>, x: T)
    ensures forall y :: y in Prune(covers, s, x) <==> y in s && !covers(x, y)
  {
    if s != [] {
      PruneMembers(covers, s[1..], x);
      assert s == [s[0]] + s[1..];
    }
  }

  lemma {:induction false} PruneMember<T>(covers: Covering<T>, s: seq<T>, x: T, k: nat)
    requires k < |Prune(covers, s, x)|
    ensures Prune(covers, s, x)[k] in s && !covers(x, Prune(covers, s, x)[k])
  {
    var kept := if covers(x, s[0]) then 0 else 1;
    if k >= kept {
      PruneMember(covers, s[1..], x, k - kept);
    }
  }

  lemma {:induction false} PruneAntichain<T>(covers: Covering<T>, s: seq<T>, x: T)
    requires Antichain(covers, s)
    ensures Antichain(covers, Prune(covers, s, x))
  {
    if s != [] {
      var rest := s[1..];
      assert Antichain(covers, rest) by { assert forall k :: 0 <= k < |rest| ==> rest[k] == s[k + 1]; }
      PruneAntichain(covers, rest, x);
      if !covers(x, s[0]) {
        var q := Prune(covers, rest, x);
        forall k | 0 <= k < |q| ensures q[k] in rest { PruneMember(covers, rest, x, k); }
        assert s == [s[0]] + rest;
        AntichainCons(covers, s[0], rest, q);
      }
    }
  }

  lemma AntichainCons<T>(covers: Covering<T>, y: T, rest: seq<T>, q: seq<T>)
    requires Antichain(covers, [y] + rest) && Antichain(covers, q)
    requires forall k :: 0 <= k < |q| ==> q[k] in rest
    ensures Antichain(covers, [y] + q)
  {
    var s, all := [y] + rest, [y] + q;
    forall k, l | 0 <= k < |all| && 0 <= l < |all| && k != l ensures !covers(all[k], all[l]) {
      if k == 0 {
        assert all[l] == q[l - 1];
        var m :| 0 <= m < |rest| && rest[m] == all[l];
        assert s[m + 1] == all[l] && s[0] == y;
      } else if l == 0 {
        assert all[k] == q[k - 1];
        var m :| 0 <= m < |rest| && rest[m] == all[k];
        assert s[m + 1] == all[k] && s[0] == y;
      } else {
        assert all[k] == q[k - 1] && all[l] == q[l - 1];
      }
    }
  }

  lemma InsertAntichain<T>(covers: Covering<T>, s: seq<T>, x: T)
    requires Antichain(covers, s)
    ensures Antichain(covers, Insert(covers, s, x))
  {
    if !CoveredBy(covers, s, x) {
      PruneAntichain(covers, s, x);
      var q := Prune(covers, s, x);
      var r := q + [x];
      forall k, l | 0 <= k < |r| && 0 <= l < |r| && k != l ensures !covers(r[k], r[l]) {
        if l == |q| {
          PruneMember(covers, s, x, k);
          var m :| 0 <= m < |s| && s[m] == q[k];
        } else if k == |q| {
          PruneMember(covers, s, x, l);
        } else {
          assert r[k] == q[k] && r[l] == q[l];
        }
      }
    }
  }

  /** Inserting adds exactly what the new element covers. */
  lemma InsertCovers<T(!new)>(covers: Covering<T>, s: seq<T>, x: T, y: T)
    requires Preorder(covers)
    ensures CoveredBy(covers, Insert(covers, s, x), y) <==> CoveredBy(covers, s, y) || covers(x, y)
  {
    if CoveredBy(covers, s, x) {
      if covers(x, y) {
        var k :| 0 <= k < |s| && covers(s[k], x);
        assert covers(s[k], y);
      }
    } else {
      PruneMembers(covers, s, x);
      var q := Prune(covers, s, x);
      var r := q + [x];
      if CoveredBy(covers, r, y) {
        var k :| 0 <= k < |r| && covers(r[k], y);
        if k < |q| {
          assert q[k] in s;
          var m :| 0 <= m < |s| && s[m] == q[k];
        }
      }
      if covers(x, y) { assert r[|q|] == x; }
      if CoveredBy(covers, s, y) {
        var m :| 0 <= m < |s| && covers(s[m], y);
        if covers(x, s[m]) {
          assert r[|q|] == x;
        } else {
          assert s[m] in q;
          var k :| 0 <= k < |q| && q[k] == s[m];
          assert r[k] == s[m];
        }
      }
    }
  }

  /** `m` is a minimal cover of the list `xs`: an antichain made of its elements that
      covers them all. */
  ghost predicate MinimalCover<T>(covers: Covering<T>, m: seq<T>, xs: seq<T>) {
    && Antichain(covers, m)
    && (forall k :: 0 <= k < |m| ==> m[k] in xs)
    && (forall k :: 0 <= k < |xs| ==> CoveredBy(covers, m, xs[k]))
  }

  lemma MinimalCoverInsert<T(!new)>(covers: Covering<T>, m: seq<T>, xs: seq<T>, x: T)
    requires Preorder(covers) && MinimalCover(covers, m, xs)
    ensures MinimalCover(covers, Insert(covers, m, x), xs + [x])
  {
    var r := Insert(covers, m, x);
    InsertAntichain(covers, m, x);
    PruneMembers(covers, m, x);
    forall k | 0 <= k < |r| ensures r[k] in xs + [x] {
      if !CoveredBy(covers, m, x) && k < |Prune(covers, m, x)| {
        assert Prune(covers, m, x)[k] in m;
      }
    }
    forall k | 0 <= k < |xs + [x]| ensures CoveredBy(covers, r, (xs + [x])[k]) {
      InsertCovers(covers, m, x, (xs + [x])[k]);
    }
  }

  /** Inserting a list into a minimal cover gives a minimal cover of everything. */
  lemma {:induction false} MinimalCoverAll<T(!new)>(covers: Covering<T>, m: seq<T>, xs: seq<T>, ys: seq<T>)
    requires Preorder(covers) && MinimalCover(covers, m, xs)
    ensures MinimalCover(covers, InsertAll(covers, m, ys), xs + ys)
    decreases ys, 1
  {
    if ys == [] {
      assert xs + ys == xs;
    } else {
      MinimalCoverStep(covers, m, xs, ys);
    }
  }

  lemma {:induction false} MinimalCoverStep<T(!new)>(covers: Covering<T>, m: seq<T>, xs: seq<T>, ys: seq<T>)
    requires Preorder(covers) && MinimalCover(covers, m, xs) && ys != []
    ensures MinimalCover(covers, InsertAll(covers, m, ys), xs + ys)
    decreases ys, 0
  {
    hide *;
    MinimalCoverInsert(covers, m, xs, ys[0]);
    MinimalCoverAll(covers, Insert(covers, m, ys[0]), xs + [ys[0]], ys[1..]);
    InsertAllCons(covers, m, ys);
    assert xs + [ys[0]] + ys[1..] == xs + ys;
  }

  /** A minimal cover covers exactly what the list covers. */
  lemma MinimalCoverCovers<T(!new)>(covers: Covering<T>, m: seq<T>, xs: seq<T>, y: T)
    requires Preorder(covers) && MinimalCover(covers, m, xs)
    ensures CoveredBy(covers, m, y) <==> CoveredBy(covers, xs, y)
  {}

  predicate Equivalent<T>(covers: Covering<T>, x: T, y: T) { covers(x, y) && covers(y, x) }

  ghost predicate SameMembers<T>(xs: seq<T>, ys: seq<T>) {
    (forall k :: 0 <= k < |xs| ==> xs[k] in ys) && (forall k :: 0 <= k < |ys| ==> ys[k] in xs)
  }

  lemma SameMembersHas<T>(xs: seq<T>, ys: seq<T>, x: T)
    requires SameMembers(xs, ys)
    ensures x in xs <==> x in ys
  {}

  /** Two minimal covers of the same elements, in whatever order these came, have
      equivalent elements. */
  lemma MinimalCoverUnique<T(!new)>(covers: Covering<T>, m: seq<T>, xs: seq<T>, m': seq<T>, xs': seq<T>, k: nat)
    requires Preorder(covers) && MinimalCover(covers, m, xs) && MinimalCover(covers, m', xs')
    requires SameMembers(xs, xs')
    requires k < |m|
    ensures exists l :: 0 <= l < |m'| && Equivalent(covers, m[k], m'[l])
  {
    hide *;
    MinimalMember(covers, m, xs, k);
    SameMembersHas(xs, xs', m[k]);
    var l := MinimalCoverOf(covers, m', xs', m[k]);
    MinimalMember(covers, m', xs', l);
    SameMembersHas(xs, xs', m'[l]);
    var k' := MinimalCoverOf(covers, m, xs, m'[l]);
    CoverCycle(covers, m, k', m'[l], k);
    EquivalentPair(covers, m[k], m'[l]);
  }

  lemma MinimalMember<T>(covers: Covering<T>, m: seq<T>, xs: seq<T>, k: nat)
    requires MinimalCover(covers, m, xs) && k < |m|
    ensures m[k] in xs && Antichain(covers, m)
  {}

  lemma MinimalCoverOf<T>(covers: Covering<T>, m: seq<T>, xs: seq<T>, x: T) returns (l: nat)
    requires MinimalCover(covers, m, xs) && x in xs
    ensures l < |m| && covers(m[l], x)
  {
    var a :| 0 <= a < |xs| && xs[a] == x;
    l :| 0 <= l < |m| && covers(m[l], xs[a]);
  }

  lemma EquivalentPair<T>(covers: Covering<T>, x: T, y: T)
    requires covers(x, y) && covers(y, x)
    ensures Equivalent(covers, x, y)
  {}

  lemma CoverCycle<T(!new)>(covers: Covering<T>, m: seq<T>, k: nat, y: T, l: nat)
    requires Preorder(covers) && Antichain(covers, m) && k < |m| && l < |m|
    requires covers(m[k], y) && covers(y, m[l])
    ensures k == l
  {}

  /** Re-inserting an antichain element by element gives it back, in order. */
  lemma {:induction false} ReinsertAntichain<T>(covers: Covering<T>, s: seq<T>, t: seq<T>)
    requires Antichain(covers, s + t)
    ensures InsertAll(covers, s, t) == s + t
    decreases t
  {
    if t == [] {
      assert s + t == s;
    } else {
      var all, x := s + t, t[0];
      assert all[|s|] == x;
      assert forall k :: 0 <= k < |s| ==> all[k] == s[k];
      assert !CoveredBy(covers, s, x);
      PruneNothing(covers, s, x);
      assert s + [x] + t[1..] == all;
      ReinsertAntichain(covers, s + [x], t[1..]);
    }
  }

  lemma {:induction false} PruneNothing<T>(covers: Covering<T>, s: seq<T>, x: T)
    requires forall k :: 0 <= k < |s| ==> !covers(x, s[k])
    ensures Prune(covers, s, x) == s
  {
    if s != [] {
      assert !covers(x, s[0]);
      assert forall k :: 0 <= k < |s[1..]| ==> s[1..][k] == s[k + 1];
      PruneNothing(covers, s[1..], x);
    }
  }

  /** Inserting a list adds exactly what its elements cover. */
  lemma {:induction false} InsertAllCovers<T(!new)>(covers: Covering<T>, s: seq<T>, xs: seq<T>, y: T)
    requires Preorder(covers)
    ensures CoveredBy(covers, InsertAll(covers, s, xs), y) <==> CoveredBy(covers, s, y) || CoveredBy(covers, xs, y)
    decreases xs
  {
    if xs != [] {
      hide Preorder, Insert, CoveredBy;
      InsertAllCovers(covers, Insert(covers, s, xs[0]), xs[1..], y);
      InsertCovers(covers, s, xs[0], y);
      CoveredByCons(covers, xs, y);
    }
  }

  lemma CoveredByCons<T>(covers: Covering<T>, xs: seq<T>, y: T)
    requires xs != []
    ensures CoveredBy(covers, xs, y) <==> covers(xs[0], y) || CoveredBy(covers, xs[1..], y)
  {}

  lemma CoveredByAppend<T>(covers: Covering<T>, s: seq<T>, t: seq<T>, y: T)
    ensures CoveredBy(covers, s + t, y) <==> CoveredBy(covers, s, y) || CoveredBy(covers, t, y)
  {
    if CoveredBy(covers, s, y) {
      var k :| 0 <= k < |s| && covers(s[k], y);
      assert (s + t)[k] == s[k];
    }
    if CoveredBy(covers, t, y) {
      var k :| 0 <= k < |t| && covers(t[k], y);
      assert (s + t)[|s| + k] == t[k];
    }
  }

  lemma {:induction false} PruneShrinks<T>(covers: Covering<T>, s: seq<T>, x: T)
    ensures |Prune(covers, s, x)| <= |s|
    ensures |Prune(covers, s, x)| == |s| ==> Prune(covers, s, x) == s
  {
    if s != [] { PruneShrinks(covers, s[1..], x); }
  }

  lemma InsertGrows<T>(covers: Covering<T>, s: seq<T>, x: T)
    ensures |Insert(covers, s, x)| <= |s| + 1
    ensures |Insert(covers, s, x)| == |s| + 1 ==> Insert(covers, s, x) == s + [x]
  {
    PruneShrinks(covers, s, x);
  }

  lemma InsertAllCons<T>(covers: Covering<T>, s: seq<T>, xs: seq<T>)
    requires xs != []
    ensures InsertAll(covers, s, xs) == InsertAll(covers, Insert(covers, s, xs[0]), xs[1..])
  {}

  lemma {:induction false} InsertAllFullStep<T>(covers: Covering<T>, s: seq<T>, xs: seq<T>)
    requires xs != []
    ensures |InsertAll(covers, s, xs)| <= |s| + |xs|
    ensures |InsertAll(covers, s, xs)| == |s| + |xs| ==> InsertAll(covers, s, xs) == s + xs
    decreases xs, 0
  {
    hide *;
    InsertAllCons(covers, s, xs);
    InsertGrows(covers, s, xs[0]);
    InsertAllFull(covers, Insert(covers, s, xs[0]), xs[1..]);
    assert s + [xs[0]] + xs[1..] == s + xs;
  }

  /** A list that keeps all its elements while being inserted comes out unchanged. */
  lemma {:induction false} InsertAllFull<T>(covers: Covering<T>, s: seq<T>, xs: seq<T>)
    ensures |InsertAll(covers, s, xs)| <= |s| + |xs|
    ensures |InsertAll(covers, s, xs)| == |s| + |xs| ==> InsertAll(covers, s, xs) == s + xs
    decreases xs, 1
  {
    if xs == [] {
      assert s + xs == s;
    } else {
      InsertAllFullStep(covers, s, xs);
    }
  }
}
