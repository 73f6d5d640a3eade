/** Deleting a thread together with its transitive subagent threads: the worklist that
    collects them, when it ends, and which rows the deletion leaves. */
module ThreadsDb {
  import opened Options

  type ThreadId = string

  datatype Row = Row(id: ThreadId, parentId: Option<ThreadId>, data: string)

  /** The id is the primary key of the table. */
  predicate UniqueIds(rows: seq<Row>) {
    forall i, j :: 0 <= i < j < |rows| ==> rows[i].id != rows[j].id
  }

  /** `SELECT id FROM threads WHERE parent_id = ?` */
  function SelectChildren(rows: seq<Row>, parent: ThreadId): seq<ThreadId> {
    if rows == [] then []
    else (if rows[0].parentId == Some(parent) then [rows[0].id] else []) + SelectChildren(rows[1..], parent)
  }

  function ParentOf(rows: seq<Row>, id: ThreadId): Option<ThreadId> {
    if rows == [] then None
    else if rows[0].id == id then rows[0].parentId
    else ParentOf(rows[1..], id)
  }

  /** The thread `n` parent links above. */
  function Up(rows: seq<Row>, id: ThreadId, n: nat): Option<ThreadId>
    decreases n
  {
    if n == 0 then Some(id)
    else
      match ParentOf(rows, id)
      case None => None
      case Some(parent) => Up(rows, parent, n - 1)
  }

  /** A transitive child. */
  ghost predicate Below(rows: seq<Row>, top: ThreadId, id: ThreadId) {
    exists n: nat :: n > 0 && Up(rows, id, n) == Some(top)
  }

  predicate NoDuplicates(ids: seq<ThreadId>) {
    forall i, j :: 0 <= i < j < |ids| ==> ids[i] != ids[j]
  }

  // ---- Parents and children ------------------------------------------------------------------

  lemma {:induction false} ParentOfMissing(rows: seq<Row>, id: ThreadId)
    requires forall k :: 0 <= k < |rows| ==> rows[k].id != id
    ensures ParentOf(rows, id) == None
  {
    if rows != [] { ParentOfMissing(rows[1..], id); }
  }

  lemma {:induction false} ChildHasParent(rows: seq<Row>, parent: ThreadId, id: ThreadId)
    requires UniqueIds(rows)
    ensures id in SelectChildren(rows, parent) <==> ParentOf(rows, id) == Some(parent)
  {
    if rows != [] {
      ChildHasParent(rows[1..], parent, id);
      if rows[0].id == id {
        ParentOfMissing(rows[1..], id);
      }
    }
  }

  lemma {:induction false} ChildrenDistinct(rows: seq<Row>, parent: ThreadId)
    requires UniqueIds(rows)
    ensures NoDuplicates(SelectChildren(rows, parent))
  {
    if rows != [] {
      ChildrenDistinct(rows[1..], parent);
      ParentOfMissing(rows[1..], rows[0].id);
      ChildHasParent(rows[1..], parent, rows[0].id);
    }
  }

  /** The ids of the table. */
  function Ids(rows: seq<Row>): set<ThreadId> { set row | row in rows :: row.id }

  lemma {:induction false} ChildInTable(rows: seq<Row>, id: ThreadId)
    requires ParentOf(rows, id).Some?
    ensures id in Ids(rows)
  {
    if rows[0].id == id {
      assert rows[0] in rows;
    } else {
      ChildInTable(rows[1..], id);
      var row :| row in rows[1..] && row.id == id;
      assert row in rows;
    }
  }

  // ---- The worklist --------------------------------------------------------------------------

  /** The state of the loop: `ids` are collected, those not in the frontier have had their
      children collected. */
  ghost predicate Collecting(rows: seq<Row>, top: ThreadId, ids: seq<ThreadId>, frontier: seq<ThreadId>,
                             done: set<ThreadId>)
  {
    && NoDuplicates(ids) && NoDuplicates(frontier)
    && top in ids
    && (forall id :: id in ids <==> id in frontier || id in done)
    && (forall id :: id in frontier ==> id !in done)
    && (forall id :: id in ids ==> id == top || Below(rows, top, id))
    && (forall id :: id in ids && id != top ==> ParentOf(rows, id).Some? && ParentOf(rows, id).value in done)
    && (forall id :: ParentOf(rows, id).Some? && ParentOf(rows, id).value in done ==> id in ids)
  }

  lemma BelowChild(rows: seq<Row>, top: ThreadId, parent: ThreadId, id: ThreadId)
    requires parent == top || Below(rows, top, parent)
    requires ParentOf(rows, id) == Some(parent)
    ensures Below(rows, top, id)
  {
    if parent == top {
      assert Up(rows, parent, 0) == Some(top);
      assert Up(rows, id, 1) == Some(top);
    } else {
      var n: nat :| n > 0 && Up(rows, parent, n) == Some(top);
      assert Up(rows, id, n + 1) == Some(top);
    }
  }

  lemma NoDuplicatesAppend(a: seq<ThreadId>, b: seq<ThreadId>)
    requires NoDuplicates(a) && NoDuplicates(b)
    requires forall k :: 0 <= k < |b| ==> b[k] !in a
    ensures NoDuplicates(a + b)
  {}

  /** One round: pop a thread, collect its children and push them. */
  lemma CollectRound(rows: seq<Row>, top: ThreadId, ids: seq<ThreadId>, frontier: seq<ThreadId>, done: set<ThreadId>)
    requires UniqueIds(rows) && !Below(rows, top, top)
    requires Collecting(rows, top, ids, frontier, done) && frontier != []
    ensures var parent := frontier[|frontier| - 1];
      var children := SelectChildren(rows, parent);
      && parent !in done && parent in ids
      && Collecting(rows, top, ids + children, frontier[..|frontier| - 1] + children, done + {parent})
  {
    var popped, parent := frontier[..|frontier| - 1], frontier[|frontier| - 1];
    var children := SelectChildren(rows, parent);
    assert frontier == popped + [parent];
    forall id ensures id in children <==> ParentOf(rows, id) == Some(parent) {
      ChildHasParent(rows, parent, id);
    }
    ChildrenDistinct(rows, parent);
    hide Below, UniqueIds, SelectChildren, ParentOf;
    forall id | id in children ensures Below(rows, top, id) && id !in ids {
      BelowChild(rows, top, parent, id);
    }
    NoDuplicatesAppend(ids, children);
    NoDuplicatesAppend(popped, children);
  }

  lemma CollectStart(rows: seq<Row>, top: ThreadId)
    ensures Collecting(rows, top, [top], [top], {})
  {}

  /** When the frontier is empty the collected ids are the thread and all below it. */
  lemma {:induction false} CollectedAll(
      rows: seq<Row>, top: ThreadId, ids: seq<ThreadId>, done: set<ThreadId>, id: ThreadId, n: nat)
    requires Collecting(rows, top, ids, [], done) && Up(rows, id, n) == Some(top)
    ensures id in ids
    decreases n
  {
    if n > 0 {
      CollectedAll(rows, top, ids, done, ParentOf(rows, id).value, n - 1);
    }
  }

  lemma DoneInside(rows: seq<Row>, top: ThreadId, ids: seq<ThreadId>, frontier: seq<ThreadId>, done: set<ThreadId>)
    requires Collecting(rows, top, ids, frontier, done)
    ensures done <= Ids(rows) + {top}
  {
    forall id | id in done ensures id in Ids(rows) + {top} {
      if id != top { ChildInTable(rows, id); }
    }
  }

  /** Collects the thread and every thread below it, each exactly once. */
  method CollectThreads(rows: seq<Row>, id: ThreadId) returns (idsToDelete: seq<ThreadId>)
    requires UniqueIds(rows) && !Below(rows, id, id)
    ensures NoDuplicates(idsToDelete)
    ensures forall x :: x in idsToDelete <==> x == id || Below(rows, id, x)
  {
    hide *;
    idsToDelete := [id];
    var frontier := [id];
    ghost var done: set<ThreadId> := {};
    CollectStart(rows, id);
    while frontier != []
      invariant Collecting(rows, id, idsToDelete, frontier, done)
      decreases Ids(rows) + {id} - done
    {
      var parent := frontier[|frontier| - 1];
      CollectRound(rows, id, idsToDelete, frontier, done);
      frontier := frontier[..|frontier| - 1];
      var children := SelectChildren(rows, parent);
      ghost var ids0, frontier0, done0 := idsToDelete, frontier, done;
      done := done + {parent};
      for k := 0 to |children|
        invariant idsToDelete == ids0 + children[..k] && frontier == frontier0 + children[..k]
      {
        idsToDelete := idsToDelete + [children[k]];
        frontier := frontier + [children[k]];
        assert children[..k + 1] == children[..k] + [children[k]];
      }
      assert children[..|children|] == children;
      DoneInside(rows, id, idsToDelete, frontier, done);
      assert parent in Ids(rows) + {id} - done0;
    }
    CollectedExactly(rows, id, idsToDelete, done);
  }

  lemma CollectedExactly(rows: seq<Row>, top: ThreadId, ids: seq<ThreadId>, done: set<ThreadId>)
    requires Collecting(rows, top, ids, [], done)
    ensures NoDuplicates(ids)
    ensures forall id :: id in ids <==> id == top || Below(rows, top, id)
  {
    forall id ensures id in ids <==> id == top || Below(rows, top, id) {
      if Below(rows, top, id) {
        var n: nat :| n > 0 && Up(rows, id, n) == Some(top);
        CollectedAll(rows, top, ids, done, id, n);
      }
    }
  }

  // ---- The deletion --------------------------------------------------------------------------

  /** The rows whose id is not in the list, in order. */
  function Without(rows: seq<Row>, ids: seq<ThreadId>): seq<Row> {
    if rows == [] then []
    else (if rows[0].id in ids then [] else [rows[0]]) + Without(rows[1..], ids)
  }

  /** What deleting a thread should leave: every row that is neither it nor below it. */
  ghost function Remaining(all: seq<Row>, rows: seq<Row>, id: ThreadId): seq<Row> {
    if rows == [] then []
    else (if rows[0].id == id || Below(all, id, rows[0].id) then [] else [rows[0]]) + Remaining(all, rows[1..], id)
  }

  lemma {:induction false} WithoutSnoc(rows: seq<Row>, ids: seq<ThreadId>, id: ThreadId)
    ensures Without(rows, ids + [id]) == Without(Without(rows, ids), [id])
  {
    if rows != [] {
      WithoutSnoc(rows[1..], ids, id);
      assert rows[0].id in ids + [id] <==> rows[0].id in ids || rows[0].id == id;
      if rows[0].id !in ids {
        var kept := Without(rows, ids);
        assert kept[0] == rows[0] && kept[1..] == Without(rows[1..], ids);
        assert rows[0].id in [id] <==> rows[0].id == id;
      } else {
        assert Without(rows, ids) == Without(rows[1..], ids);
        assert Without(rows, ids + [id]) == Without(rows[1..], ids + [id]);
      }
    }
  }

  lemma {:induction false} WithoutNothing(rows: seq<Row>)
    ensures Without(rows, []) == rows
  {
    if rows != [] { WithoutNothing(rows[1..]); }
  }

  lemma {:induction false} WithoutIsRemaining(all: seq<Row>, rows: seq<Row>, ids: seq<ThreadId>, id: ThreadId)
    requires forall x :: x in ids <==> x == id || Below(all, id, x)
    ensures Without(rows, ids) == Remaining(all, rows, id)
  {
    if rows != [] { WithoutIsRemaining(all, rows[1..], ids, id); }
  }

  lemma {:induction false} ParentOfRow(rows: seq<Row>, row: Row)
    requires UniqueIds(rows) && row in rows
    ensures ParentOf(rows, row.id) == row.parentId
  {
    if row != rows[0] {
      var k :| 0 <= k < |rows| && rows[k] == row;
      assert rows[1..][k - 1] == row;
      ParentOfRow(rows[1..], row);
    }
  }

  lemma {:induction false} RemainingRow(all: seq<Row>, rows: seq<Row>, id: ThreadId, row: Row)
    ensures row in Remaining(all, rows, id) <==> row in rows && row.id != id && !Below(all, id, row.id)
  {
    if rows != [] {
      RemainingRow(all, rows[1..], id, row);
      assert rows == [rows[0]] + rows[1..];
    }
  }

  /** The deletion leaves no thread behind whose parent it deleted. */
  lemma NoOrphans(rows: seq<Row>, id: ThreadId, row: Row, deleted: ThreadId)
    requires UniqueIds(rows) && row in Remaining(rows, rows, id)
    requires deleted == id || Below(rows, id, deleted)
    ensures row.parentId != Some(deleted)
  {
    RemainingRow(rows, rows, id, row);
    ParentOfRow(rows, row);
    if row.parentId == Some(deleted) {
      BelowChild(rows, id, deleted, row.id);
    }
  }

  class ThreadsDatabase {
    var threads: seq<Row>

    /** `DELETE FROM threads WHERE id = ?` */
    method Delete(id: ThreadId)
      modifies this
      ensures threads == Without(old(threads), [id])
    {
      var kept: seq<Row> := [];
      for k := 0 to |threads|
        invariant unchanged(this)
        invariant kept + Without(threads[k..], [id]) == Without(threads, [id])
      {
        var row := threads[k];
        assert threads[k..][0] == row && threads[k..][1..] == threads[k + 1..];
        if row.id != id {
          kept := kept + [row];
        }
      }
      assert kept + [] == kept;
      threads := kept;
    }

    /** Deletes a thread and everything below it; all other rows stay, in order. */
    method DeleteThread(id: ThreadId)
      requires UniqueIds(threads) && !Below(threads, id, id)
      modifies this
      ensures threads == Remaining(old(threads), old(threads), id)
    {
      var idsToDelete := CollectThreads(threads, id);
      WithoutNothing(threads);
      ghost var all := threads;
      for k := 0 to |idsToDelete|
        invariant threads == Without(all, idsToDelete[..k])
      {
        assert idsToDelete[..k + 1] == idsToDelete[..k] + [idsToDelete[k]];
        WithoutSnoc(all, idsToDelete[..k], idsToDelete[k]);
        Delete(idsToDelete[k]);
      }
      assert idsToDelete[..|idsToDelete|] == idsToDelete;
      WithoutIsRemaining(all, all, idsToDelete, id);
    }
  }

  // ---- When the worklist ends ------------------------------------------------------------------

  function NextFrontier(rows: seq<Row>, frontier: seq<ThreadId>): seq<ThreadId> {
    if frontier == [] then []
    else frontier[..|frontier| - 1] + SelectChildren(rows, frontier[|frontier| - 1])
  }

  /** The frontier after `n` rounds. */
  function Frontier(rows: seq<Row>, frontier: seq<ThreadId>, n: nat): seq<ThreadId>
    decreases n
  {
    if n == 0 then frontier else Frontier(rows, NextFrontier(rows, frontier), n - 1)
  }

  lemma FrontierNext(rows: seq<Row>, frontier: seq<ThreadId>, n: nat)
    requires n > 0
    ensures Frontier(rows, frontier, n) == Frontier(rows, NextFrontier(rows, frontier), n - 1)
  {}

  lemma {:induction false} UpSplits(rows: seq<Row>, id: ThreadId, n: nat, mid: ThreadId)
    requires Up(rows, id, n) == Some(mid)
    ensures Up(rows, id, n + 1) == ParentOf(rows, mid)
    decreases n
  {
    if n > 0 {
      UpSplits(rows, ParentOf(rows, id).value, n - 1, mid);
    } else {
      assert ParentOf(rows, id).Some? ==> Up(rows, ParentOf(rows, id).value, 0) == ParentOf(rows, id);
    }
  }

  /** A thread on the chain of `n` links from `top` back to itself. */
  ghost predicate OnCycle(rows: seq<Row>, top: ThreadId, n: nat, id: ThreadId) {
    exists k: nat :: k < n && Up(rows, top, k) == Some(id)
  }

  lemma CycleChild(rows: seq<Row>, top: ThreadId, n: nat, id: ThreadId) returns (child: ThreadId)
    requires UniqueIds(rows) && n > 0 && Up(rows, top, n) == Some(top) && OnCycle(rows, top, n, id)
    ensures OnCycle(rows, top, n, child) && child in SelectChildren(rows, id)
  {
    var k: nat :| k < n && Up(rows, top, k) == Some(id);
    var m := if k == 0 then n - 1 else k - 1;
    UpDefined(rows, top, n, m);
    child := Up(rows, top, m).value;
    UpSplits(rows, top, m, child);
    ChildHasParent(rows, id, child);
  }

  lemma {:induction false} UpDefined(rows: seq<Row>, id: ThreadId, n: nat, m: nat)
    requires Up(rows, id, n).Some? && m <= n
    ensures Up(rows, id, m).Some?
    decreases m
  {
    if m > 0 {
      UpDefined(rows, ParentOf(rows, id).value, n - 1, m - 1);
    }
  }

  lemma {:induction false} CycleNeverEnds(rows: seq<Row>, top: ThreadId, n: nat, frontier: seq<ThreadId>,
                                          id: ThreadId, rounds: nat)
    requires UniqueIds(rows) && n > 0 && Up(rows, top, n) == Some(top)
    requires OnCycle(rows, top, n, id) && id in frontier
    ensures Frontier(rows, frontier, rounds) != []
    decreases rounds
  {
    if rounds > 0 {
      hide OnCycle, UniqueIds, Up, NextFrontier, Frontier;
      FrontierNext(rows, frontier, rounds);
      var next := NextFrontier(rows, frontier);
      var still := CycleStays(rows, top, n, frontier, id);
      CycleNeverEnds(rows, top, n, next, still, rounds - 1);
    }
  }

  /** A round takes a thread of the cycle off the frontier only to push another. */
  lemma CycleStays(rows: seq<Row>, top: ThreadId, n: nat, frontier: seq<ThreadId>, id: ThreadId)
    returns (still: ThreadId)
    requires UniqueIds(rows) && n > 0 && Up(rows, top, n) == Some(top)
    requires OnCycle(rows, top, n, id) && id in frontier
    ensures OnCycle(rows, top, n, still) && still in NextFrontier(rows, frontier)
  {
    hide OnCycle, UniqueIds, Up, SelectChildren;
    var popped, last := frontier[..|frontier| - 1], frontier[|frontier| - 1];
    assert frontier == popped + [last];
    if id == last {
      still := CycleChild(rows, top, n, id);
    } else {
      still := id;
    }
  }

  lemma {:induction false} WorklistEnds(
      rows: seq<Row>, top: ThreadId, ids: seq<ThreadId>, frontier: seq<ThreadId>, done: set<ThreadId>)
      returns (rounds: nat)
    requires UniqueIds(rows) && !Below(rows, top, top) && Collecting(rows, top, ids, frontier, done)
    ensures Frontier(rows, frontier, rounds) == []
    ensures rounds <= |Ids(rows) + {top} - done|
    decreases Ids(rows) + {top} - done
  {
    hide UniqueIds, Below, Collecting, SelectChildren, Ids;
    if frontier == [] {
      rounds := 0;
    } else {
      var parent := frontier[|frontier| - 1];
      var children := SelectChildren(rows, parent);
      CollectRound(rows, top, ids, frontier, done);
      var next, after := frontier[..|frontier| - 1] + children, done + {parent};
      DoneInside(rows, top, ids + children, next, after);
      assert Ids(rows) + {top} - done == (Ids(rows) + {top} - after) + {parent};
      rounds := WorklistEnds(rows, top, ids + children, next, after);
      rounds := rounds + 1;
    }
  }

  /** The loop ends exactly when the thread is not below itself. */
  lemma WorklistEndsIff(rows: seq<Row>, top: ThreadId)
    requires UniqueIds(rows)
    ensures (exists rounds: nat :: Frontier(rows, [top], rounds) == []) <==> !Below(rows, top, top)
  {
    if Below(rows, top, top) {
      var n: nat :| n > 0 && Up(rows, top, n) == Some(top);
      assert Up(rows, top, 0) == Some(top);
      forall rounds: nat ensures Frontier(rows, [top], rounds) != [] {
        CycleNeverEnds(rows, top, n, [top], top, rounds);
      }
    } else {
      CollectStart(rows, top);
      var rounds := WorklistEnds(rows, top, [top], [top], {});
    }
  }
}
