/** The review engine for one buffer: the base text the user has accepted, the
    snapshot, and the patch of unreviewed agent hunks between them. */
module ReviewLog {
  import Options
  import opened RopeText
  import opened Patches
  import Rebase
  import opened TextEdits
  import opened EditBatches

  datatype Status = Created(existing: Options.Option<Rope>) | Modified | Deleted

  datatype ChangeAuthor = User | Agent

  /** `ActionLogMetrics`, without the language. */
  datatype Metrics = Metrics(linesAdded: int, linesRemoved: int) {
    function AddEdit(e: Edit): Metrics {
      Metrics(linesAdded + e.newRows.Len(), linesRemoved + e.oldRows.Len())
    }
  }

  function AddEdits(m: Metrics, p: seq<Edit>): Metrics
    decreases p
  {
    if p == [] then m else AddEdits(m.AddEdit(p[0]), p[1..])
  }

  const NO_METRICS := Metrics(0, 0)

  lemma {:induction false} AddEditsSnoc(m: Metrics, p: seq<Edit>, e: Edit)
    ensures AddEdits(m, p + [e]) == AddEdits(m, p).AddEdit(e)
    decreases p
  {
    if p == [] {
      assert (p + [e])[1..] == [];
    } else {
      assert (p + [e])[1..] == p[1..] + [e];
      AddEditsSnoc(m.AddEdit(p[0]), p[1..], e);
    }
  }

  /** Lines added minus lines removed is how much the edits grow a text. */
  lemma {:induction false} MetricsBalance(m: Metrics, p: seq<Edit>)
    ensures var r := AddEdits(m, p);
            r.linesAdded - r.linesRemoved == m.linesAdded - m.linesRemoved + Growth(p)
    decreases p
  {
    if p != [] {
      MetricsBalance(m.AddEdit(p[0]), p[1..]);
    }
  }

  ghost function RowsOf(s: Span): set<int> { set row | s.start <= row < s.end && s.Has(row) }

  lemma {:induction false} RowsOfCount(s: Span)
    requires s.start <= s.end
    ensures |RowsOf(s)| == s.Len()
    decreases s.Len()
  {
    if s.start < s.end {
      var shorter := Span(s.start, s.end - 1);
      RowsOfCount(shorter);
      assert RowsOf(s) == RowsOf(shorter) + {s.end - 1};
    } else {
      assert RowsOf(s) == {};
    }
  }

  /** The old rows and the new rows of all edits. */
  ghost function OldRowSet(p: seq<Edit>): set<int> {
    if p == [] then {} else RowsOf(p[0].oldRows) + OldRowSet(p[1..])
  }

  ghost function NewRowSet(p: seq<Edit>): set<int> {
    if p == [] then {} else RowsOf(p[0].newRows) + NewRowSet(p[1..])
  }

  lemma {:induction false} RowSetHas(p: seq<Edit>, row: int)
    ensures row in OldRowSet(p) <==> exists k :: 0 <= k < |p| && p[k].oldRows.Has(row)
    ensures row in NewRowSet(p) <==> exists k :: 0 <= k < |p| && p[k].newRows.Has(row)
  {
    if p != [] {
      RowSetHas(p[1..], row);
      assert forall k :: 0 <= k < |p[1..]| ==> p[1..][k] == p[k + 1];
      assert forall k :: 0 < k < |p| ==> p[k] == p[1..][k - 1];
    }
  }

  ghost predicate RangesForward(p: seq<Edit>) {
    forall k :: 0 <= k < |p| ==> p[k].oldRows.start <= p[k].oldRows.end && p[k].newRows.start <= p[k].newRows.end
  }

  /** Separated edits count every new row once as added and every old row once as removed. */
  lemma {:induction false} MetricsCountRows(m: Metrics, p: seq<Edit>)
    requires Separated(p) && RangesForward(p)
    ensures AddEdits(m, p) == Metrics(m.linesAdded + |NewRowSet(p)|, m.linesRemoved + |OldRowSet(p)|)
    decreases p
  {
    if p != [] {
      hide OldRowSet, NewRowSet;
      var e, rest := p[0], p[1..];
      RestSeparated(p);
      MetricsCountRows(m.AddEdit(e), rest);
      FirstRowsApart(p);
      RowsOfCount(e.oldRows);
      RowsOfCount(e.newRows);
      RowSetsCons(p);
    } else {
      NoRowSets();
    }
  }

  lemma NoRowSets()
    ensures OldRowSet([]) == {} && NewRowSet([]) == {}
  {}

  lemma RowSetsCons(p: seq<Edit>)
    requires p != []
    ensures OldRowSet(p) == RowsOf(p[0].oldRows) + OldRowSet(p[1..])
    ensures NewRowSet(p) == RowsOf(p[0].newRows) + NewRowSet(p[1..])
  {}

  lemma RestSeparated(p: seq<Edit>)
    requires p != [] && Separated(p) && RangesForward(p)
    ensures Separated(p[1..]) && RangesForward(p[1..])
  {
    assert forall k :: 0 <= k < |p[1..]| ==> p[1..][k] == p[k + 1];
  }

  lemma FirstRowsApart(p: seq<Edit>)
    requires p != [] && Separated(p) && RangesForward(p)
    ensures RowsOf(p[0].oldRows) !! OldRowSet(p[1..]) && RowsOf(p[0].newRows) !! NewRowSet(p[1..])
  {
    hide OldRowSet, NewRowSet;
    var rest := p[1..];
    assert forall k :: 0 <= k < |rest| ==> rest[k] == p[k + 1];
    forall row | row in OldRowSet(rest) ensures row !in RowsOf(p[0].oldRows) {
      RowSetHas(rest, row);
    }
    forall row | row in NewRowSet(rest) ensures row !in RowsOf(p[0].newRows) {
      RowSetHas(rest, row);
    }
  }

  // ---- Which hunks a range touches -----------------------------------------------------

  /** The test of `keep_edits_in_range`. */
  predicate KeepTouches(range: Span, e: Edit) {
    !(range.end < e.newRows.start || range.start > e.newRows.end)
  }

  function KeepMask(p: seq<Edit>, range: Span): (mask: seq<bool>)
    ensures |mask| == |p|
    ensures forall k :: 0 <= k < |p| ==> mask[k] == KeepTouches(range, p[k])
  {
    if p == [] then [] else [KeepTouches(range, p[0])] + KeepMask(p[1..], range)
  }

  /** The test of `reject_edits_in_ranges`: the end of the hunk is the row of a point
      clamped to the end of a buffer of `rows` rows. */
  predicate RejectTouches(range: Span, e: Edit, rows: nat) {
    range.end >= e.newRows.start && range.start <= LastRow(e, rows)
  }

  function LastRow(e: Edit, rows: nat): int { Rebase.Min(e.newRows.end, rows - 1) }

  predicate RejectTouchesSome(ranges: seq<Span>, e: Edit, rows: nat) {
    exists r :: 0 <= r < |ranges| && RejectTouches(ranges[r], e, rows)
  }

  // The same by rows, for ranges and hunks closed at both ends.

  predicate ClosedHas(s: Span, row: int) { s.start <= row <= s.end }

  /** Some row is in the range and in the hunk. */
  ghost predicate RowInCommon(range: Span, hunk: Span) {
    exists row :: ClosedHas(range, row) && ClosedHas(hunk, row)
  }

  /** Some row of a buffer of `rows` rows is in the range and in the hunk. */
  ghost predicate BufferRowInCommon(range: Span, hunk: Span, rows: nat) {
    exists row :: ClosedHas(range, row) && ClosedHas(hunk, row) && row < rows
  }

  lemma KeepTouchesIff(range: Span, e: Edit)
    requires range.start <= range.end && e.newRows.start <= e.newRows.end
    ensures KeepTouches(range, e) <==> RowInCommon(range, e.newRows)
  {
    var row := if range.start >= e.newRows.start then range.start else e.newRows.start;
    if KeepTouches(range, e) { assert ClosedHas(range, row) && ClosedHas(e.newRows, row); }
  }

  lemma RejectTouchesIff(range: Span, e: Edit, rows: nat)
    requires range.start <= range.end && e.newRows.start <= e.newRows.end && e.newRows.start < rows
    ensures RejectTouches(range, e, rows) <==> BufferRowInCommon(range, e.newRows, rows)
  {
    var row := if range.start >= e.newRows.start then range.start else e.newRows.start;
    if RejectTouches(range, e, rows) { assert ClosedHas(range, row) && ClosedHas(e.newRows, row); }
  }

  predicate NoneInverted(ranges: seq<Span>) {
    forall r :: 0 <= r < |ranges| ==> ranges[r].start <= ranges[r].end
  }

  predicate AscendingStarts(ranges: seq<Span>) {
    forall r, s :: 0 <= r < s < |ranges| ==> ranges[r].start <= ranges[s].start
  }

  // ---- The buffer ------------------------------------------------------------------------

  /** A place in a buffer, attached to the character next to it in the version of the
      text that the first `version` edits led to. */
  datatype Anchor = Before(version: nat, pos: int) | After(version: nat, pos: int)

  function CarryAnchor(log: seq<seq<TextEdit>>, a: Anchor): int
    requires a.version <= |log|
    decreases |log| - a.version
  {
    if a.version == |log| then a.pos
    else
      match a
      case Before(v, pos) => CarryAnchor(log, Anchor.Before(v + 1, CarryBefore(log[v], pos, 0)))
      case After(v, pos) => CarryAnchor(log, Anchor.After(v + 1, CarryAfter(log[v], pos, 0)))
  }

  // ---- Anchors stay inside the text ----------------------------------------------------

  lemma {:induction false} CarryInside(es: seq<TextEdit>, n: nat, i: int, pos: int, d: int)
    requires Disjoint(es, n, i) && i <= pos <= n
    ensures i + d <= CarryBefore(es, pos, d) <= n + d + TotalGrowth(es)
    ensures i + d <= CarryAfter(es, pos, d) <= n + d + TotalGrowth(es)
  {
    if es != [] {
      if pos >= es[0].end { CarryInside(es[1..], n, es[0].end, pos, d + es[0].Growth()); }
      GrowthBound(es[1..], n, es[0].end);
    }
  }

  lemma {:induction false} GrowthBound(es: seq<TextEdit>, n: nat, i: int)
    requires Disjoint(es, n, i)
    ensures i <= n + TotalGrowth(es)
  {
    if es != [] { GrowthBound(es[1..], n, es[0].end); }
  }

  /** The batches of the log lead from text to text; `lengths` are those of the texts. */
  ghost predicate Replays(log: seq<seq<TextEdit>>, lengths: seq<nat>) {
    && |lengths| == |log| + 1
    && forall v :: 0 <= v < |log| ==>
      Disjoint(log[v], lengths[v], 0) && lengths[v + 1] == lengths[v] + TotalGrowth(log[v])
  }

  /** However the text was edited since, an anchor is a place of the text. */
  lemma {:induction false} AnchorInText(log: seq<seq<TextEdit>>, lengths: seq<nat>, a: Anchor)
    requires Replays(log, lengths) && a.version <= |log| && 0 <= a.pos <= lengths[a.version]
    ensures 0 <= CarryAnchor(log, a) <= lengths[|log|]
    decreases |log| - a.version
  {
    hide CarryBefore, CarryAfter, TotalGrowth, Disjoint;
    if a.version < |log| {
      CarryInside(log[a.version], lengths[a.version], 0, a.pos, 0);
      match a
      case Before(v, pos) => AnchorInText(log, lengths, Anchor.Before(v + 1, CarryBefore(log[v], pos, 0)));
      case After(v, pos) => AnchorInText(log, lengths, Anchor.After(v + 1, CarryAfter(log[v], pos, 0)));
    }
  }

  lemma {:induction false} ApplyLength(t: Rope, es: seq<TextEdit>, i: int)
    requires Disjoint(es, |t|, i)
    ensures |ApplyEdits(t, es, i)| == |t| - i + TotalGrowth(es)
  {
    if es != [] { ApplyLength(t, es[1..], es[0].end); }
  }

  /** One more batch leads on from the text that the log led to. */
  lemma BatchReplays(log: seq<seq<TextEdit>>, lengths: seq<nat>, t: Rope, batch: seq<TextEdit>)
    requires Replays(log, lengths) && lengths[|log|] == |t| && Disjoint(batch, |t|, 0)
    ensures Replays(log + [batch], lengths + [|ApplyEdits(t, batch, 0)|])
  {
    ApplyLength(t, batch, 0);
    hide Disjoint, ApplyEdits, TotalGrowth;
    var log', lengths' := log + [batch], lengths + [|ApplyEdits(t, batch, 0)|];
    forall v | 0 <= v < |log'|
      ensures Disjoint(log'[v], lengths'[v], 0) && lengths'[v + 1] == lengths'[v] + TotalGrowth(log'[v])
    {
      if v < |log| { assert log'[v] == log[v] && lengths'[v] == lengths[v] && lengths'[v + 1] == lengths[v + 1]; }
    }
  }

  /** A text buffer: its text, and every batch of edits made to it so far. */
  class Buffer {
    var text: Rope
    var log: seq<seq<TextEdit>>

    constructor (content: Rope)
      ensures text == content && log == []
    {
      text := content;
      log := [];
    }

    /** `Buffer::edit`: whatever edits are given become one batch of disjoint edits, made
        all at once; edits with a character kept between any two are made as they are. */
    method Edit(edits: seq<TextEdit>)
      requires InText(edits, |text|)
      modifies this
      ensures Disjoint(Merged(edits), |old(text)|, 0)
      ensures text == ApplyEdits(old(text), Merged(edits), 0)
      ensures log == old(log) + [Merged(edits)]
      ensures Ordered(edits, |old(text)|, 0) ==> text == ApplyEdits(old(text), edits, 0)
    {
      hide *;
      var batch := [];
      NothingEffective();
      assert edits[..0] == [];
      for k := 0 to |edits|
        invariant unchanged(this) && batch == Merged(edits[..k])
      {
        MergedSnoc(edits, k);
        batch := MergeInto(batch, edits[k]);
      }
      assert edits[..|edits|] == edits;
      MergedDisjoint(edits, |text|);
      if Ordered(edits, |text|, 0) { MergedSame(text, edits); }
      text := ApplyEdits(text, batch, 0);
      log := log + [batch];
    }

    /** `Buffer::set_text`: one edit that replaces everything. */
    method SetText(content: Rope)
      modifies this
      ensures text == content
      ensures log == old(log) + [[TextEdit(0, |old(text)|, content)]]
    {
      log := log + [[TextEdit(0, |text|, content)]];
      text := content;
    }
  }

  /** What `undo_last_reject` puts back: text between two anchors. */
  datatype UndoEdit = UndoEdit(start: Anchor, end: Anchor, text: Rope)

  function ResolveUndo(log: seq<seq<TextEdit>>, undo: seq<UndoEdit>): seq<TextEdit>
    requires forall k :: 0 <= k < |undo| ==> undo[k].start.version <= |log| && undo[k].end.version <= |log|
  {
    if undo == [] then []
    else
      [TextEdit(CarryAnchor(log, undo[0].start), CarryAnchor(log, undo[0].end), undo[0].text)]
      + ResolveUndo(log, undo[1..])
  }

  /** The undo record of a batch of reverts made to version `version`, whose text was `t`. */
  function RecordUndo(t: Rope, version: nat, reverts: seq<TextEdit>): seq<UndoEdit>
    requires forall k :: 0 <= k < |reverts| ==> 0 <= reverts[k].start <= reverts[k].end <= |t|
  {
    if reverts == [] then []
    else
      [UndoEdit(Anchor.Before(version, reverts[0].start), Anchor.After(version, reverts[0].end),
                t[reverts[0].start..reverts[0].end])]
      + RecordUndo(t, version, reverts[1..])
  }

  lemma CarryOnce(log: seq<seq<TextEdit>>, start: int, end: int)
    requires log != []
    ensures CarryAnchor(log, Anchor.Before(|log| - 1, start)) == CarryBefore(log[|log| - 1], start, 0)
    ensures CarryAnchor(log, Anchor.After(|log| - 1, end)) == CarryAfter(log[|log| - 1], end, 0)
  {}

  /** With no edit in between, the recorded anchors resolve to the carried bounds. */
  lemma {:induction false} ResolveRecorded(t: Rope, log: seq<seq<TextEdit>>, all: seq<TextEdit>, reverts: seq<TextEdit>)
    requires log != [] && log[|log| - 1] == all
    requires forall k :: 0 <= k < |reverts| ==> 0 <= reverts[k].start <= reverts[k].end <= |t|
    ensures var undo := RecordUndo(t, |log| - 1, reverts);
            && (forall k :: 0 <= k < |undo| ==> undo[k].start.version <= |log| && undo[k].end.version <= |log|)
            && ResolveUndo(log, undo) == UndoEdits(t, all, reverts)
    decreases |reverts|
  {
    if reverts != [] {
      assert forall k :: 0 <= k < |reverts[1..]| ==> reverts[1..][k] == reverts[k + 1];
      ResolveRecorded(t, log, all, reverts[1..]);
      CarryOnce(log, reverts[0].start, reverts[0].end);
      var undo := RecordUndo(t, |log| - 1, reverts);
      assert undo[1..] == RecordUndo(t, |log| - 1, reverts[1..]);
      forall k | 0 <= k < |undo| ensures undo[k].start.version <= |log| && undo[k].end.version <= |log| {
        if k > 0 { assert undo[k] == undo[1..][k - 1]; }
      }
    }
  }
}
