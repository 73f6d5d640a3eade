/** From the diff engine's hunks to the hunks of a review.  The engine reports hunks of
    whole lines as character ranges; each is widened by `point_to_row_edit` and pushed onto
    the patch, where it is merged with the last one if they touch. */
module EngineHunks {
  import opened RopeText
  import opened Patches
  import PointEdits
  import opened SnapshotDiffs
  import PatchParts
  import RevertRows

  // ---- What the engine reports -----------------------------------------------------------------

  /** The offset is the start of a line or the end of the text. */
  predicate LineBoundary(t: Rope, o: int)
    requires 0 <= o <= |t|
  {
    o == |t| || RevertRows.LineStart(t[..o])
  }

  /** A hunk of whole lines: it starts a line on both sides. */
  predicate LineHunk(e: Edit, base: Rope, buffer: Rope)
    requires PointEdits.InTexts(e, base, buffer)
  {
    && RevertRows.LineStart(base[..e.oldRows.start]) && RevertRows.LineStart(buffer[..e.newRows.start])
    && LineBoundary(base, e.oldRows.end) && LineBoundary(buffer, e.newRows.end)
  }

  /** A buffer that is only a newline is compared as if it were empty: the one hunk
      leaves out the last newline of the base. */
  predicate OnlyNewline(base: Rope, found: seq<Edit>, buffer: Rope) {
    && buffer == "\n" && |base| > 1 && base[|base| - 1] == '\n'
    && found == [Edit(Span(0, |base| - 1), Span(0, 0))]
  }

  /** The hunks of a diff between base and buffer, in characters. */
  ghost predicate Found(base: Rope, found: seq<Edit>, buffer: Rope) {
    && EditsSince(base, found, buffer)
    && AllInTexts(found, base, buffer)
    && (OnlyNewline(base, found, buffer)
        || forall k :: 0 <= k < |found| ==> LineHunk(found[k], base, buffer))
  }

  /** The diff engine: for any two texts, the hunks of some diff between them. */
  type DiffEngine = (Rope, Rope) -> seq<Edit>

  ghost predicate FindsHunks(diff: DiffEngine) {
    && (forall base: Rope, buffer: Rope :: Found(base, diff(base, buffer), buffer))
    && (forall t: Rope :: diff(t, t) == [])
  }

  // ---- What a review stores ---------------------------------------------------------------------

  function Stored(base: Rope, found: seq<Edit>, buffer: Rope): seq<Edit>
    requires AllInTexts(found, base, buffer)
  {
    Coalesce(RowEdits(found, base, buffer))
  }

  /** The hunks of a review after a diff update. */
  ghost function Unreviewed(diff: DiffEngine, base: Rope, buffer: Rope): seq<Edit>
    requires FindsHunks(diff)
  {
    Stored(base, diff(base, buffer), buffer)
  }

  lemma EngineFinds(diff: DiffEngine, base: Rope, buffer: Rope)
    requires FindsHunks(diff)
    ensures Found(base, diff(base, buffer), buffer)
    ensures Unreviewed(diff, base, buffer) == Stored(base, diff(base, buffer), buffer)
  {}

  /** The stored hunks are a patch from base to buffer as the review needs it. */
  lemma StoredPatch(base: Rope, found: seq<Edit>, buffer: Rope)
    requires Found(base, found, buffer)
    ensures PatchParts.PatchBetween(Rows(base), Stored(base, found, buffer), Rows(buffer))
  {
    DiffLinks(base, found, buffer);
  }

  /** `Patch::push`: an edit that touches the last one extends it. */
  function Push(p: seq<Edit>, e: Edit): seq<Edit> {
    if p != [] && p[|p| - 1].oldRows.end >= e.oldRows.start then p[..|p| - 1] + [Extend(p[|p| - 1], e)]
    else p + [e]
  }

  lemma PushBehind(first: Edit, p: seq<Edit>, e: Edit)
    requires p != []
    ensures Push([first] + p, e) == [first] + Push(p, e)
  {
    var all := [first] + p;
    assert all[|all| - 1] == p[|p| - 1];
    assert all[..|all| - 1] == [first] + p[..|p| - 1];
  }

  lemma {:induction false} CoalesceFromSnoc(f: Edit, r: seq<Edit>, e: Edit)
    ensures CoalesceFrom(f, r + [e]) == Push(CoalesceFrom(f, r), e)
    decreases r
  {
    if r == [] {
      assert (r + [e])[1..] == [];
      assert [f][..0] == [];
    } else {
      assert (r + [e])[1..] == r[1..] + [e];
      if f.oldRows.end >= r[0].oldRows.start {
        CoalesceFromSnoc(Extend(f, r[0]), r[1..], e);
      } else {
        CoalesceFromSnoc(r[0], r[1..], e);
        CoalesceHead(r[0], r[1..]);
        PushBehind(f, CoalesceFrom(r[0], r[1..]), e);
      }
    }
  }

  lemma CoalesceSnoc(r: seq<Edit>, e: Edit)
    ensures Coalesce(r + [e]) == Push(Coalesce(r), e)
  {
    if r == [] {
      assert r + [e] == [e] && [e][1..] == [];
    } else {
      assert (r + [e])[1..] == r[1..] + [e];
      CoalesceFromSnoc(r[0], r[1..], e);
    }
  }

  /** The end of `update_diff`: widens the hunks of the engine and pushes them one by one. */
  method StoreHunks(base: Rope, found: seq<Edit>, buffer: Rope) returns (edits: seq<Edit>)
    requires Found(base, found, buffer)
    ensures edits == Stored(base, found, buffer)
    ensures AllInTexts(found, base, buffer) && RowsExactly(edits, TouchedEdits(found, base, buffer))
    ensures PatchParts.PatchBetween(Rows(base), edits, Rows(buffer))
  {
    hide *;
    FoundInTexts(base, found, buffer);
    ghost var all := RowEdits(found, base, buffer);
    edits := [];
    StoreNothing(all);
    for k := 0 to |found|
      invariant edits == Coalesce(all[..k])
    {
      InTextsAt(found, base, buffer, k);
      assert all[..k + 1] == all[..k] + [all[k]];
      CoalesceSnoc(all[..k], all[k]);
      edits := Push(edits, PointEdits.PointToRowEdit(found[k], base, buffer));
    }
    assert all[..|found|] == all;
    StoredIs(base, found, buffer);
    FoundSince(base, found, buffer);
    DiffRowsExactly(base, found, buffer);
    StoredPatch(base, found, buffer);
  }

  lemma FoundInTexts(base: Rope, found: seq<Edit>, buffer: Rope)
    requires Found(base, found, buffer)
    ensures AllInTexts(found, base, buffer)
  {}

  lemma FoundSince(base: Rope, found: seq<Edit>, buffer: Rope)
    requires Found(base, found, buffer)
    ensures EditsSince(base, found, buffer)
  {}

  lemma StoreNothing(r: seq<Edit>)
    ensures Coalesce(r[..0]) == []
  {}

  lemma StoredIs(base: Rope, found: seq<Edit>, buffer: Rope)
    requires AllInTexts(found, base, buffer)
    ensures Stored(base, found, buffer) == Coalesce(RowEdits(found, base, buffer))
  {}
}
