/** Which stored hunks slip when they are rejected.  A hunk slips only if storing it moved
    it one row down already and another blank row follows, or if the engine left a blank
    line common to both sides at its start. */
module HunkShifts {
  import opened RopeText
  import opened Patches
  import Rebase
  import opened PointEdits
  import opened SnapshotDiffs
  import opened RevertRows
  import opened EngineHunks

  // ---- Where a stored hunk comes from ---------------------------------------------------------

  lemma StoredPart(base: Rope, found: seq<Edit>, buffer: Rope, m: nat) returns (i: nat, j: nat)
    requires AllInTexts(found, base, buffer) && m < |Stored(base, found, buffer)|
    ensures i <= j < |found|
    ensures var g := Stored(base, found, buffer)[m];
      var a, b := PointToRowEdit(found[i], base, buffer), PointToRowEdit(found[j], base, buffer);
      && g.oldRows == Span(a.oldRows.start, b.oldRows.end)
      && g.newRows == Span(a.newRows.start, b.newRows.end)
    ensures i < j ==> PointToRowEdit(found[j - 1], base, buffer).oldRows.end >=
                      PointToRowEdit(found[j], base, buffer).oldRows.start
  {
    hide PointToRowEdit, InTexts;
    var r := RowEdits(found, base, buffer);
    var x, y := CoalescePart(r[0], r[1..], m);
    i, j := x + 1, y + 1;
  }

  // ---- The first branch, by rows ----------------------------------------------------------------

  /** Storing the hunk moves it one row down: it starts at a blank row of both texts. */
  predicate Shifts(base: Rope, e: Edit, buffer: Rope)
    requires InTexts(e, base, buffer)
  {
    BlankAhead(base, RowAt(base, e.oldRows.start)) && BlankAhead(buffer, RowAt(buffer, e.newRows.start))
  }

  lemma StoredStart(base: Rope, e: Edit, buffer: Rope)
    requires InTexts(e, base, buffer)
    requires LineStart(base[..e.oldRows.start]) && LineStart(buffer[..e.newRows.start])
    ensures var r, d := PointToRowEdit(e, base, buffer), if Shifts(base, e, buffer) then 1 else 0;
      r.oldRows.start == RowAt(base, e.oldRows.start) + d && r.newRows.start == RowAt(buffer, e.newRows.start) + d
    ensures PointToRowEdit(e, base, buffer).oldRows.end <= RowAt(base, e.oldRows.end) + 1
    ensures Shifts(base, e, buffer) ==>
      PointToRowEdit(e, base, buffer).newRows.end == RowAt(buffer, e.newRows.end) + 1
  {
    AtLineEndRows(e, base, buffer);
  }

  /** A hunk that is not moved down leaves a blank last row of both texts alone. */
  lemma UnshiftedEnd(base: Rope, e: Edit, buffer: Rope)
    requires InTexts(e, base, buffer) && LineHunk(e, base, buffer) && !Shifts(base, e, buffer)
    requires Last(Rows(base)) == "" && Last(Rows(buffer)) == ""
    ensures PointToRowEdit(e, base, buffer).newRows.end < RowCount(buffer)
  {
    AtLineEndRows(e, base, buffer);
    LineStartRow(base, e.oldRows.start);
    BoundaryColumn(base, e.oldRows.end);
    BoundaryColumn(buffer, e.newRows.end);
    RowAtMonotone(buffer, e.newRows.end, e.newRows.end);
  }

  lemma BoundaryColumn(t: Rope, o: int)
    requires 0 <= o <= |t| && LineBoundary(t, o) && Last(Rows(t)) == ""
    ensures ColumnAt(t, o) == 0
  {
    assert t[..|t|] == t;
  }

  // ---- What makes a stored hunk slip ------------------------------------------------------------

  /** Another blank row follows the one the hunk starts at, on both sides. */
  predicate TwoBlanks(base: Rope, e: Edit, buffer: Rope)
    requires InTexts(e, base, buffer)
  {
    && Shifts(base, e, buffer)
    && BlankAhead(base, RowAt(base, e.oldRows.start) + 1)
    && BlankAhead(buffer, RowAt(buffer, e.newRows.start) + 1)
  }

  /** The hunk starts with a blank line on both sides. */
  predicate CommonBlank(base: Rope, e: Edit, buffer: Rope)
    requires InTexts(e, base, buffer)
  {
    && e.oldRows.start < e.oldRows.end && e.newRows.start < e.newRows.end
    && base[e.oldRows.start] == '\n' && buffer[e.newRows.start] == '\n'
  }

  lemma OnlyNewlineStays(base: Rope, found: seq<Edit>, buffer: Rope)
    requires OnlyNewline(base, found, buffer) && AllInTexts(found, base, buffer)
    ensures |Stored(base, found, buffer)| == 1 && !Slips(base, buffer, Stored(base, found, buffer)[0])
  {
    var e := found[0];
    assert found == [e] && [e][1..] == [];
    assert Rows(buffer) == ["", ""] by { RowsOfFirst("", ""); RowsOfOne(""); assert "" + "\n" + "" == buffer; }
    assert base[..0] == "" && buffer[..0] == "";
    RowsOfOne("");
    var r := PointToRowEdit(e, base, buffer);
    OneRowEdit(base, e, buffer, r);
    StoredStart(base, e, buffer);
    hide AtLineEnd, WholeLines;
  }

  lemma LineStartsApart(t: Rope, x: int, y: int)
    requires 0 <= x < y <= |t| && LineStart(t[..y])
    ensures RowAt(t, x) < RowAt(t, y)
  {
    RowAtBehind(t, x, y);
  }

  /** A hunk that reaches the end of the buffer reaches the end of the base. */
  lemma EndsBoth(base: Rope, found: seq<Edit>, buffer: Rope, j: nat)
    requires EditsSince(base, found, buffer) && j < |found| && found[j].newRows.end == |buffer|
    ensures found[j].oldRows.end == |base|
  {
    LinksBounds(base, found, buffer, 0, 0);
    Rebase.LinksSkip(base, found, buffer, 0, 0, j + 1);
    if j + 1 == |found| {
      assert |base[found[j].oldRows.end..]| == |buffer[found[j].newRows.end..]|;
    }
  }

  /** The last blank row of both texts is a stored hunk of its own only if the engine left a
      blank line at the start of both sides of a hunk. */
  lemma TrailingCause(base: Rope, found: seq<Edit>, buffer: Rope, m: nat) returns (n: nat)
    requires Found(base, found, buffer) && !OnlyNewline(base, found, buffer)
    requires m < |Stored(base, found, buffer)|
    requires TrailingBlank(base, buffer, Stored(base, found, buffer)[m])
    requires Stored(base, found, buffer)[m].newRows.Len() == 1
    ensures n < |found| && Shifts(base, found[n], buffer) && CommonBlank(base, found[n], buffer)
  {
    hide Rows, RowAt, PointToRowEdit, BlankAhead, Stored, EditsSince, LineStart;
    var i, j := StoredPart(base, found, buffer, m);
    n := j;
    var e := found[j];
    assert LineHunk(e, base, buffer) && LineHunk(found[i], base, buffer);
    if !Shifts(base, e, buffer) { UnshiftedEnd(base, e, buffer); }
    StoredStart(base, e, buffer);
    if i < j {
      var f := found[j - 1];
      assert LineHunk(f, base, buffer);
      StoredStart(base, f, buffer);
      KeptBetween(base, found, buffer, j);
      LineStartsApart(base, f.oldRows.end, e.oldRows.start);
    }
    assert i == j;
    LastRowEnd(buffer, e.newRows.end);
    EndsBoth(base, found, buffer, j);
    LineStartRow(base, e.oldRows.start);
    LineStartRow(buffer, e.newRows.start);
  }

  lemma KeptBetween(base: Rope, found: seq<Edit>, buffer: Rope, j: nat)
    requires EditsSince(base, found, buffer) && 0 < j < |found|
    ensures found[j - 1].oldRows.end < found[j].oldRows.start
  {}

  lemma LastRowEnd(t: Rope, o: int)
    requires 0 <= o <= |t| && LineBoundary(t, o) && RowAt(t, o) + 1 == RowCount(t) && Last(Rows(t)) == ""
    ensures o == |t|
  {
    if o < |t| { LineStartRow(t, o); }
  }

  /** Why a stored hunk slips: two blank rows in a row on both sides, or a blank line that
      the engine left at the start of both sides. */
  lemma SlipCause(base: Rope, found: seq<Edit>, buffer: Rope, m: nat) returns (n: nat)
    requires Found(base, found, buffer) && m < |Stored(base, found, buffer)|
    requires Slips(base, buffer, Stored(base, found, buffer)[m])
    ensures n < |found| && Shifts(base, found[n], buffer)
    ensures TwoBlanks(base, found[n], buffer) || CommonBlank(base, found[n], buffer)
  {
    hide Rows, RowAt, PointToRowEdit, BlankAhead, Stored, EditsSince, LineStart;
    if OnlyNewline(base, found, buffer) {
      OnlyNewlineStays(base, found, buffer);
      assert false;
    } else {
      var g := Stored(base, found, buffer)[m];
      if TrailingBlank(base, buffer, g) && g.newRows.Len() == 1 {
        n := TrailingCause(base, found, buffer, m);
      } else {
        var i, j := StoredPart(base, found, buffer, m);
        n := i;
        assert LineHunk(found[i], base, buffer);
        StoredStart(base, found[i], buffer);
      }
    }
  }

  // ---- Texts and engines for which nothing slips ------------------------------------------------

  /** No hunk of the engine starts at a blank row of both texts. */
  ghost predicate Settled(base: Rope, found: seq<Edit>, buffer: Rope)
    requires AllInTexts(found, base, buffer)
  {
    forall n :: 0 <= n < |found| ==> !Shifts(base, found[n], buffer)
  }

  /** No hunk of the engine starts with the same blank line on both sides. */
  ghost predicate Trimmed(base: Rope, found: seq<Edit>, buffer: Rope)
    requires AllInTexts(found, base, buffer)
  {
    forall n :: 0 <= n < |found| ==> !CommonBlank(base, found[n], buffer)
  }

  /** No two blank rows follow each other in front of another row. */
  ghost predicate NoTwoBlanks(t: Rope) {
    forall row :: BlankAhead(t, row) ==> !BlankAhead(t, row + 1)
  }

  ghost predicate NoneSlips(base: Rope, hunks: seq<Edit>, buffer: Rope) {
    forall m :: 0 <= m < |hunks| ==> !Slips(base, buffer, hunks[m])
  }

  lemma SettledStays(base: Rope, found: seq<Edit>, buffer: Rope)
    requires Found(base, found, buffer) && Settled(base, found, buffer)
    ensures NoneSlips(base, Stored(base, found, buffer), buffer)
  {
    hide Shifts, Slips, Stored;
    forall m | 0 <= m < |Stored(base, found, buffer)| ensures !Slips(base, buffer, Stored(base, found, buffer)[m]) {
      if Slips(base, buffer, Stored(base, found, buffer)[m]) { var n := SlipCause(base, found, buffer, m); }
    }
  }

  lemma NoTwoBlanksStays(base: Rope, found: seq<Edit>, buffer: Rope)
    requires Found(base, found, buffer) && NoTwoBlanks(base) && Trimmed(base, found, buffer)
    ensures NoneSlips(base, Stored(base, found, buffer), buffer)
  {
    hide Slips, Stored, BlankAhead, CommonBlank;
    forall m | 0 <= m < |Stored(base, found, buffer)| ensures !Slips(base, buffer, Stored(base, found, buffer)[m]) {
      if Slips(base, buffer, Stored(base, found, buffer)[m]) { var n := SlipCause(base, found, buffer, m); }
    }
  }
}
