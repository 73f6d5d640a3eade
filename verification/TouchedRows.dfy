/** The rows that `point_to_row_edit` widens a character edit to, exactly, in terms of the
    characters of the two texts: how many newlines lie in front of an offset, and where
    lines start. */
module TouchedRows {
  import opened RopeText
  import opened Patches
  import opened PointEdits

  // ---- Rows and lines, by characters ---------------------------------------------------------

  /** How many lines end in front of the offset. */
  ghost function LinesBefore(t: Rope, o: int): nat
    requires 0 <= o <= |t|
  {
    multiset(t[..o])['\n']
  }

  predicate LineStartsAt(t: Rope, o: int)
    requires 0 <= o <= |t|
  {
    o == 0 || t[o - 1] == '\n'
  }

  lemma {:induction false} NewlinesCounted(t: Rope)
    ensures Newlines(t) == multiset(t)['\n']
  {
    if t != "" {
      NewlinesCounted(t[1..]);
      assert t == [t[0]] + t[1..];
    }
  }

  lemma RowAtCounted(t: Rope, o: int)
    requires 0 <= o <= |t|
    ensures RowAt(t, o) == LinesBefore(t, o)
  {
    NewlinesCounted(t[..o]);
  }

  lemma {:induction false} LastRowEmpty(t: Rope)
    ensures Last(Rows(t)) == "" <==> t == "" || t[|t| - 1] == '\n'
  {
    if |t| > 1 {
      LastRowEmpty(t[1..]);
      assert t[1..][|t| - 2] == t[|t| - 1];
      if t[0] != '\n' && |Rows(t[1..])| == 1 { JoinRows(t[1..]); }
    } else if |t| == 1 {
      assert t[1..] == "";
    }
  }

  lemma ColumnZero(t: Rope, o: int)
    requires 0 <= o <= |t|
    ensures ColumnAt(t, o) == 0 <==> LineStartsAt(t, o)
  {
    LastRowEmpty(t[..o]);
  }

  lemma LinesMonotone(t: Rope, x: int, y: int)
    requires 0 <= x <= y <= |t|
    ensures LinesBefore(t, x) <= LinesBefore(t, y)
    ensures (exists o :: x <= o < y && t[o] == '\n') ==> LinesBefore(t, x) < LinesBefore(t, y)
  {
    assert t[..y] == t[..x] + t[x..y];
    if o :| x <= o < y && t[o] == '\n' {
      assert t[x..y][o - x] == '\n';
      assert '\n' in multiset(t[x..y]);
    }
  }

  // ---- The rows of an edit -------------------------------------------------------------------

  /** A newline stands where the edit starts, before and after it. */
  predicate NewlineStays(e: Edit, oldText: Rope, newText: Rope)
    requires InTexts(e, oldText, newText)
  {
    && e.oldRows.start < |oldText| && oldText[e.oldRows.start] == '\n'
    && e.newRows.start < |newText| && newText[e.newRows.start] == '\n'
  }

  /** The edit starts and ends at the start of a line, and so does what it writes. */
  predicate LineToLine(e: Edit, oldText: Rope, newText: Rope)
    requires InTexts(e, oldText, newText)
  {
    && LineStartsAt(oldText, e.oldRows.start) && LineStartsAt(oldText, e.oldRows.end)
    && LineStartsAt(newText, e.newRows.end)
  }

  /** From the row the edit starts in to the row it ends in; without the first one if its
      newline stays, without the last one if the edit runs from line to line. */
  ghost function TouchedBy(e: Edit, oldText: Rope, newText: Rope): Edit
    requires InTexts(e, oldText, newText)
  {
    var first := if NewlineStays(e, oldText, newText) then 1 else 0;
    var last := if first == 0 && LineToLine(e, oldText, newText) then 0 else 1;
    Edit(Span(LinesBefore(oldText, e.oldRows.start) + first, LinesBefore(oldText, e.oldRows.end) + last),
         Span(LinesBefore(newText, e.newRows.start) + first, LinesBefore(newText, e.newRows.end) + last))
  }

  lemma AtLineEndIff(e: Edit, oldText: Rope, newText: Rope)
    requires InTexts(e, oldText, newText)
    ensures AtLineEnd(e, oldText, newText) <==> NewlineStays(e, oldText, newText)
  {
    hide ColumnAt, RowAt;
    var o := e.oldRows.start;
    RestOfLine(oldText, o);
    if o < |oldText| { FirstOfRest(oldText, o); }
  }

  lemma FirstOfRest(t: Rope, o: int)
    requires 0 <= o < |t|
    ensures Rows(t[o..])[0] == "" <==> t[o] == '\n'
  {
    assert t[o..][0] == t[o];
  }

  lemma WholeLinesIff(e: Edit, oldText: Rope, newText: Rope)
    requires InTexts(e, oldText, newText)
    ensures WholeLines(e, oldText, newText) <==> LineToLine(e, oldText, newText)
  {
    ColumnZero(oldText, e.oldRows.start);
    ColumnZero(oldText, e.oldRows.end);
    ColumnZero(newText, e.newRows.end);
  }

  /** `point_to_row_edit` computes exactly these rows, on both sides. */
  lemma RowEditTouches(e: Edit, oldText: Rope, newText: Rope)
    requires InTexts(e, oldText, newText)
    ensures PointToRowEdit(e, oldText, newText) == TouchedBy(e, oldText, newText)
  {
    hide AtLineEnd, WholeLines, NewlineStays, LineToLine, RowAt, LinesBefore;
    AtLineEndIff(e, oldText, newText);
    WholeLinesIff(e, oldText, newText);
    RowAtCounted(oldText, e.oldRows.start);
    RowAtCounted(oldText, e.oldRows.end);
    RowAtCounted(newText, e.newRows.start);
    RowAtCounted(newText, e.newRows.end);
  }

  // ---- Rows that an edit leaves whole --------------------------------------------------------

  /** The row that runs from offset `a` to the newline at `o`. */
  predicate IsRow(t: Rope, a: int, o: int): (r: bool)
    ensures r ==> 0 <= a <= o < |t|
  {
    0 <= a <= o < |t| && LineStartsAt(t, a) && t[o] == '\n' && '\n' !in t[a..o]
  }

  lemma RowOfLine(t: Rope, a: int, o: int)
    requires IsRow(t, a, o)
    ensures LinesBefore(t, a) == LinesBefore(t, o)
  {
    assert t[..o] == t[..a] + t[a..o];
  }

  /** The row is in front of the edit, newline and all, or its newline stays where the edit
      starts, or it begins behind the edit. */
  predicate LeavesWhole(e: Edit, oldText: Rope, newText: Rope, a: int, o: int, s: Span)
    requires InTexts(e, oldText, newText)
  {
    o < s.start || (o == s.start && NewlineStays(e, oldText, newText)) || a > s.end
  }

  /** At any column: a row of the old text that the edit leaves whole is not among its old
      rows, and one of the new text not among its new rows. */
  lemma WholeRowsLeftOut(e: Edit, oldText: Rope, newText: Rope, a: int, o: int)
    requires InTexts(e, oldText, newText)
    ensures IsRow(oldText, a, o) && LeavesWhole(e, oldText, newText, a, o, e.oldRows) ==>
      !PointToRowEdit(e, oldText, newText).oldRows.Has(LinesBefore(oldText, o))
    ensures IsRow(newText, a, o) && LeavesWhole(e, oldText, newText, a, o, e.newRows) ==>
      !PointToRowEdit(e, oldText, newText).newRows.Has(LinesBefore(newText, o))
  {
    RowEditTouches(e, oldText, newText);
    if IsRow(oldText, a, o) { WholeRow(oldText, a, o, e.oldRows); }
    if IsRow(newText, a, o) { WholeRow(newText, a, o, e.newRows); }
  }

  lemma WholeRow(t: Rope, a: int, o: int, s: Span)
    requires IsRow(t, a, o) && 0 <= s.start <= s.end <= |t|
    ensures o < s.start ==> LinesBefore(t, o) < LinesBefore(t, s.start)
    ensures a > s.end ==> LinesBefore(t, o) > LinesBefore(t, s.end)
  {
    if o < s.start { LinesMonotone(t, o, s.start); }
    if a > s.end {
      assert t[a - 1] == '\n';
      LinesMonotone(t, s.end, a);
      RowOfLine(t, a, o);
    }
  }

  /** A row in front of the edit has its counterpart in the new text, and both are left out. */
  lemma RowInFrontLeftOut(oldText: Rope, e: Edit, newText: Rope, a: int, o: int)
    requires Links(oldText, [e], newText) && IsRow(oldText, a, o)
    requires 0 <= e.newRows.start <= e.newRows.end <= |newText| && InTexts(e, oldText, newText)
    requires o < e.oldRows.start || (o == e.oldRows.start && NewlineStays(e, oldText, newText))
    ensures IsRow(newText, a, o) && oldText[a..o] == newText[a..o]
    ensures LinesBefore(oldText, o) == LinesBefore(newText, o)
    ensures !PointToRowEdit(e, oldText, newText).oldRows.Has(LinesBefore(oldText, o))
    ensures !PointToRowEdit(e, oldText, newText).newRows.Has(LinesBefore(newText, o))
  {
    assert oldText[0..e.oldRows.start] == newText[0..e.newRows.start];
    assert e.oldRows.start == e.newRows.start;
    forall k | 0 <= k < e.oldRows.start ensures oldText[k] == newText[k] {
      assert oldText[0..e.oldRows.start][k] == newText[0..e.newRows.start][k];
    }
    assert oldText[..o] == newText[..o];
    assert oldText[a..o] == newText[a..o];
    WholeRowsLeftOut(e, oldText, newText, a, o);
  }
}
