/** From character edits to row edits.  `point_to_row_edit` widens a character edit
    to whole rows, `diff_snapshots` merges the row edits that touch; together they
    turn any character patch between two texts into a row patch between them. */
module PointEdits {
  import opened RopeText
  import opened Patches

  function Last(rows: seq<string>): string
    requires |rows| >= 1
  {
    rows[|rows| - 1]
  }

  /** The row of the point at the end of the text. */
  function Newlines(t: Rope): nat { |Rows(t)| - 1 }

  /** The rows of a concatenation: the last row of one part runs on into the first
      row of the other. */
  function GlueRows(xs: seq<string>, ys: seq<string>): seq<string>
    requires |xs| >= 1 && |ys| >= 1
  {
    xs[..|xs| - 1] + [Last(xs) + ys[0]] + ys[1..]
  }

  lemma GlueNothing(ys: seq<string>)
    requires |ys| >= 1
    ensures GlueRows([""], ys) == ys
  {
    assert "" + ys[0] == ys[0];
  }

  lemma GlueNewline(xs: seq<string>, ys: seq<string>)
    requires |xs| >= 1 && |ys| >= 1
    ensures GlueRows([""] + xs, ys) == [""] + GlueRows(xs, ys)
  {}

  lemma GlueChar(c: char, xs: seq<string>, ys: seq<string>)
    requires |xs| >= 1 && |ys| >= 1
    ensures GlueRows([[c] + xs[0]] + xs[1..], ys) == [[c] + GlueRows(xs, ys)[0]] + GlueRows(xs, ys)[1..]
  {
    if |xs| == 1 {
      assert [c] + (xs[0] + ys[0]) == [c] + xs[0] + ys[0];
    }
  }

  lemma {:induction false} Glue(a: Rope, b: Rope)
    ensures Rows(a + b) == GlueRows(Rows(a), Rows(b))
  {
    if a == "" {
      assert a + b == b;
      GlueNothing(Rows(b));
    } else {
      Glue(a[1..], b);
      assert (a + b)[1..] == a[1..] + b && (a + b)[0] == a[0];
      GlueNewline(Rows(a[1..]), Rows(b));
      GlueChar(a[0], Rows(a[1..]), Rows(b));
    }
  }

  /** Row `j` of a stretch `g` inside a text: the stretch's own row, completed on
      the left for its first row and on the right for its last. */
  lemma RowInside(l: Rope, g: Rope, r: Rope, j: nat)
    requires j <= Newlines(g)
    ensures Newlines(l + g + r) == Newlines(l) + Newlines(g) + Newlines(r)
    ensures Rows(l + g + r)[Newlines(l) + j]
            == (if j == 0 then Last(Rows(l)) else "") + Rows(g)[j] + (if j == Newlines(g) then Rows(r)[0] else "")
  {
    Glue(l, g);
    Glue(l + g, r);
    var x := Rows(l + g);
    assert |x| == Newlines(l) + Newlines(g) + 1;
    assert x[Newlines(l) + j] == (if j == 0 then Last(Rows(l)) else "") + Rows(g)[j];
  }

  /** Equal stretches of two lists of rows. */
  ghost predicate SameRange(x: seq<string>, i: int, end: int, x': seq<string>, i': int, end': int) {
    && 0 <= i <= end <= |x| && 0 <= i' <= end' <= |x'|
    && x[i..end] == x'[i'..end']
  }

  /** A stretch shared by two texts gives the same rows in both: all rows inside it;
      its first row too if it starts a line in both, and its last if it ends one. */
  lemma SharedRows(l: Rope, r: Rope, l': Rope, r': Rope, g: Rope, first: nat, last: nat,
                   i: nat, end: nat, i': nat, end': nat)
    requires first <= 1 && last <= 1
    requires first == 0 ==> Last(Rows(l)) == Last(Rows(l')) == ""
    requires last == 1 ==> Rows(r)[0] == Rows(r')[0] == ""
    requires i == Newlines(l) + first && i' == Newlines(l') + first
    requires end == Newlines(l) + Newlines(g) + last && end' == Newlines(l') + Newlines(g) + last
    requires i <= end
    ensures SameRange(Rows(l + g + r), i, end, Rows(l' + g + r'), i', end')
  {
    hide *;
    CountRows(l, g, r);
    CountRows(l', g, r');
    var x, x' := Rows(l + g + r), Rows(l' + g + r');
    forall j | i <= j < end ensures x[j] == x'[j - i + i'] {
      var m := j - Newlines(l);
      assert j - i + i' == Newlines(l') + m;
      SharedRow(l, r, l', r', g, m);
    }
    SameSlices(x, x', i, i', end, end');
  }

  lemma CountRows(l: Rope, g: Rope, r: Rope)
    ensures |Rows(l + g + r)| == RowCount(l + g + r) == Newlines(l) + Newlines(g) + Newlines(r) + 1
  {
    RowInside(l, g, r, 0);
  }

  lemma SharedRow(l: Rope, r: Rope, l': Rope, r': Rope, g: Rope, j: nat)
    requires j <= Newlines(g)
    requires j == 0 ==> Last(Rows(l)) == Last(Rows(l'))
    requires j == Newlines(g) ==> Rows(r)[0] == Rows(r')[0]
    ensures Newlines(l) + j < RowCount(l + g + r) && Newlines(l') + j < RowCount(l' + g + r')
    ensures Rows(l + g + r)[Newlines(l) + j] == Rows(l' + g + r')[Newlines(l') + j]
  {
    RowInside(l, g, r, j);
    RowInside(l', g, r', j);
  }

  lemma SameSlices(x: seq<string>, x': seq<string>, i: nat, i': nat, end: nat, end': nat)
    requires i <= end <= |x| && i' <= end' <= |x'| && end - i == end' - i'
    requires forall j :: i <= j < end ==> x[j] == x'[j - i + i']
    ensures SameRange(x, i, end, x', i', end')
  {
  }

  // ---- Widening one edit -----------------------------------------------------------

  /** The row and the column of an offset. */
  function RowAt(t: Rope, offset: int): nat
    requires 0 <= offset <= |t|
  {
    Newlines(t[..offset])
  }

  function ColumnAt(t: Rope, offset: int): nat
    requires 0 <= offset <= |t|
  {
    |Last(Rows(t[..offset]))|
  }

  lemma RowAtMonotone(t: Rope, x: int, y: int)
    requires 0 <= x <= y <= |t|
    ensures RowAt(t, x) <= RowAt(t, y) < RowCount(t)
  {
    Glue(t[..x], t[x..y]);
    assert t[..x] + t[x..y] == t[..y];
    Glue(t[..y], t[y..]);
    assert t[..y] + t[y..] == t;
  }

  /** A character edit, with ranges of offsets, is inside both texts. */
  predicate InTexts(e: Edit, oldText: Rope, newText: Rope) {
    && 0 <= e.oldRows.start <= e.oldRows.end <= |oldText|
    && 0 <= e.newRows.start <= e.newRows.end <= |newText|
  }

  /** The edit starts at the end of a line, in front of a newline that stays. */
  predicate AtLineEnd(e: Edit, oldText: Rope, newText: Rope)
    requires InTexts(e, oldText, newText)
  {
    var start := e.oldRows.start;
    RowAtMonotone(oldText, start, start);
    && ColumnAt(oldText, start) == |Rows(oldText)[RowAt(oldText, start)]|
    && e.newRows.start < |newText| && newText[e.newRows.start] == '\n'
    && start != |oldText|
  }

  /** The edit covers whole lines. */
  predicate WholeLines(e: Edit, oldText: Rope, newText: Rope)
    requires InTexts(e, oldText, newText)
  {
    ColumnAt(oldText, e.oldRows.start) == 0 && ColumnAt(oldText, e.oldRows.end) == 0
      && ColumnAt(newText, e.newRows.end) == 0
  }

  /** `point_to_row_edit`: the rows of a character edit, whose ranges are offsets. */
  function PointToRowEdit(e: Edit, oldText: Rope, newText: Rope): Edit
    requires InTexts(e, oldText, newText)
  {
    var oldStart, oldEnd := RowAt(oldText, e.oldRows.start), RowAt(oldText, e.oldRows.end);
    var newStart, newEnd := RowAt(newText, e.newRows.start), RowAt(newText, e.newRows.end);
    if AtLineEnd(e, oldText, newText) then
      Edit(Span(oldStart + 1, oldEnd + 1), Span(newStart + 1, newEnd + 1))
    else if WholeLines(e, oldText, newText) then
      Edit(Span(oldStart, oldEnd), Span(newStart, newEnd))
    else
      Edit(Span(oldStart, oldEnd + 1), Span(newStart, newEnd + 1))
  }

  /** The first row of the rest of a text is empty exactly at the end of a line. */
  lemma RestOfLine(t: Rope, offset: int)
    requires 0 <= offset <= |t|
    ensures RowAt(t, offset) < RowCount(t)
    ensures |Rows(t)[RowAt(t, offset)]| == ColumnAt(t, offset) + |Rows(t[offset..])[0]|
  {
    Glue(t[..offset], t[offset..]);
    assert t[..offset] + t[offset..] == t;
  }

  lemma NewlineAhead(t: Rope, offset: int)
    requires 0 <= offset < |t| && t[offset] == '\n'
    ensures Rows(t[offset..])[0] == "" && RowAt(t, offset) + 1 < RowCount(t)
  {
    assert t[offset..][0] == '\n';
    Glue(t[..offset], t[offset..]);
    assert t[..offset] + t[offset..] == t;
  }

  /** What the branches of `point_to_row_edit` have in common: the row edit starts
      `last` rows behind the point where the edit starts and ends `first` rows behind
      the point where it ends, on both sides. */
  lemma RowEditShape(e: Edit, oldText: Rope, newText: Rope) returns (first: nat, last: nat)
    requires InTexts(e, oldText, newText)
    ensures var r := PointToRowEdit(e, oldText, newText);
            && first <= 1 && last <= 1
            && r.oldRows == Span(RowAt(oldText, e.oldRows.start) + last, RowAt(oldText, e.oldRows.end) + first)
            && r.newRows == Span(RowAt(newText, e.newRows.start) + last, RowAt(newText, e.newRows.end) + first)
            && 0 <= r.oldRows.start <= r.oldRows.end <= RowCount(oldText) && r.oldRows.start < RowCount(oldText)
            && 0 <= r.newRows.start <= r.newRows.end <= RowCount(newText) && r.newRows.start < RowCount(newText)
    ensures last == 1 ==> Rows(oldText[e.oldRows.start..])[0] == Rows(newText[e.newRows.start..])[0] == ""
    ensures first == 0 ==> && Last(Rows(oldText[..e.oldRows.end])) == Last(Rows(newText[..e.newRows.end])) == ""
                           && Last(Rows(oldText[..e.oldRows.start])) == ""
  {
    RowAtMonotone(oldText, e.oldRows.start, e.oldRows.end);
    RowAtMonotone(newText, e.newRows.start, e.newRows.end);
    if AtLineEnd(e, oldText, newText) {
      first, last := 1, 1;
      RestOfLine(oldText, e.oldRows.start);
      NewlineAhead(newText, e.newRows.start);
      EndOfLine(oldText, e.oldRows.start);
    } else if WholeLines(e, oldText, newText) {
      first, last := 0, 0;
    } else {
      first, last := 1, 0;
    }
  }

  lemma EndOfLine(t: Rope, offset: int)
    requires 0 <= offset < |t| && Rows(t[offset..])[0] == ""
    ensures RowAt(t, offset) + 1 < RowCount(t)
  {
    assert t[offset..][0] == '\n';
    assert t[offset] == '\n';
    NewlineAhead(t, offset);
  }
}
