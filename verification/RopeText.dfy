/** Texts as the review engine sees them: a rope is its characters, and every
    edit the engine makes replaces whole rows.  This module defines the rows of
    a rope, the offsets at which rows start, and proves that replacing a clamped
    range of rows by characters is the same as splicing the two lists of rows. */
module RopeText {

  type Rope = string

  /** The rows of a text: the pieces between newlines, at least one. */
  function Rows(t: Rope): (rows: seq<string>)
    ensures |rows| >= 1
    ensures forall k :: 0 <= k < |rows| ==> '\n' !in rows[k]
  {
    if t == "" then [""]
    else
      var rest := Rows(t[1..]);
      if t[0] == '\n' then [""] + rest else [[t[0]] + rest[0]] + rest[1..]
  }

  function RowCount(t: Rope): nat { |Rows(t)| }

  lemma RowCountIs(t: Rope)
    ensures RowCount(t) == |Rows(t)|
  {}

  /** The text whose rows are the given ones. */
  function Join(rows: seq<string>): Rope
    requires |rows| >= 1
  {
    if |rows| == 1 then rows[0] else rows[0] + "\n" + Join(rows[1..])
  }

  /** The rows, each one followed by its newline. */
  function Lines(rows: seq<string>): Rope {
    if rows == [] then "" else rows[0] + "\n" + Lines(rows[1..])
  }

  ghost predicate NewlineFree(rows: seq<string>) {
    forall k :: 0 <= k < |rows| ==> '\n' !in rows[k]
  }

  lemma {:induction false} JoinRows(t: Rope)
    ensures Join(Rows(t)) == t
  {
    if t != "" {
      JoinRows(t[1..]);
      var rest := Rows(t[1..]);
      if t[0] == '\n' {
        assert Rows(t)[1..] == rest;
      } else {
        assert Rows(t)[1..] == rest[1..];
        assert t == [t[0]] + t[1..];
      }
    }
  }

  /** Two texts with the same rows are the same text. */
  lemma RowsInjective(t: Rope, u: Rope)
    requires Rows(t) == Rows(u)
    ensures t == u
  {
    JoinRows(t);
    JoinRows(u);
  }

  lemma {:induction false} RowsOfFirst(row: string, u: Rope)
    requires '\n' !in row
    ensures Rows(row + "\n" + u) == [row] + Rows(u)
  {
    if row == "" {
      assert (row + "\n" + u)[1..] == u;
    } else {
      var t := row + "\n" + u;
      assert t[1..] == row[1..] + "\n" + u;
      RowsOfFirst(row[1..], u);
      assert [row[0]] + row[1..] == row;
    }
  }

  lemma {:induction false} RowsOfOne(row: string)
    requires '\n' !in row
    ensures Rows(row) == [row]
  {
    if row != "" {
      RowsOfOne(row[1..]);
      assert [row[0]] + row[1..] == row;
    }
  }

  lemma {:induction false} RowsJoin(rows: seq<string>)
    requires |rows| >= 1 && NewlineFree(rows)
    ensures Rows(Join(rows)) == rows
  {
    if |rows| == 1 {
      RowsOfOne(rows[0]);
    } else {
      RowsJoin(rows[1..]);
      RowsOfFirst(rows[0], Join(rows[1..]));
    }
  }

  lemma {:induction false} JoinAppend(xs: seq<string>, ys: seq<string>)
    requires |ys| >= 1
    ensures Join(xs + ys) == Lines(xs) + Join(ys)
  {
    if xs == [] {
      assert xs + ys == ys;
    } else {
      JoinAppend(xs[1..], ys);
      assert (xs + ys)[1..] == xs[1..] + ys;
    }
  }

  lemma {:induction false} LinesAppend(xs: seq<string>, ys: seq<string>)
    ensures Lines(xs + ys) == Lines(xs) + Lines(ys)
  {
    if xs == [] {
      assert xs + ys == ys;
    } else {
      LinesAppend(xs[1..], ys);
      assert (xs + ys)[1..] == xs[1..] + ys;
    }
  }

  /** The offset of `Point(row, 0)`, for a row that exists. */
  function RowStart(t: Rope, row: nat): (offset: nat)
    requires row < RowCount(t)
    ensures offset <= |t|
  {
    Cut(t, row);
    |Lines(Rows(t)[..row])|
  }

  /** The offset of `min(Point(row, 0), max_point)`: the row after the last one
      is clamped to the end of the text. */
  function RowEnd(t: Rope, row: nat): (offset: nat)
    requires row <= RowCount(t)
    ensures offset <= |t|
  {
    if row < RowCount(t) then RowStart(t, row) else |t|
  }

  lemma Cut(t: Rope, row: nat)
    requires row < RowCount(t)
    ensures t == Lines(Rows(t)[..row]) + Join(Rows(t)[row..])
  {
    JoinRows(t);
    assert Rows(t) == Rows(t)[..row] + Rows(t)[row..];
    JoinAppend(Rows(t)[..row], Rows(t)[row..]);
  }

  lemma RowStartMonotone(t: Rope, start: nat, end: nat)
    requires start <= end <= RowCount(t) && start < RowCount(t)
    ensures RowStart(t, start) <= RowEnd(t, end)
  {
    if end < RowCount(t) {
      assert Rows(t)[..end] == Rows(t)[..start] + Rows(t)[start..end];
      LinesAppend(Rows(t)[..start], Rows(t)[start..end]);
    }
  }

  /** The characters of a clamped range of rows. */
  function SliceRows(t: Rope, start: nat, end: nat): Rope
    requires start <= end <= RowCount(t) && start < RowCount(t)
  {
    RowStartMonotone(t, start, end);
    t[RowStart(t, start)..RowEnd(t, end)]
  }

  lemma SliceRowsIs(t: Rope, start: nat, end: nat)
    requires start <= end <= RowCount(t) && start < RowCount(t)
    ensures SliceRows(t, start, end) ==
            if end < RowCount(t) then Lines(Rows(t)[start..end]) else Join(Rows(t)[start..])
  {
    Cut(t, start);
    if end < RowCount(t) {
      Cut(t, end);
      assert Rows(t)[..end] == Rows(t)[..start] + Rows(t)[start..end];
      LinesAppend(Rows(t)[..start], Rows(t)[start..end]);
    }
  }

  /** `Rope::replace` over a clamped range of rows. */
  function ReplaceRows(t: Rope, start: nat, end: nat, replacement: Rope): Rope
    requires start <= end <= RowCount(t) && start < RowCount(t)
  {
    t[..RowStart(t, start)] + replacement + t[RowEnd(t, end)..]
  }

  /** The characters before and from a row, as rows. */
  lemma CutAt(t: Rope, row: nat)
    requires row <= RowCount(t)
    ensures row < RowCount(t) ==> t[..RowStart(t, row)] == Lines(Rows(t)[..row])
    ensures t[RowEnd(t, row)..] == if row < RowCount(t) then Join(Rows(t)[row..]) else ""
  {
    if row < RowCount(t) {
      Cut(t, row);
    }
  }

  /** Replacing rows through character offsets splices the lists of rows, as soon
      as the two ranges start at an existing row and agree on whether they reach
      the end of their text. */
  lemma ReplaceRowsSplices(t: Rope, start: nat, end: nat, u: Rope, uStart: nat, uEnd: nat)
    requires start <= end <= RowCount(t) && start < RowCount(t)
    requires uStart <= uEnd <= RowCount(u) && uStart < RowCount(u)
    requires end == RowCount(t) <==> uEnd == RowCount(u)
    ensures Rows(ReplaceRows(t, start, end, SliceRows(u, uStart, uEnd)))
            == Rows(t)[..start] + Rows(u)[uStart..uEnd] + Rows(t)[end..]
  {
    var rows, uRows := Rows(t), Rows(u);
    var a, m, c := rows[..start], uRows[uStart..uEnd], rows[end..];
    CutAt(t, start);
    CutAt(t, end);
    SliceRowsIs(u, uStart, uEnd);
    if end < RowCount(t) {
      ReplacedInside(a, m, c);
    } else {
      assert m == uRows[uStart..];
      ReplacedAtEnd(a, m);
      assert a + m + c == a + m;
    }
  }

  lemma ReplacedInside(a: seq<string>, m: seq<string>, c: seq<string>)
    requires NewlineFree(a) && NewlineFree(m) && NewlineFree(c) && |c| >= 1
    ensures Rows(Lines(a) + Lines(m) + Join(c)) == a + m + c
  {
    JoinAppend(a + m, c);
    LinesAppend(a, m);
    RowsJoin(a + m + c);
  }

  lemma ReplacedAtEnd(a: seq<string>, m: seq<string>)
    requires NewlineFree(a) && NewlineFree(m) && |m| >= 1
    ensures Rows(Lines(a) + Join(m) + "") == a + m
  {
    JoinAppend(a, m);
    RowsJoin(a + m);
    assert Lines(a) + Join(m) + "" == Lines(a) + Join(m);
  }
}
