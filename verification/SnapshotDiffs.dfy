/** `diff_snapshots`: the row edits of a list of character edits, with those that
    touch merged.  The merged edits lead from the old rows to the new rows, keep a
    row between any two of them, and cover exactly what the edits cover. */
module SnapshotDiffs {
  import opened RopeText
  import opened Patches
  import opened PointEdits
  import opened TouchedRows

  predicate AllInTexts(q: seq<Edit>, oldText: Rope, newText: Rope) {
    forall k :: 0 <= k < |q| ==> InTexts(q[k], oldText, newText)
  }

  function RowEdits(q: seq<Edit>, oldText: Rope, newText: Rope): (r: seq<Edit>)
    requires AllInTexts(q, oldText, newText)
    ensures |r| == |q|
    ensures forall k :: 0 <= k < |q| ==> r[k] == PointToRowEdit(q[k], oldText, newText)
  {
    if q == [] then []
    else
      assert forall k :: 0 <= k < |q[1..]| ==> q[1..][k] == q[k + 1];
      [PointToRowEdit(q[0], oldText, newText)] + RowEdits(q[1..], oldText, newText)
  }

  /** What row edits that may overlap say about two texts: their ends move forward on
      both sides, and wherever an edit leaves a gap the rows in it are the same. */
  ghost predicate RowGaps<T>(a: seq<T>, r: seq<Edit>, b: seq<T>, i: int, j: int) {
    && 0 <= i <= |a| && 0 <= j <= |b|
    && if r == [] then a[i..] == b[j..]
       else
         var e := r[0];
         && e.oldRows.start - i == e.newRows.start - j
         && 0 <= e.oldRows.start <= e.oldRows.end <= |a| && i <= e.oldRows.end
         && 0 <= e.newRows.start <= e.newRows.end <= |b| && j <= e.newRows.end
         && (i <= e.oldRows.start ==> a[i..e.oldRows.start] == b[j..e.newRows.start])
         && RowGaps(a, r[1..], b, e.oldRows.end, e.newRows.end)
  }

  // ---- Characters to rows ------------------------------------------------------------

  lemma RowAtBehind(t: Rope, c: int, o: int)
    requires 0 <= c <= o <= |t|
    ensures RowAt(t, o) == RowAt(t, c) + Newlines(t[c..o])
    ensures c < o && Last(Rows(t[..o])) == "" ==> Newlines(t[c..o]) >= 1
  {
    var l, g := t[..c], t[c..o];
    Glue(l, g);
    assert l + g == t[..o];
    if c < o && Newlines(g) == 0 {
      JoinRows(g);
      assert g == Rows(g)[0];
    }
  }

  lemma RowAtIs(t: Rope, o: int)
    requires 0 <= o <= |t|
    ensures RowAt(t, o) == Newlines(t[..o])
  {}

  /** The rows of a gap, from `first` rows behind its start to `last` rows behind its
      end, are the same in both texts. */
  ghost predicate GapRows(oldText: Rope, newText: Rope, c: int, c': int, o: int, n: int, first: nat, last: nat)
    requires 0 <= c <= o <= |oldText| && 0 <= c' <= n <= |newText|
  {
    SameRange(Rows(oldText), RowAt(oldText, c) + first, RowAt(oldText, o) + last,
              Rows(newText), RowAt(newText, c') + first, RowAt(newText, n) + last)
  }

  /** The gap in front of an edit, as rows. */
  lemma RowGap(oldText: Rope, newText: Rope, c: int, c': int, o: int, n: int, first: nat, last: nat)
    requires 0 <= c <= o <= |oldText| && 0 <= c' <= n <= |newText|
    requires oldText[c..o] == newText[c'..n]
    requires first <= 1 && last <= 1
    requires first == 0 ==> Last(Rows(oldText[..c])) == Last(Rows(newText[..c'])) == ""
    requires last == 1 ==> Rows(oldText[o..])[0] == Rows(newText[n..])[0] == ""
    requires RowAt(oldText, c) + first <= RowAt(oldText, o) + last
    ensures RowAt(oldText, o) - RowAt(oldText, c) == RowAt(newText, n) - RowAt(newText, c')
    ensures GapRows(oldText, newText, c, c', o, n, first, last)
  {
    hide *;
    SplitText(oldText, c, o);
    SplitText(newText, c', n);
    RowAtBehind(oldText, c, o);
    RowAtBehind(newText, c', n);
    RowAtIs(oldText, c);
    RowAtIs(newText, c');
    var l, g, r, l', r' := oldText[..c], oldText[c..o], oldText[o..], newText[..c'], newText[n..];
    var i, end, i', end' :=
      RowAt(oldText, c) + first, RowAt(oldText, o) + last, RowAt(newText, c') + first, RowAt(newText, n) + last;
    SharedRows(l, r, l', r', g, first, last, i, end, i', end');
    MakeGapRows(oldText, l + g + r, newText, l' + g + r', c, c', o, n, first, last, i, end, i', end');
  }

  lemma MakeGapRows(t: Rope, u: Rope, t': Rope, u': Rope, c: int, c': int, o: int, n: int, first: nat, last: nat,
                    i: int, end: int, i': int, end': int)
    requires t == u && t' == u' && SameRange(Rows(u), i, end, Rows(u'), i', end')
    requires 0 <= c <= o <= |t| && 0 <= c' <= n <= |t'|
    requires i == RowAt(t, c) + first && end == RowAt(t, o) + last
    requires i' == RowAt(t', c') + first && end' == RowAt(t', n) + last
    ensures GapRows(t, t', c, c', o, n, first, last)
  {}

  lemma GapRowsIs(t: Rope, t': Rope, c: int, c': int, o: int, n: int, first: nat, last: nat)
    requires 0 <= c <= o <= |t| && 0 <= c' <= n <= |t'| && GapRows(t, t', c, c', o, n, first, last)
    ensures RowAt(t, c) + first <= RowAt(t, o) + last <= RowCount(t)
    ensures RowAt(t', c') + first <= RowAt(t', n) + last <= RowCount(t')
    ensures Rows(t)[RowAt(t, c) + first..RowAt(t, o) + last] == Rows(t')[RowAt(t', c') + first..RowAt(t', n) + last]
  {}

  lemma SplitText(t: Rope, c: int, o: int)
    requires 0 <= c <= o <= |t|
    ensures t == t[..c] + t[c..o] + t[o..]
  {}

  lemma RowGapEnd(oldText: Rope, newText: Rope, c: int, c': int, first: nat)
    requires 0 <= c <= |oldText| && 0 <= c' <= |newText| && oldText[c..] == newText[c'..]
    requires first <= 1
    requires first == 0 ==> Last(Rows(oldText[..c])) == Last(Rows(newText[..c'])) == ""
    ensures RowAt(oldText, c) + first <= RowCount(oldText) && RowAt(newText, c') + first <= RowCount(newText)
    ensures Rows(oldText)[RowAt(oldText, c) + first..] == Rows(newText)[RowAt(newText, c') + first..]
  {
    hide *;
    var n, m := |oldText|, |newText|;
    RowsOfOne("");
    WholeText(oldText);
    WholeText(newText);
    assert oldText[c..n] == oldText[c..] && newText[c'..m] == newText[c'..];
    RowAtMonotone(oldText, c, n);
    RowGap(oldText, newText, c, c', n, m, first, 1);
    GapRowsIs(oldText, newText, c, c', n, m, first, 1);
    SliceToEnd(Rows(oldText), RowAt(oldText, c) + first);
    SliceToEnd(Rows(newText), RowAt(newText, c') + first);
  }

  lemma WholeText(t: Rope)
    ensures t[|t|..] == "" && RowAt(t, |t|) + 1 == RowCount(t) == |Rows(t)|
  {
    assert t[..|t|] == t;
  }

  lemma SliceToEnd<T>(a: seq<T>, i: int)
    requires 0 <= i <= |a|
    ensures a[i..|a|] == a[i..]
  {}

  lemma NoRowEdits(oldText: Rope, newText: Rope)
    ensures AllInTexts([], oldText, newText) && RowEdits([], oldText, newText) == []
  {}

  lemma RowEditsTail(q: seq<Edit>, oldText: Rope, newText: Rope)
    requires AllInTexts(q, oldText, newText) && q != []
    ensures InTexts(q[0], oldText, newText) && AllInTexts(q[1..], oldText, newText)
    ensures RowEdits(q, oldText, newText)[0] == PointToRowEdit(q[0], oldText, newText)
    ensures RowEdits(q, oldText, newText)[1..] == RowEdits(q[1..], oldText, newText)
  {}

  /** The rows of a character patch, before merging. */
  lemma {:induction false} RowEditsGaps(oldText: Rope, q: seq<Edit>, newText: Rope, c: int, c': int,
                                        first: nat, i: int, j: int)
    requires LinksFrom(oldText, q, newText, c, c') && AllInTexts(q, oldText, newText)
    requires forall k :: 0 < k < |q| ==> q[k - 1].oldRows.end < q[k].oldRows.start
    requires first <= 1 && i == RowAt(oldText, c) + first && j == RowAt(newText, c') + first
    requires first == 0 ==> Last(Rows(oldText[..c])) == Last(Rows(newText[..c'])) == ""
    requires first == 1 && q != [] ==> c < q[0].oldRows.start
    ensures RowGaps(Rows(oldText), RowEdits(q, oldText, newText), Rows(newText), i, j)
    decreases |q|
  {
    hide Rows, RowEdits, AllInTexts, PointToRowEdit, RowAt, Last;
    if q == [] {
      NoRowEdits(oldText, newText);
      RowGapEnd(oldText, newText, c, c', first);
    } else {
      var e := q[0];
      var r := RowEdits(q, oldText, newText);
      RowEditsTail(q, oldText, newText);
      var first', last := RowEditShape(e, oldText, newText);
      RowEditAhead(oldText, newText, c, c', e, first, first', last);
      RowEditsGaps(oldText, q[1..], newText, e.oldRows.end, e.newRows.end, first',
                   r[0].oldRows.end, r[0].newRows.end);
    }
  }

  /** The first row edit against what lies in front of it. */
  lemma RowEditAhead(oldText: Rope, newText: Rope, c: int, c': int, e: Edit, first: nat, first': nat, last: nat)
    requires InTexts(e, oldText, newText)
    requires 0 <= c <= e.oldRows.start && 0 <= c' <= e.newRows.start
    requires oldText[c..e.oldRows.start] == newText[c'..e.newRows.start]
    requires first <= 1 && last <= 1 && first' <= 1
    requires first == 0 ==> Last(Rows(oldText[..c])) == Last(Rows(newText[..c'])) == ""
    requires first == 1 ==> c < e.oldRows.start
    requires last == 1 ==> Rows(oldText[e.oldRows.start..])[0] == Rows(newText[e.newRows.start..])[0] == ""
    requires first' == 0 ==> Last(Rows(oldText[..e.oldRows.start])) == ""
    ensures var i, j := RowAt(oldText, c) + first, RowAt(newText, c') + first;
            var s, t := RowAt(oldText, e.oldRows.start) + last, RowAt(newText, e.newRows.start) + last;
            && i <= RowCount(oldText) && j <= RowCount(newText)
            && s - i == t - j && s <= RowCount(oldText) && t <= RowCount(newText)
            && (i <= s ==> Rows(oldText)[i..s] == Rows(newText)[j..t])
            && i <= RowAt(oldText, e.oldRows.end) + first' && j <= RowAt(newText, e.newRows.end) + first'
  {
    hide Rows;
    RowAtMonotone(oldText, c, e.oldRows.start);
    RowAtMonotone(oldText, e.oldRows.start, e.oldRows.end);
    RowAtMonotone(newText, c', e.newRows.start);
    RowAtMonotone(newText, e.newRows.start, e.newRows.end);
    RowAtBehind(oldText, c, e.oldRows.start);
    RowAtBehind(newText, c', e.newRows.start);
    if RowAt(oldText, c) + first <= RowAt(oldText, e.oldRows.start) + last {
      RowGap(oldText, newText, c, c', e.oldRows.start, e.newRows.start, first, last);
    }
  }

  // ---- Merging -----------------------------------------------------------------------

  /** The edit with its ends moved to the ends of the next one. */
  function Extend(e: Edit, next: Edit): Edit {
    Edit(Span(e.oldRows.start, next.oldRows.end), Span(e.newRows.start, next.newRows.end))
  }

  /** The edits from `e` on, each merged with all that follow it without a gap. */
  function CoalesceFrom(e: Edit, r: seq<Edit>): seq<Edit>
    decreases r
  {
    if r == [] then [e]
    else if e.oldRows.end >= r[0].oldRows.start then CoalesceFrom(Extend(e, r[0]), r[1..])
    else [e] + CoalesceFrom(r[0], r[1..])
  }

  function Coalesce(r: seq<Edit>): seq<Edit> {
    if r == [] then [] else CoalesceFrom(r[0], r[1..])
  }

  lemma {:induction false} CoalesceHead(e: Edit, r: seq<Edit>)
    ensures |CoalesceFrom(e, r)| > 0
    ensures CoalesceFrom(e, r)[0].oldRows.start == e.oldRows.start
    ensures CoalesceFrom(e, r)[0].newRows.start == e.newRows.start
    decreases r
  {
    if r != [] && e.oldRows.end >= r[0].oldRows.start {
      CoalesceHead(Extend(e, r[0]), r[1..]);
    }
  }

  /** Merging keeps the meaning: the merged edits are an ordered patch between the
      same texts. */
  lemma {:induction false} CoalesceLinks<T>(a: seq<T>, e: Edit, r: seq<Edit>, b: seq<T>)
    requires 0 <= e.oldRows.start <= e.oldRows.end <= |a| && 0 <= e.newRows.start <= e.newRows.end <= |b|
    requires RowGaps(a, r, b, e.oldRows.end, e.newRows.end)
    ensures LinksFrom(a, CoalesceFrom(e, r), b, e.oldRows.start, e.newRows.start)
    decreases r
  {
    if r == [] {
      LinksCons(a, e, [], b, e.oldRows.start, e.newRows.start);
      assert [e] + [] == [e];
    } else {
      var f := r[0];
      if e.oldRows.end >= f.oldRows.start {
        CoalesceLinks(a, Extend(e, f), r[1..], b);
      } else {
        CoalesceLinks(a, f, r[1..], b);
        LinksRetreat(a, CoalesceFrom(f, r[1..]), b, e.oldRows.end, e.newRows.end, f.oldRows.start, f.newRows.start);
        LinksCons(a, e, CoalesceFrom(f, r[1..]), b, e.oldRows.start, e.newRows.start);
      }
    }
  }

  lemma SeparatedCons(e: Edit, r: seq<Edit>)
    requires Separated(r) && r != []
    requires forall k :: 0 <= k < |r| ==>
      r[k].oldRows.start <= r[k].oldRows.end && r[k].newRows.start <= r[k].newRows.end
    requires e.oldRows.end < r[0].oldRows.start && e.newRows.end < r[0].newRows.start
    ensures Separated([e] + r)
  {}

  /** ... with some row between any two of them. */
  lemma {:induction false} CoalesceSeparated<T>(a: seq<T>, e: Edit, r: seq<Edit>, b: seq<T>)
    requires 0 <= e.oldRows.start <= e.oldRows.end <= |a| && 0 <= e.newRows.start <= e.newRows.end <= |b|
    requires RowGaps(a, r, b, e.oldRows.end, e.newRows.end)
    ensures Separated(CoalesceFrom(e, r))
    decreases r
  {
    if r != [] {
      var f := r[0];
      if e.oldRows.end >= f.oldRows.start {
        CoalesceSeparated(a, Extend(e, f), r[1..], b);
      } else {
        CoalesceSeparated(a, f, r[1..], b);
        CoalesceLinks(a, f, r[1..], b);
        LinksBounds(a, CoalesceFrom(f, r[1..]), b, f.oldRows.start, f.newRows.start);
        CoalesceHead(f, r[1..]);
        SeparatedCons(e, CoalesceFrom(f, r[1..]));
      }
    }
  }

  lemma {:induction false} CoalesceAnchored(e: Edit, r: seq<Edit>, n: nat, m: nat)
    requires e.oldRows.start < n && e.newRows.start < m && Anchored(r, n, m)
    ensures Anchored(CoalesceFrom(e, r), n, m)
    decreases r
  {
    if r != [] {
      assert Anchored(r[1..], n, m);
      if e.oldRows.end >= r[0].oldRows.start {
        CoalesceAnchored(Extend(e, r[0]), r[1..], n, m);
      } else {
        CoalesceAnchored(r[0], r[1..], n, m);
      }
    }
  }

  /** Row `x` touches the edit. */
  predicate Touches(x: int, e: Edit) { e.oldRows.start <= x <= e.oldRows.end }

  predicate TouchesSome(x: int, r: seq<Edit>) {
    exists k :: 0 <= k < |r| && Touches(x, r[k])
  }

  lemma TouchesCons(x: int, e: Edit, r: seq<Edit>)
    ensures TouchesSome(x, [e] + r) <==> Touches(x, e) || TouchesSome(x, r)
  {
    var all := [e] + r;
    assert Touches(x, e) ==> Touches(x, all[0]);
    if TouchesSome(x, r) {
      var k :| 0 <= k < |r| && Touches(x, r[k]);
      assert Touches(x, all[k + 1]);
    }
  }

  /** Starts and ends of the old ranges move forward. */
  predicate Ascending(e: Edit, r: seq<Edit>)
    decreases r
  {
    e.oldRows.start <= e.oldRows.end &&
    (r != [] ==>
       && e.oldRows.start <= r[0].oldRows.start && e.oldRows.end <= r[0].oldRows.end
       && Ascending(r[0], r[1..]))
  }

  /** Merging only fills in what is covered: a row touches a merged edit exactly if
      it touches one of the edits. */
  lemma {:induction false} CoalesceCovers(e: Edit, r: seq<Edit>, x: int)
    requires Ascending(e, r)
    ensures TouchesSome(x, CoalesceFrom(e, r)) <==> Touches(x, e) || TouchesSome(x, r)
    decreases r
  {
    if r == [] {
      TouchesCons(x, e, []);
      assert [e] + [] == [e];
    } else {
      var f, rest := r[0], r[1..];
      assert r == [f] + rest;
      TouchesCons(x, f, rest);
      if e.oldRows.end >= f.oldRows.start {
        CoalesceCovers(Extend(e, f), rest, x);
      } else {
        CoalesceCovers(f, rest, x);
        TouchesCons(x, e, CoalesceFrom(f, rest));
      }
    }
  }

  function PartAt(e: Edit, r: seq<Edit>, k: int): Edit
    requires -1 <= k < |r|
  {
    if k == -1 then e else r[k]
  }

  /** A merged edit starts where one of the edits does and ends where one does; if these
      differ, the last one touched the one in front of it. */
  lemma {:induction false} CoalescePart(e: Edit, r: seq<Edit>, m: nat) returns (i: int, j: int)
    requires m < |CoalesceFrom(e, r)|
    ensures -1 <= i <= j < |r|
    ensures var g, a, b := CoalesceFrom(e, r)[m], PartAt(e, r, i), PartAt(e, r, j);
      && g.oldRows == Span(a.oldRows.start, b.oldRows.end)
      && g.newRows == Span(a.newRows.start, b.newRows.end)
    ensures i < j ==> PartAt(e, r, j - 1).oldRows.end >= r[j].oldRows.start
    decreases r
  {
    if r == [] {
      i, j := -1, -1;
    } else if e.oldRows.end >= r[0].oldRows.start {
      i, j := CoalescePart(Extend(e, r[0]), r[1..], m);
      i, j := if i == -1 then -1 else i + 1, j + 1;
    } else if m == 0 {
      i, j := -1, -1;
    } else {
      i, j := CoalescePart(r[0], r[1..], m - 1);
      i, j := i + 1, j + 1;
    }
  }

  // ---- Which rows the merged edits have ---------------------------------------------------

  ghost predicate SomeOld(r: seq<Edit>, row: int) {
    exists k :: 0 <= k < |r| && r[k].oldRows.Has(row)
  }

  ghost predicate SomeNew(r: seq<Edit>, row: int) {
    exists k :: 0 <= k < |r| && r[k].newRows.Has(row)
  }

  lemma SomeCons(e: Edit, r: seq<Edit>, row: int)
    ensures SomeOld([e] + r, row) <==> e.oldRows.Has(row) || SomeOld(r, row)
    ensures SomeNew([e] + r, row) <==> e.newRows.Has(row) || SomeNew(r, row)
  {
    var all := [e] + r;
    assert all[0] == e;
    if SomeOld(r, row) {
      var k :| 0 <= k < |r| && r[k].oldRows.Has(row);
      assert all[k + 1].oldRows.Has(row);
    }
    if SomeNew(r, row) {
      var k :| 0 <= k < |r| && r[k].newRows.Has(row);
      assert all[k + 1].newRows.Has(row);
    }
  }

  /** Starts and ends move forward on both sides, by equal gaps. */
  predicate BothAscend(e: Edit, r: seq<Edit>)
    decreases r
  {
    e.oldRows.start <= e.oldRows.end && e.newRows.start <= e.newRows.end &&
    (r != [] ==>
       && e.oldRows.start <= r[0].oldRows.start && e.oldRows.end <= r[0].oldRows.end
       && e.newRows.start <= r[0].newRows.start && e.newRows.end <= r[0].newRows.end
       && r[0].oldRows.start - e.oldRows.end == r[0].newRows.start - e.newRows.end
       && BothAscend(r[0], r[1..]))
  }

  /** A row is in a merged edit exactly if it is in one of the edits, on either side. */
  lemma {:induction false} CoalesceRows(e: Edit, r: seq<Edit>, row: int)
    requires BothAscend(e, r)
    ensures SomeOld(CoalesceFrom(e, r), row) <==> e.oldRows.Has(row) || SomeOld(r, row)
    ensures SomeNew(CoalesceFrom(e, r), row) <==> e.newRows.Has(row) || SomeNew(r, row)
    decreases r
  {
    hide SomeOld, SomeNew;
    if r == [] {
      SomeCons(e, [], row);
      assert [e] + [] == [e];
    } else {
      var f, rest := r[0], r[1..];
      assert r == [f] + rest;
      SomeCons(f, rest, row);
      if e.oldRows.end >= f.oldRows.start {
        CoalesceRows(Extend(e, f), rest, row);
      } else {
        CoalesceRows(f, rest, row);
        SomeCons(e, CoalesceFrom(f, rest), row);
      }
    }
  }

  /** The rows each character edit touches, read off the characters. */
  ghost function TouchedEdits(q: seq<Edit>, oldText: Rope, newText: Rope): (r: seq<Edit>)
    requires AllInTexts(q, oldText, newText)
    ensures |r| == |q|
    ensures forall k :: 0 <= k < |q| ==> r[k] == TouchedBy(q[k], oldText, newText)
  {
    seq(|q|, k requires 0 <= k < |q| => TouchedBy(q[k], oldText, newText))
  }

  lemma RowEditsTouch(q: seq<Edit>, oldText: Rope, newText: Rope)
    requires AllInTexts(q, oldText, newText)
    ensures RowEdits(q, oldText, newText) == TouchedEdits(q, oldText, newText)
  {
    hide PointToRowEdit, TouchedBy;
    forall k | 0 <= k < |q| ensures RowEdits(q, oldText, newText)[k] == TouchedEdits(q, oldText, newText)[k] {
      RowEditTouches(q[k], oldText, newText);
    }
  }

  /** The merged edits have exactly the rows touched, on both sides; each starts where the
      rows of some edit start and ends where those of some edit end. */
  ghost predicate RowsExactly(r: seq<Edit>, touched: seq<Edit>) {
    && (forall row :: SomeOld(r, row) <==> SomeOld(touched, row))
    && (forall row :: SomeNew(r, row) <==> SomeNew(touched, row))
    && (forall m :: 0 <= m < |r| ==> FromTo(r[m], touched))
  }

  ghost predicate FromTo(e: Edit, touched: seq<Edit>) {
    exists i, j :: 0 <= i <= j < |touched| && e == Extend(touched[i], touched[j])
  }

  lemma StartsAscend(e: Edit, f: Edit, oldText: Rope, newText: Rope)
    requires InTexts(e, oldText, newText) && InTexts(f, oldText, newText)
    requires e.oldRows.end < f.oldRows.start && e.newRows.end < f.newRows.start
    ensures TouchedBy(e, oldText, newText).oldRows.start <= TouchedBy(f, oldText, newText).oldRows.start
    ensures TouchedBy(e, oldText, newText).newRows.start <= TouchedBy(f, oldText, newText).newRows.start
  {
    LinesMonotone(oldText, e.oldRows.start, f.oldRows.start);
    LinesMonotone(newText, e.newRows.start, f.newRows.start);
  }

  ghost predicate ForwardStarts(r: seq<Edit>) {
    forall k :: 0 < k < |r| ==>
      r[k - 1].oldRows.start <= r[k].oldRows.start && r[k - 1].newRows.start <= r[k].newRows.start
  }

  lemma {:induction false} GapsAscend<T>(a: seq<T>, e: Edit, r: seq<Edit>, b: seq<T>)
    requires 0 <= e.oldRows.start <= e.oldRows.end <= |a| && 0 <= e.newRows.start <= e.newRows.end <= |b|
    requires RowGaps(a, r, b, e.oldRows.end, e.newRows.end) && ForwardStarts([e] + r)
    ensures BothAscend(e, r)
    decreases r
  {
    if r != [] {
      var all := [e] + r;
      assert all[0] == e && all[1] == r[0];
      assert ForwardStarts([r[0]] + r[1..]) by {
        assert [r[0]] + r[1..] == r;
        assert forall k :: 0 <= k < |r| ==> r[k] == all[k + 1];
      }
      GapsAscend(a, r[0], r[1..], b);
    }
  }

  lemma EditsApart(oldText: Rope, q: seq<Edit>, newText: Rope, k: nat)
    requires EditsSince(oldText, q, newText) && 0 < k < |q|
    ensures q[k - 1].oldRows.end < q[k].oldRows.start && q[k - 1].newRows.end < q[k].newRows.start
  {
    LinksApartAt(oldText, q, newText, 0, 0, k);
  }

  lemma {:induction false} LinksApartAt<T>(a: seq<T>, q: seq<Edit>, b: seq<T>, i: int, j: int, k: nat)
    requires LinksFrom(a, q, b, i, j) && 0 < k < |q|
    ensures q[k].oldRows.start - q[k - 1].oldRows.end == q[k].newRows.start - q[k - 1].newRows.end
  {
    var e, rest := q[0], q[1..];
    if k == 1 {
      var f := rest[0];
      assert |a[e.oldRows.end..f.oldRows.start]| == |b[e.newRows.end..f.newRows.start]|;
    } else {
      LinksApartAt(a, rest, b, e.oldRows.end, e.newRows.end, k - 1);
    }
  }

  /** The rows of a snapshot difference, after merging: exactly those that some character
      edit touches. */
  lemma DiffRowsExactly(oldText: Rope, q: seq<Edit>, newText: Rope)
    requires EditsSince(oldText, q, newText) && AllInTexts(q, oldText, newText)
    ensures RowsExactly(Coalesce(RowEdits(q, oldText, newText)), TouchedEdits(q, oldText, newText))
  {
    hide *;
    var r := RowEdits(q, oldText, newText);
    EditsSinceGaps(oldText, q, newText);
    RowEditsTouch(q, oldText, newText);
    forall k | 0 < k < |q|
      ensures r[k - 1].oldRows.start <= r[k].oldRows.start && r[k - 1].newRows.start <= r[k].newRows.start
    {
      InTextsAt(q, oldText, newText, k - 1);
      InTextsAt(q, oldText, newText, k);
      EditsApart(oldText, q, newText, k);
      StartsAscend(q[k - 1], q[k], oldText, newText);
    }
    MergedExactly(Rows(oldText), r, Rows(newText));
  }

  /** Every character edit leaves the row from `a` to `o` whole. */
  ghost predicate AllLeaveOld(q: seq<Edit>, oldText: Rope, newText: Rope, a: int, o: int)
    requires AllInTexts(q, oldText, newText)
  {
    forall k :: 0 <= k < |q| ==> LeavesWhole(q[k], oldText, newText, a, o, q[k].oldRows)
  }

  ghost predicate AllLeaveNew(q: seq<Edit>, oldText: Rope, newText: Rope, a: int, o: int)
    requires AllInTexts(q, oldText, newText)
  {
    forall k :: 0 <= k < |q| ==> LeavesWhole(q[k], oldText, newText, a, o, q[k].newRows)
  }

  /** No row edit has a row that all character edits leave whole, on either side. */
  ghost predicate WholeRowsOut(oldText: Rope, q: seq<Edit>, newText: Rope, r: seq<Edit>)
    requires AllInTexts(q, oldText, newText)
  {
    && (forall a, o :: IsRow(oldText, a, o) && AllLeaveOld(q, oldText, newText, a, o) ==>
          !SomeOld(r, LinesBefore(oldText, o)))
    && (forall a, o :: IsRow(newText, a, o) && AllLeaveNew(q, oldText, newText, a, o) ==>
          !SomeNew(r, LinesBefore(newText, o)))
  }

  lemma DiffLeavesOut(oldText: Rope, q: seq<Edit>, newText: Rope, r: seq<Edit>)
    requires AllInTexts(q, oldText, newText)
    requires RowsExactly(r, TouchedEdits(q, oldText, newText))
    ensures WholeRowsOut(oldText, q, newText, r)
  {
    hide IsRow, LeavesWhole, TouchedBy, PointToRowEdit, LinesBefore, InTexts;
    var touched := TouchedEdits(q, oldText, newText);
    forall a, o | IsRow(oldText, a, o) && AllLeaveOld(q, oldText, newText, a, o)
      ensures !SomeOld(r, LinesBefore(oldText, o))
    {
      forall k | 0 <= k < |touched| ensures !touched[k].oldRows.Has(LinesBefore(oldText, o)) {
        RowEditTouches(q[k], oldText, newText);
        WholeRowsLeftOut(q[k], oldText, newText, a, o);
      }
    }
    forall a, o | IsRow(newText, a, o) && AllLeaveNew(q, oldText, newText, a, o)
      ensures !SomeNew(r, LinesBefore(newText, o))
    {
      forall k | 0 <= k < |touched| ensures !touched[k].newRows.Has(LinesBefore(newText, o)) {
        RowEditTouches(q[k], oldText, newText);
        WholeRowsLeftOut(q[k], oldText, newText, a, o);
      }
    }
  }

  lemma MergedExactly<T>(a: seq<T>, r: seq<Edit>, b: seq<T>)
    requires RowGaps(a, r, b, 0, 0)
    requires forall k :: 0 < k < |r| ==>
      r[k - 1].oldRows.start <= r[k].oldRows.start && r[k - 1].newRows.start <= r[k].newRows.start
    ensures RowsExactly(Coalesce(r), r)
  {
    if r != [] {
      var e, rest := r[0], r[1..];
      FirstGaps(a, r, b);
      hide SomeOld, SomeNew, BothAscend, RowGaps, CoalesceFrom, FromTo;
      assert [e] + rest == r;
      GapsAscend(a, e, rest, b);
      forall row
        ensures SomeOld(Coalesce(r), row) <==> SomeOld(r, row)
        ensures SomeNew(Coalesce(r), row) <==> SomeNew(r, row)
      {
        CoalesceRows(e, rest, row);
        SomeCons(e, rest, row);
      }
      forall m | 0 <= m < |Coalesce(r)| ensures FromTo(Coalesce(r)[m], r) {
        PartFromTo(r, m);
      }
    }
  }

  lemma FirstGaps<T>(a: seq<T>, r: seq<Edit>, b: seq<T>)
    requires r != [] && RowGaps(a, r, b, 0, 0)
    ensures 0 <= r[0].oldRows.start <= r[0].oldRows.end <= |a| && 0 <= r[0].newRows.start <= r[0].newRows.end <= |b|
    ensures RowGaps(a, r[1..], b, r[0].oldRows.end, r[0].newRows.end)
  {}

  lemma PartFromTo(r: seq<Edit>, m: nat)
    requires r != [] && m < |Coalesce(r)|
    ensures FromTo(Coalesce(r)[m], r)
  {
    hide CoalesceFrom;
    var i, j := CoalescePart(r[0], r[1..], m);
    assert PartAt(r[0], r[1..], i) == r[i + 1] && PartAt(r[0], r[1..], j) == r[j + 1];
    assert Coalesce(r)[m] == Extend(r[i + 1], r[j + 1]);
  }

  // ---- The whole function --------------------------------------------------------------

  /** What a text buffer reports as the edits since an older snapshot: a character
      patch between the two, with some character kept between any two edits. */
  ghost predicate EditsSince(oldText: Rope, q: seq<Edit>, newText: Rope) {
    && Links(oldText, q, newText)
    && (forall k :: 0 < k < |q| ==> q[k - 1].oldRows.end < q[k].oldRows.start)
  }

  lemma EditsSinceInTexts(oldText: Rope, q: seq<Edit>, newText: Rope)
    requires EditsSince(oldText, q, newText)
    ensures AllInTexts(q, oldText, newText)
  {
    LinksBounds(oldText, q, newText, 0, 0);
  }

  lemma RowEditsAnchored(oldText: Rope, q: seq<Edit>, newText: Rope)
    requires AllInTexts(q, oldText, newText)
    ensures Anchored(RowEdits(q, oldText, newText), RowCount(oldText), RowCount(newText))
  {
    forall k | 0 <= k < |q|
      ensures PointToRowEdit(q[k], oldText, newText).oldRows.start < RowCount(oldText)
      ensures PointToRowEdit(q[k], oldText, newText).newRows.start < RowCount(newText)
    {
      var first, last := RowEditShape(q[k], oldText, newText);
    }
  }

  /** The row edits of a snapshot difference lead from the old rows to the new rows,
      keep a row between any two of them, and start at existing rows. */
  lemma DiffLinks(oldText: Rope, q: seq<Edit>, newText: Rope)
    requires EditsSince(oldText, q, newText)
    ensures AllInTexts(q, oldText, newText)
    ensures var r := Coalesce(RowEdits(q, oldText, newText));
            && Links(Rows(oldText), r, Rows(newText)) && Separated(r)
            && Anchored(r, RowCount(oldText), RowCount(newText))
  {
    hide *;
    EditsSinceInTexts(oldText, q, newText);
    EditsSinceGaps(oldText, q, newText);
    RowEditsAnchored(oldText, q, newText);
    RowCountIs(oldText);
    RowCountIs(newText);
    CoalescedPatch(Rows(oldText), RowEdits(q, oldText, newText), Rows(newText));
  }

  lemma EditsSinceGaps(oldText: Rope, q: seq<Edit>, newText: Rope)
    requires EditsSince(oldText, q, newText) && AllInTexts(q, oldText, newText)
    ensures RowGaps(Rows(oldText), RowEdits(q, oldText, newText), Rows(newText), 0, 0)
  {
    assert oldText[..0] == "" && newText[..0] == "";
    RowsOfOne("");
    RowEditsGaps(oldText, q, newText, 0, 0, 0, 0, 0);
  }

  /** Merging turns row edits with equal gaps into a patch. */
  lemma CoalescedPatch<T>(a: seq<T>, r: seq<Edit>, b: seq<T>)
    requires RowGaps(a, r, b, 0, 0) && Anchored(r, |a|, |b|)
    ensures Links(a, Coalesce(r), b) && Separated(Coalesce(r)) && Anchored(Coalesce(r), |a|, |b|)
  {
    if r != [] {
      CoalesceLinks(a, r[0], r[1..], b);
      CoalesceSeparated(a, r[0], r[1..], b);
      CoalesceAnchored(r[0], r[1..], |a|, |b|);
      LinksRetreat(a, Coalesce(r), b, 0, 0, r[0].oldRows.start, r[0].newRows.start);
    }
  }

  /** `point_to_row_edit` is sound in all its branches: replacing the rows it computes,
      clamped at the end of the text, by its rows of the new text gives the new text. */
  lemma PointToRowEditSound(oldText: Rope, e: Edit, newText: Rope)
    requires Links(oldText, [e], newText)
    ensures InTexts(e, oldText, newText)
    ensures var r := PointToRowEdit(e, oldText, newText);
            && 0 <= r.oldRows.start <= r.oldRows.end <= RowCount(oldText) && r.oldRows.start < RowCount(oldText)
            && 0 <= r.newRows.start <= r.newRows.end <= RowCount(newText) && r.newRows.start < RowCount(newText)
            && ReplaceRows(oldText, r.oldRows.start, r.oldRows.end,
                           SliceRows(newText, r.newRows.start, r.newRows.end)) == newText
  {
    hide Rows, AtLineEnd, WholeLines, ReplaceRows, SliceRows;
    LinksBounds(oldText, [e], newText, 0, 0);
    var first, last := RowEditShape(e, oldText, newText);
    DiffLinks(oldText, [e], newText);
    var r := PointToRowEdit(e, oldText, newText);
    OneRowEdit(oldText, e, newText, r);
    var a, b := Rows(oldText), Rows(newText);
    SpliceLinks(a, [r], b, 0, 0);
    SpliceOne(a, r, b, 0);
    assert a[0..] == a && b[0..] == b;
    assert |a[r.oldRows.end..]| == |b[r.newRows.end..]|;
    ReplaceRowsSplices(oldText, r.oldRows.start, r.oldRows.end, newText, r.newRows.start, r.newRows.end);
    RowsInjective(ReplaceRows(oldText, r.oldRows.start, r.oldRows.end,
                              SliceRows(newText, r.newRows.start, r.newRows.end)), newText);
  }

  lemma OneRowEdit(oldText: Rope, e: Edit, newText: Rope, r: Edit)
    requires AllInTexts([e], oldText, newText) && InTexts(e, oldText, newText)
    requires r == PointToRowEdit(e, oldText, newText)
    ensures Coalesce(RowEdits([e], oldText, newText)) == [r]
  {}

  /** `diff_snapshots`: the row edits between two snapshots, from the character edits
      since the older one. */
  method DiffSnapshots(oldText: Rope, newText: Rope, edits: seq<Edit>) returns (rowEdits: seq<Edit>)
    requires EditsSince(oldText, edits, newText)
    ensures AllInTexts(edits, oldText, newText)
    ensures rowEdits == Coalesce(RowEdits(edits, oldText, newText))
    ensures RowsExactly(rowEdits, TouchedEdits(edits, oldText, newText))
    ensures WholeRowsOut(oldText, edits, newText, rowEdits)
    ensures Links(Rows(oldText), rowEdits, Rows(newText)) && Separated(rowEdits)
    ensures Anchored(rowEdits, |Rows(oldText)|, |Rows(newText)|)
  {
    hide *;
    DiffLinks(oldText, edits, newText);
    DiffRowsExactly(oldText, edits, newText);
    DiffLeavesOut(oldText, edits, newText, Coalesce(RowEdits(edits, oldText, newText)));
    RowCountIs(oldText);
    RowCountIs(newText);
    ghost var all := RowEdits(edits, oldText, newText);
    var i := 0;
    rowEdits := [];
    assert all[0..] == all;
    while i < |edits|
      invariant i <= |edits|
      invariant rowEdits + Coalesce(all[i..]) == Coalesce(all)
    {
      InTextsAt(edits, oldText, newText, i);
      var edit := PointToRowEdit(edits[i], oldText, newText);
      CoalesceStart(all, i);
      i := i + 1;
      while i < |edits|
        invariant i <= |edits|
        invariant rowEdits + CoalesceFrom(edit, all[i..]) == Coalesce(all)
      {
        InTextsAt(edits, oldText, newText, i);
        var nextEdit := PointToRowEdit(edits[i], oldText, newText);
        CoalesceNext(edit, all, i);
        if edit.oldRows.end >= nextEdit.oldRows.start {
          edit := Extend(edit, nextEdit);
          i := i + 1;
        } else {
          break;
        }
      }
      CoalesceStop(rowEdits, edit, all, i);
      rowEdits := rowEdits + [edit];
    }
    CoalesceDone(rowEdits, all);
  }

  lemma InTextsAt(q: seq<Edit>, oldText: Rope, newText: Rope, k: nat)
    requires AllInTexts(q, oldText, newText) && k < |q|
    ensures InTexts(q[k], oldText, newText)
  {
  }

  lemma CoalesceStart(r: seq<Edit>, i: nat)
    requires i < |r|
    ensures Coalesce(r[i..]) == CoalesceFrom(r[i], r[i + 1..])
  {}

  lemma CoalesceNext(e: Edit, r: seq<Edit>, i: nat)
    requires i < |r|
    ensures CoalesceFrom(e, r[i..])
            == if e.oldRows.end >= r[i].oldRows.start then CoalesceFrom(Extend(e, r[i]), r[i + 1..])
               else [e] + CoalesceFrom(r[i], r[i + 1..])
  {}

  lemma CoalesceStop(done: seq<Edit>, e: Edit, r: seq<Edit>, i: nat)
    requires i <= |r| && (i < |r| ==> e.oldRows.end < r[i].oldRows.start)
    ensures done + CoalesceFrom(e, r[i..]) == done + [e] + Coalesce(r[i..])
  {}

  lemma CoalesceDone(done: seq<Edit>, r: seq<Edit>)
    ensures done + Coalesce(r[|r|..]) == done
  {
  }
}
