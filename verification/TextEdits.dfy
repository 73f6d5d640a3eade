/** Editing a buffer: a list of character edits applied all at once, anchors carried
    through it, and the edits that undo it. */
module TextEdits {
  import opened RopeText

  /** Characters `start..end` give way to `text`. */
  datatype TextEdit = TextEdit(start: int, end: int, text: string) {
    function Growth(): int { |text| - (end - start) }
    /** The edit replaces the character at `pos`. */
    predicate Replaces(pos: int) { start <= pos < end }
  }

  /** Edits one after the other, from offset `i` of a text of `n` characters on. */
  predicate Disjoint(es: seq<TextEdit>, n: nat, i: int) {
    0 <= i <= n &&
    (es != [] ==> i <= es[0].start <= es[0].end <= n && Disjoint(es[1..], n, es[0].end))
  }

  /** The same, with some character kept between any two edits. */
  predicate Ordered(es: seq<TextEdit>, n: nat, i: int): (r: bool)
    ensures r ==> Disjoint(es, n, i)
  {
    0 <= i <= n &&
    (es != [] ==>
       && i <= es[0].start <= es[0].end <= n
       && (|es| > 1 ==> es[0].end < es[1].start)
       && Ordered(es[1..], n, es[0].end))
  }

  /** `Buffer::edit`, from offset `i` on. */
  function ApplyEdits(t: Rope, es: seq<TextEdit>, i: int): Rope
    requires Disjoint(es, |t|, i)
  {
    if es == [] then t[i..]
    else t[i..es[0].start] + es[0].text + ApplyEdits(t, es[1..], es[0].end)
  }

  // ---- Undo --------------------------------------------------------------------------

  /** A position attached to the character in front of it (`anchor_before`), carried
      through the edits; `d` is the growth of the edits further in front. */
  function CarryBefore(es: seq<TextEdit>, pos: int, d: int): int {
    if es == [] || pos <= es[0].start then pos + d
    else if pos < es[0].end then es[0].start + d + |es[0].text|
    else CarryBefore(es[1..], pos, d + es[0].Growth())
  }

  /** A position attached to the character behind it (`anchor_after`). */
  function CarryAfter(es: seq<TextEdit>, pos: int, d: int): int {
    if es == [] || pos < es[0].start then pos + d
    else if pos < es[0].end then es[0].start + d + |es[0].text|
    else CarryAfter(es[1..], pos, d + es[0].Growth())
  }

  /** The edits recorded for undo, at the places where their anchors end up: the text
      each edit replaced, between its carried bounds.  `all` are the edits carried
      through, `es` the ones recorded. */
  function UndoEdits(t: Rope, all: seq<TextEdit>, es: seq<TextEdit>): seq<TextEdit>
    requires forall k :: 0 <= k < |es| ==> 0 <= es[k].start <= es[k].end <= |t|
  {
    if es == [] then []
    else
      [TextEdit(CarryBefore(all, es[0].start, 0), CarryAfter(all, es[0].end, 0), t[es[0].start..es[0].end])]
      + UndoEdits(t, all, es[1..])
  }

  /** The same with the growth counted along the way. */
  function InverseEdits(t: Rope, es: seq<TextEdit>, d: int): seq<TextEdit>
    requires forall k :: 0 <= k < |es| ==> 0 <= es[k].start <= es[k].end <= |t|
  {
    if es == [] then []
    else
      [TextEdit(es[0].start + d, es[0].start + d + |es[0].text|, t[es[0].start..es[0].end])]
      + InverseEdits(t, es[1..], d + es[0].Growth())
  }

  lemma {:induction false} OrderedInside(es: seq<TextEdit>, n: nat, i: int)
    requires Ordered(es, n, i)
    ensures forall k :: 0 <= k < |es| ==> i <= es[k].start <= es[k].end <= n
  {
    if es != [] {
      OrderedInside(es[1..], n, es[0].end);
      assert forall k :: 1 <= k < |es| ==> es[k] == es[1..][k - 1];
    }
  }

  function TotalGrowth(es: seq<TextEdit>): int {
    if es == [] then 0 else es[0].Growth() + TotalGrowth(es[1..])
  }

  /** Positions behind the edits `pre` are carried by their whole growth. */
  lemma {:induction false} CarryPast(pre: seq<TextEdit>, es: seq<TextEdit>, pos: int, d: int, n: nat, i: int)
    requires Ordered(pre, n, i) && (pre != [] ==> pre[|pre| - 1].end < pos)
    ensures CarryBefore(pre + es, pos, d) == CarryBefore(es, pos, d + TotalGrowth(pre))
    ensures CarryAfter(pre + es, pos, d) == CarryAfter(es, pos, d + TotalGrowth(pre))
  {
    if pre == [] {
      assert pre + es == es;
    } else {
      assert (pre + es)[1..] == pre[1..] + es;
      OrderedInside(pre[1..], n, pre[0].end);
      assert |pre| > 1 ==> pre[|pre| - 1] == pre[1..][|pre| - 2];
      assert pre[0].start <= pre[0].end < pos;
      CarryPast(pre[1..], es, pos, d + pre[0].Growth(), n, pre[0].end);
    }
  }

  lemma {:induction false} OrderedSnoc(pre: seq<TextEdit>, e: TextEdit, rest: seq<TextEdit>, n: nat, i: int)
    requires Ordered(pre + [e] + rest, n, i)
    ensures Ordered(pre, n, i) && (pre != [] ==> pre[|pre| - 1].end < e.start)
    ensures rest != [] ==> e.end < rest[0].start
    ensures TotalGrowth(pre + [e]) == TotalGrowth(pre) + e.Growth()
  {
    var all := pre + [e] + rest;
    if pre == [] {
      assert all[0] == e && (rest != [] ==> all[1] == rest[0]);
      assert (pre + [e])[1..] == [];
    } else {
      assert all[0] == pre[0] && all[1..] == pre[1..] + [e] + rest;
      assert (pre + [e])[1..] == pre[1..] + [e];
      OrderedSnoc(pre[1..], e, rest, n, pre[0].end);
      assert |pre| > 1 ==> all[1] == pre[1];
      assert |pre| == 1 ==> all[1] == e;
    }
  }

  /** Carried through the edit, the anchors of every recorded edit bound exactly the
      text that replaced it. */
  lemma {:induction false} UndoIsInverse(t: Rope, pre: seq<TextEdit>, es: seq<TextEdit>, all: seq<TextEdit>)
    requires all == pre + es && Ordered(all, |t|, 0)
    requires forall k :: 0 <= k < |es| ==> 0 <= es[k].start <= es[k].end <= |t|
    ensures UndoEdits(t, all, es) == InverseEdits(t, es, TotalGrowth(pre))
    decreases |es|
  {
    hide CarryBefore, CarryAfter, Ordered, TotalGrowth;
    if es != [] {
      var e, rest := es[0], es[1..];
      assert all == pre + [e] + rest;
      OrderedSnoc(pre, e, rest, |t|, 0);
      CarriedStart(pre, e, rest, |t|);
      CarriedEnd(pre, e, rest, |t|);
      assert forall k :: 0 <= k < |rest| ==> rest[k] == es[k + 1];
      UndoIsInverse(t, pre + [e], rest, all);
    }
  }

  lemma CarriedStart(pre: seq<TextEdit>, e: TextEdit, rest: seq<TextEdit>, n: nat)
    requires Ordered(pre + [e] + rest, n, 0)
    ensures CarryBefore(pre + [e] + rest, e.start, 0) == e.start + TotalGrowth(pre)
  {
    OrderedSnoc(pre, e, rest, n, 0);
    assert pre + [e] + rest == pre + ([e] + rest);
    CarryPast(pre, [e] + rest, e.start, 0, n, 0);
  }

  lemma CarriedEnd(pre: seq<TextEdit>, e: TextEdit, rest: seq<TextEdit>, n: nat)
    requires Ordered(pre + [e] + rest, n, 0)
    ensures CarryAfter(pre + [e] + rest, e.end, 0) == e.start + TotalGrowth(pre) + |e.text|
  {
    OrderedSnoc(pre, e, rest, n, 0);
    OrderedInside(pre + [e] + rest, n, 0);
    assert (pre + [e] + rest)[|pre|] == e;
    assert pre + [e] + rest == pre + ([e] + rest);
    CarryPast(pre, [e] + rest, e.end, 0, n, 0);
    assert ([e] + rest)[1..] == rest;
  }

  lemma {:induction false} InverseRestores(t: Rope, es: seq<TextEdit>, i: int, x: Rope, d: int)
    requires Ordered(es, |t|, i)
    requires forall k :: 0 <= k < |es| ==> 0 <= es[k].start <= es[k].end <= |t|
    requires 0 <= i + d <= |x| && x[i + d..] == ApplyEdits(t, es, i)
    ensures Ordered(InverseEdits(t, es, d), |x|, i + d)
    ensures ApplyEdits(x, InverseEdits(t, es, d), i + d) == t[i..]
    decreases |es|
  {
    hide *;
    if es == [] {
      InverseNothing(t, i, x, d);
    } else {
      var e, rest := es[0], es[1..];
      var d' := d + e.Growth();
      OrderedRest(es, |t|, i);
      assert forall k :: 0 <= k < |rest| ==> rest[k] == es[k + 1];
      FirstApplied(t, es, i, x, d);
      assert e.end + d' == e.start + d + |e.text| by { GrowthIs(e); }
      InverseRestores(t, rest, e.end, x, d');
      InverseCons(t, es, i, x, d, InverseEdits(t, rest, d'));
    }
  }

  lemma GrowthIs(e: TextEdit)
    ensures e.Growth() == |e.text| - (e.end - e.start)
  {}

  lemma OrderedRest(es: seq<TextEdit>, n: nat, i: int)
    requires es != [] && Ordered(es, n, i)
    ensures Ordered(es[1..], n, es[0].end)
  {}

  lemma InverseNothing(t: Rope, i: int, x: Rope, d: int)
    requires Ordered([], |t|, i)
    requires 0 <= i + d <= |x| && x[i + d..] == ApplyEdits(t, [], i)
    ensures Ordered(InverseEdits(t, [], d), |x|, i + d)
    ensures ApplyEdits(x, InverseEdits(t, [], d), i + d) == t[i..]
  {}

  lemma FirstApplied(t: Rope, es: seq<TextEdit>, i: int, x: Rope, d: int)
    requires es != [] && Ordered(es, |t|, i)
    requires 0 <= i + d <= |x| && x[i + d..] == ApplyEdits(t, es, i)
    ensures i + d <= es[0].start + d <= es[0].start + d + |es[0].text| <= |x|
    ensures x[i + d..es[0].start + d] == t[i..es[0].start]
    ensures x[es[0].end + d + es[0].Growth()..] == ApplyEdits(t, es[1..], es[0].end)
  {}

  /** The first edit and the edits that undo the others, in one list. */
  lemma InverseCons(t: Rope, es: seq<TextEdit>, i: int, x: Rope, d: int, back: seq<TextEdit>)
    requires es != [] && Ordered(es, |t|, i)
    requires forall k :: 0 <= k < |es| ==> 0 <= es[k].start <= es[k].end <= |t|
    requires back == InverseEdits(t, es[1..], d + es[0].Growth())
    requires 0 <= i + d <= es[0].start + d + |es[0].text| <= |x| && x[i + d..es[0].start + d] == t[i..es[0].start]
    requires Ordered(back, |x|, es[0].start + d + |es[0].text|)
    requires ApplyEdits(x, back, es[0].start + d + |es[0].text|) == t[es[0].end..]
    ensures Ordered(InverseEdits(t, es, d), |x|, i + d)
    ensures ApplyEdits(x, InverseEdits(t, es, d), i + d) == t[i..]
  {
    hide *;
    var f := InverseFirst(t, es, i, d);
    InverseApart(t, es, i, d);
    OrderedCons(f, back, |x|, i + d);
    AppliedCons(x, f, back, i + d);
    assert t[i..es[0].start] + t[es[0].start..es[0].end] + t[es[0].end..] == t[i..];
  }

  /** What undoes the first edit. */
  lemma InverseFirst(t: Rope, es: seq<TextEdit>, i: int, d: int) returns (f: TextEdit)
    requires es != [] && Ordered(es, |t|, i)
    requires forall k :: 0 <= k < |es| ==> 0 <= es[k].start <= es[k].end <= |t|
    ensures f == TextEdit(es[0].start + d, es[0].start + d + |es[0].text|, t[es[0].start..es[0].end])
    ensures InverseEdits(t, es, d) == [f] + InverseEdits(t, es[1..], d + es[0].Growth())
    ensures 0 <= i <= es[0].start <= es[0].end <= |t| && es[0].end + d + es[0].Growth() == f.end
  {
    f := TextEdit(es[0].start + d, es[0].start + d + |es[0].text|, t[es[0].start..es[0].end]);
  }

  /** The undo of the second edit starts behind the undo of the first. */
  lemma InverseApart(t: Rope, es: seq<TextEdit>, i: int, d: int)
    requires es != [] && Ordered(es, |t|, i)
    requires forall k :: 0 <= k < |es| ==> 0 <= es[k].start <= es[k].end <= |t|
    ensures var back := InverseEdits(t, es[1..], d + es[0].Growth());
            back != [] ==> es[0].start + d + |es[0].text| < back[0].start
  {}

  lemma OrderedCons(f: TextEdit, es: seq<TextEdit>, n: nat, i: int)
    requires 0 <= i <= f.start <= f.end <= n && Ordered(es, n, f.end) && (es != [] ==> f.end < es[0].start)
    ensures Ordered([f] + es, n, i)
  {
    assert ([f] + es)[1..] == es;
  }

  lemma AppliedCons(t: Rope, f: TextEdit, es: seq<TextEdit>, i: int)
    requires Ordered([f] + es, |t|, i) && Ordered(es, |t|, f.end)
    ensures 0 <= i <= f.start <= |t| && ApplyEdits(t, [f] + es, i) == t[i..f.start] + f.text + ApplyEdits(t, es, f.end)
  {
    assert ([f] + es)[1..] == es;
  }

  /** Undoing a reject with no edit in between restores the text exactly. */
  lemma UndoRestores(t: Rope, es: seq<TextEdit>)
    requires Ordered(es, |t|, 0)
    ensures forall k :: 0 <= k < |es| ==> 0 <= es[k].start <= es[k].end <= |t|
    ensures Ordered(UndoEdits(t, es, es), |ApplyEdits(t, es, 0)|, 0)
    ensures ApplyEdits(ApplyEdits(t, es, 0), UndoEdits(t, es, es), 0) == t
  {
    OrderedInside(es, |t|, 0);
    assert [] + es == es;
    UndoIsInverse(t, [], es, es);
    InverseRestores(t, es, 0, ApplyEdits(t, es, 0), 0);
  }
}
