/** What `Buffer::edit` makes of the edits it is given: inverted ranges are turned round,
    edits that change nothing are skipped, and one that starts inside the one before it is
    merged with it. */
module EditBatches {
  import opened RopeText
  import opened TextEdits

  function TurnedRound(e: TextEdit): TextEdit {
    if e.start > e.end then TextEdit(e.end, e.start, e.text) else e
  }

  predicate ChangesNothing(e: TextEdit) { e.text == "" && e.start == e.end }

  /** One round of the loop. */
  function MergeInto(batch: seq<TextEdit>, e: TextEdit): seq<TextEdit> {
    var f := TurnedRound(e);
    if ChangesNothing(f) then batch
    else if batch != [] && batch[|batch| - 1].end > f.start then
      var last := batch[|batch| - 1];
      batch[..|batch| - 1] + [TextEdit(last.start, if last.end >= f.end then last.end else f.end, last.text + f.text)]
    else batch + [f]
  }

  function Merged(es: seq<TextEdit>): seq<TextEdit> {
    if es == [] then [] else MergeInto(Merged(es[..|es| - 1]), es[|es| - 1])
  }

  lemma MergedSnoc(es: seq<TextEdit>, k: nat)
    requires k < |es|
    ensures Merged(es[..k + 1]) == MergeInto(Merged(es[..k]), es[k])
  {
    assert es[..k + 1][..k] == es[..k];
  }

  /** All offsets are places of a text of `n` characters. */
  ghost predicate InText(es: seq<TextEdit>, n: nat) {
    forall k :: 0 <= k < |es| ==> 0 <= es[k].start <= n && 0 <= es[k].end <= n
  }

  // ---- Any edits become disjoint ones ------------------------------------------------------------

  ghost predicate EndToEnd(es: seq<TextEdit>, n: nat) {
    && (forall k :: 0 <= k < |es| ==> 0 <= es[k].start <= es[k].end <= n)
    && (forall k :: 0 < k < |es| ==> es[k - 1].end <= es[k].start)
  }

  lemma {:induction false} EndToEndDisjoint(es: seq<TextEdit>, n: nat, i: int)
    requires EndToEnd(es, n) && 0 <= i <= n && (es != [] ==> i <= es[0].start)
    ensures Disjoint(es, n, i)
  {
    if es != [] {
      var rest := es[1..];
      assert EndToEnd(rest, n) by {
        assert forall k :: 0 <= k < |rest| ==> rest[k] == es[k + 1];
      }
      EndToEndDisjoint(rest, n, es[0].end);
    }
  }

  lemma MergeIntoEndToEnd(batch: seq<TextEdit>, e: TextEdit, n: nat)
    requires EndToEnd(batch, n) && 0 <= e.start <= n && 0 <= e.end <= n
    ensures EndToEnd(MergeInto(batch, e), n)
  {}

  lemma {:induction false} MergedEndToEnd(es: seq<TextEdit>, n: nat)
    requires InText(es, n)
    ensures EndToEnd(Merged(es), n)
  {
    if es != [] {
      MergedEndToEnd(es[..|es| - 1], n);
      MergeIntoEndToEnd(Merged(es[..|es| - 1]), es[|es| - 1], n);
    }
  }

  /** Whatever edits are given, what is made is disjoint edits in order. */
  lemma MergedDisjoint(es: seq<TextEdit>, n: nat)
    requires InText(es, n)
    ensures Disjoint(Merged(es), n, 0)
  {
    MergedEndToEnd(es, n);
    EndToEndDisjoint(Merged(es), n, 0);
  }

  // ---- What the batch keeps of the edits ---------------------------------------------------------

  /** All that the edits write, in order. */
  function Texts(es: seq<TextEdit>): string {
    if es == [] then "" else Texts(es[..|es| - 1]) + es[|es| - 1].text
  }

  lemma MergeIntoTexts(batch: seq<TextEdit>, e: TextEdit)
    ensures Texts(MergeInto(batch, e)) == Texts(batch) + e.text
  {
    var after := MergeInto(batch, e);
    if after != batch && |after| == |batch| + 1 {
      assert after[..|after| - 1] == batch;
    } else if after != batch {
      var n := |batch| - 1;
      assert after[..n] == batch[..n];
      assert Texts(batch) == Texts(batch[..n]) + batch[n].text;
      assert Texts(after) == Texts(after[..n]) + after[n].text;
      Grouped(Texts(batch[..n]), batch[n].text, e.text);
    } else {
      MergedNothing(batch, e);
    }
  }

  lemma Grouped(a: string, b: string, c: string)
    ensures a + (b + c) == a + b + c
  {}

  lemma MergedNothing(batch: seq<TextEdit>, e: TextEdit)
    requires MergeInto(batch, e) == batch
    ensures e.text == "" && Texts(batch) + e.text == Texts(batch)
  {
    if !ChangesNothing(TurnedRound(e)) && batch != [] {
      var last := batch[|batch| - 1];
      assert MergeInto(batch, e)[|batch| - 1] == last;
      assert |last.text + e.text| == |last.text|;
    }
  }

  /** Whatever the ranges, the batch writes what the edits write, in their order. */
  lemma {:induction false} MergedTexts(es: seq<TextEdit>)
    ensures Texts(Merged(es)) == Texts(es)
  {
    if es != [] {
      hide MergeInto;
      MergedTexts(es[..|es| - 1]);
      MergeIntoTexts(Merged(es[..|es| - 1]), es[|es| - 1]);
    }
  }

  ghost predicate SomeReplaces(es: seq<TextEdit>, pos: int) {
    exists k :: 0 <= k < |es| && es[k].Replaces(pos)
  }

  ghost predicate SomeTurnedReplaces(es: seq<TextEdit>, pos: int) {
    exists k :: 0 <= k < |es| && TurnedRound(es[k]).Replaces(pos)
  }

  /** Turned round, the edits start one behind the other, or at the same place. */
  ghost predicate StartsInOrder(es: seq<TextEdit>) {
    forall k :: 0 < k < |es| ==> TurnedRound(es[k - 1]).start <= TurnedRound(es[k]).start
  }

  lemma MergeIntoReplaces(batch: seq<TextEdit>, e: TextEdit, pos: int)
    requires batch != [] ==> batch[|batch| - 1].start <= TurnedRound(e).start
    requires forall k :: 0 <= k < |batch| ==> batch[k].start <= batch[k].end
    ensures SomeReplaces(MergeInto(batch, e), pos) <==> SomeReplaces(batch, pos) || TurnedRound(e).Replaces(pos)
    ensures MergeInto(batch, e) != [] ==>
      MergeInto(batch, e)[|MergeInto(batch, e)| - 1].start <= TurnedRound(e).start
  {
    var after, f := MergeInto(batch, e), TurnedRound(e);
    if SomeReplaces(batch, pos) {
      var k :| 0 <= k < |batch| && batch[k].Replaces(pos);
      assert after[k].Replaces(pos);
    }
    if f.Replaces(pos) { assert after[|after| - 1].Replaces(pos); }
    if k :| 0 <= k < |after| && after[k].Replaces(pos) {
      assert k < |batch| && !f.Replaces(pos) ==> batch[k].Replaces(pos);
    }
  }

  /** If the edits start in order, the batch replaces exactly the characters that some edit
      replaces. */
  lemma {:induction false} MergedReplaces(es: seq<TextEdit>, n: nat, pos: int)
    requires InText(es, n) && StartsInOrder(es)
    ensures SomeReplaces(Merged(es), pos) <==> SomeTurnedReplaces(es, pos)
    ensures Merged(es) != [] ==> Merged(es)[|Merged(es)| - 1].start <= TurnedRound(es[|es| - 1]).start
  {
    if es != [] {
      hide *;
      var init, e := es[..|es| - 1], es[|es| - 1];
      OrderInit(es, n);
      MergedReplaces(init, n, pos);
      MergedEndToEnd(init, n);
      MergedLast(es);
      BatchRanges(Merged(init), n);
      MergeIntoReplaces(Merged(init), e, pos);
      SomeTurnedLast(es, pos);
      NothingMerged();
    } else {
      NothingReplaced(es, pos);
    }
  }

  lemma NothingMerged()
    ensures Merged([]) == []
  {}

  lemma NothingReplaced(es: seq<TextEdit>, pos: int)
    requires es == []
    ensures Merged(es) == [] && !SomeReplaces([], pos) && !SomeTurnedReplaces(es, pos)
  {}

  lemma OrderInit(es: seq<TextEdit>, n: nat)
    requires es != [] && InText(es, n) && StartsInOrder(es)
    ensures InText(es[..|es| - 1], n) && StartsInOrder(es[..|es| - 1])
    ensures |es| > 1 ==> TurnedRound(es[|es| - 2]).start <= TurnedRound(es[|es| - 1]).start
  {}

  lemma BatchRanges(batch: seq<TextEdit>, n: nat)
    requires EndToEnd(batch, n)
    ensures forall k :: 0 <= k < |batch| ==> batch[k].start <= batch[k].end
  {}

  lemma SomeTurnedLast(es: seq<TextEdit>, pos: int)
    requires es != []
    ensures SomeTurnedReplaces(es, pos) <==>
      SomeTurnedReplaces(es[..|es| - 1], pos) || TurnedRound(es[|es| - 1]).Replaces(pos)
  {
    hide TurnedRound;
    var init := es[..|es| - 1];
    if SomeTurnedReplaces(init, pos) {
      var k :| 0 <= k < |init| && TurnedRound(init[k]).Replaces(pos);
      assert TurnedRound(es[k]).Replaces(pos);
    }
    if k :| 0 <= k < |es| && TurnedRound(es[k]).Replaces(pos) {
      assert k < |init| ==> TurnedRound(init[k]).Replaces(pos);
    }
  }

  // ---- Ordered edits are made as they are --------------------------------------------------------

  /** The edits that change something. */
  function Effective(es: seq<TextEdit>): seq<TextEdit> {
    if es == [] then []
    else (if ChangesNothing(es[0]) then [] else [es[0]]) + Effective(es[1..])
  }

  lemma EffectiveFirst(es: seq<TextEdit>)
    requires es != []
    ensures Effective(es) == (if ChangesNothing(es[0]) then [] else [es[0]]) + Effective(es[1..])
  {}

  lemma NothingEffective()
    ensures Effective([]) == [] && Merged([]) == []
  {}

  lemma {:induction false} EffectiveSnoc(es: seq<TextEdit>, e: TextEdit)
    ensures Effective(es + [e]) == Effective(es) + (if ChangesNothing(e) then [] else [e])
  {
    hide *;
    EffectiveFirst(es + [e]);
    NothingEffective();
    if es == [] {
      assert (es + [e])[1..] == [];
    } else {
      assert (es + [e])[1..] == es[1..] + [e];
      EffectiveFirst(es);
      EffectiveSnoc(es[1..], e);
    }
  }

  ghost predicate EndBelow(es: seq<TextEdit>, hi: int) {
    forall k :: 0 <= k < |es| ==> es[k].end < hi
  }

  lemma {:induction false} EffectiveBelow(es: seq<TextEdit>, hi: int)
    requires EndBelow(es, hi)
    ensures EndBelow(Effective(es), hi)
  {
    if es != [] {
      assert EndBelow(es[1..], hi) by { assert forall k :: 0 <= k < |es[1..]| ==> es[1..][k] == es[k + 1]; }
      EffectiveBelow(es[1..], hi);
    }
  }

  /** Ranges are not inverted and no edit reaches into the next one. */
  ghost predicate Forward(es: seq<TextEdit>) {
    && (forall k :: 0 <= k < |es| ==> es[k].start <= es[k].end)
    && (forall k, l :: 0 <= k < l < |es| ==> es[k].end < es[l].start)
  }

  lemma {:induction false} OrderedForward(es: seq<TextEdit>, n: nat, i: int)
    requires Ordered(es, n, i)
    ensures Forward(es)
  {
    if es != [] {
      var rest := es[1..];
      OrderedForward(rest, n, es[0].end);
      forall k, l | 0 <= k < l < |es| ensures es[k].end < es[l].start {
        assert es[l] == rest[l - 1] && es[1] == rest[0];
        if k > 0 { assert es[k] == rest[k - 1]; }
      }
      forall k | 0 <= k < |es| ensures es[k].start <= es[k].end {
        if k > 0 { assert es[k] == rest[k - 1]; }
      }
    }
  }

  lemma {:induction false} MergedIsEffective(es: seq<TextEdit>)
    requires Forward(es)
    ensures Merged(es) == Effective(es)
  {
    hide *;
    if es == [] {
      NothingEffective();
    } else {
      var init, e := es[..|es| - 1], es[|es| - 1];
      assert es == init + [e];
      ForwardInit(es);
      MergedIsEffective(init);
      EffectiveSnoc(init, e);
      MergedLast(es);
      EffectiveBelow(init, e.start);
      MergeBehind(Effective(init), e);
    }
  }

  lemma MergedLast(es: seq<TextEdit>)
    requires es != []
    ensures Merged(es) == MergeInto(Merged(es[..|es| - 1]), es[|es| - 1])
  {}

  lemma MergeBehind(batch: seq<TextEdit>, e: TextEdit)
    requires e.start <= e.end && EndBelow(batch, e.start)
    ensures MergeInto(batch, e) == batch + (if ChangesNothing(e) then [] else [e])
  {}

  lemma ForwardInit(es: seq<TextEdit>)
    requires es != [] && Forward(es)
    ensures Forward(es[..|es| - 1]) && es[|es| - 1].start <= es[|es| - 1].end
    ensures EndBelow(es[..|es| - 1], es[|es| - 1].start)
  {
    var init := es[..|es| - 1];
    assert forall k :: 0 <= k < |init| ==> init[k] == es[k];
  }

  lemma ApplyAdvance(t: Rope, es: seq<TextEdit>, i: int, s: int)
    requires 0 <= i <= s && Disjoint(es, |t|, s)
    ensures Disjoint(es, |t|, i) && ApplyEdits(t, es, i) == t[i..s] + ApplyEdits(t, es, s)
  {
    if es == [] {
      TwoSlices(t, i, s, |t|);
    } else {
      TwoSlices(t, i, s, es[0].start);
      Regroup(t[i..s], t[s..es[0].start], es[0].text, ApplyEdits(t, es[1..], es[0].end));
    }
  }

  lemma Regroup(a: Rope, b: Rope, c: Rope, d: Rope)
    ensures a + b + c + d == a + (b + c + d)
  {}

  lemma TwoSlices(t: Rope, i: int, j: int, k: int)
    requires 0 <= i <= j <= k <= |t|
    ensures t[i..k] == t[i..j] + t[j..k]
  {}

  lemma {:induction false} EffectiveSame(t: Rope, es: seq<TextEdit>, i: int)
    requires Ordered(es, |t|, i)
    ensures Disjoint(Effective(es), |t|, i) && ApplyEdits(t, Effective(es), i) == ApplyEdits(t, es, i)
  {
    if es != [] {
      var e, rest := es[0], Effective(es[1..]);
      EffectiveSame(t, es[1..], e.end);
      if ChangesNothing(e) {
        ApplyAdvance(t, rest, i, e.end);
        assert Effective(es) == rest;
      } else {
        assert ([e] + rest)[1..] == rest;
      }
    }
  }

  lemma ForwardRest(es: seq<TextEdit>)
    requires es != [] && Forward(es)
    ensures Forward(es[1..]) && es[0].start <= es[0].end
    ensures forall k :: 0 <= k < |es[1..]| ==> es[0].end < es[1..][k].start
  {
    assert forall k :: 0 <= k < |es[1..]| ==> es[1..][k] == es[k + 1];
  }

  /** How an anchor passes the first edit. */
  lemma CarryFirst(es: seq<TextEdit>, pos: int, d: int)
    requires es != []
    ensures CarryBefore(es, pos, d) ==
      if pos <= es[0].start then pos + d
      else if pos < es[0].end then es[0].start + d + |es[0].text|
      else CarryBefore(es[1..], pos, d + es[0].Growth())
    ensures CarryAfter(es, pos, d) ==
      if pos < es[0].start then pos + d
      else if pos < es[0].end then es[0].start + d + |es[0].text|
      else CarryAfter(es[1..], pos, d + es[0].Growth())
  {}

  /** Anchors in front of all edits stay. */
  lemma CarryInFront(es: seq<TextEdit>, pos: int, d: int)
    requires forall k :: 0 <= k < |es| ==> pos < es[k].start
    ensures CarryBefore(es, pos, d) == pos + d && CarryAfter(es, pos, d) == pos + d
  {}

  lemma NoGrowth(e: TextEdit)
    requires ChangesNothing(e)
    ensures e.Growth() == 0 && e.start == e.end
  {}

  lemma {:induction false} EffectiveCarries(es: seq<TextEdit>, pos: int, d: int)
    requires Forward(es)
    ensures CarryBefore(Effective(es), pos, d) == CarryBefore(es, pos, d)
    ensures CarryAfter(Effective(es), pos, d) == CarryAfter(es, pos, d)
    decreases es
  {
    hide *;
    if es == [] {
      NothingEffective();
    } else {
      var e, rest := es[0], es[1..];
      ForwardRest(es);
      EffectiveFirst(es);
      CarryFirst(es, pos, d);
      if ChangesNothing(e) {
        NoGrowth(e);
        assert [] + Effective(rest) == Effective(rest);
        EffectiveCarries(rest, pos, d);
        if pos <= e.start { CarryInFront(rest, pos, d); }
      } else {
        assert ([e] + Effective(rest))[1..] == Effective(rest);
        CarryFirst(Effective(es), pos, d);
        EffectiveCarries(rest, pos, d + e.Growth());
      }
    }
  }

  /** Edits with a character kept between any two are made as they are: the same text,
      and the same places for every anchor. */
  lemma MergedSame(t: Rope, es: seq<TextEdit>)
    requires Ordered(es, |t|, 0)
    ensures InText(es, |t|) && Disjoint(Merged(es), |t|, 0)
    ensures ApplyEdits(t, Merged(es), 0) == ApplyEdits(t, es, 0)
    ensures forall pos, d :: CarryBefore(Merged(es), pos, d) == CarryBefore(es, pos, d)
    ensures forall pos, d :: CarryAfter(Merged(es), pos, d) == CarryAfter(es, pos, d)
  {
    hide *;
    OrderedForward(es, |t|, 0);
    MergedIsEffective(es);
    OrderedInside(es, |t|, 0);
    EffectiveSame(t, es, 0);
    InsideInText(es, |t|);
    forall pos, d
      ensures CarryBefore(Merged(es), pos, d) == CarryBefore(es, pos, d)
      ensures CarryAfter(Merged(es), pos, d) == CarryAfter(es, pos, d)
    {
      EffectiveCarries(es, pos, d);
    }
  }

  lemma InsideInText(es: seq<TextEdit>, n: nat)
    requires forall k :: 0 <= k < |es| ==> 0 <= es[k].start <= es[k].end <= n
    ensures InText(es, n)
  {}

  /** The undo of ordered edits is found at the same places. */
  lemma {:induction false} UndoMerged(t: Rope, all: seq<TextEdit>, es: seq<TextEdit>)
    requires Ordered(all, |t|, 0)
    requires forall k :: 0 <= k < |es| ==> 0 <= es[k].start <= es[k].end <= |t|
    ensures UndoEdits(t, Merged(all), es) == UndoEdits(t, all, es)
  {
    hide Merged, CarryBefore, CarryAfter, Ordered;
    MergedSame(t, all);
    if es != [] {
      assert forall k :: 0 <= k < |es[1..]| ==> es[1..][k] == es[k + 1];
      UndoMerged(t, all, es[1..]);
    }
  }
}
