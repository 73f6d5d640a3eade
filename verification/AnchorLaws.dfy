/** Where anchors end up when a batch of edits is made: at the character they are attached
    to, or behind the text that replaced it. */
module AnchorLaws {
  import opened RopeText
  import opened TextEdits

  ghost predicate Kept(es: seq<TextEdit>, pos: int) {
    forall k :: 0 <= k < |es| ==> !es[k].Replaces(pos)
  }

  lemma KeptRest(es: seq<TextEdit>, pos: int)
    requires es != [] && Kept(es, pos)
    ensures !es[0].Replaces(pos) && Kept(es[1..], pos)
  {
    assert forall k :: 0 <= k < |es[1..]| ==> es[1..][k] == es[k + 1];
  }

  /** The text from offset `i` on after the edits, taken apart at the first one. */
  lemma ApplyFirst(t: Rope, es: seq<TextEdit>, i: int)
    requires es != [] && Disjoint(es, |t|, i)
    ensures 0 <= i <= es[0].start <= es[0].end <= |t| && Disjoint(es[1..], |t|, es[0].end)
    ensures ApplyEdits(t, es, i) == t[i..es[0].start] + es[0].text + ApplyEdits(t, es[1..], es[0].end)
  {}

  lemma {:induction false} BeforeFollows(t: Rope, es: seq<TextEdit>, i: int, pos: int, d: int)
    requires Disjoint(es, |t|, i) && i < pos <= |t| && Kept(es, pos - 1)
    ensures var c, x := CarryBefore(es, pos, d) - (i + d), ApplyEdits(t, es, i);
            0 < c <= |x| && x[c - 1] == t[pos - 1]
  {
    hide ApplyEdits, Disjoint, Kept;
    if es == [] {
      NothingApplied(t, i);
    } else {
      ApplyFirst(t, es, i);
      KeptRest(es, pos - 1);
      if pos > es[0].end {
        BeforeFollows(t, es[1..], es[0].end, pos, d + es[0].Growth());
      }
    }
  }

  lemma NothingApplied(t: Rope, i: int)
    requires Disjoint([], |t|, i)
    ensures 0 <= i <= |t| && ApplyEdits(t, [], i) == t[i..]
  {}

  lemma {:induction false} AfterFollows(t: Rope, es: seq<TextEdit>, i: int, pos: int, d: int)
    requires Disjoint(es, |t|, i) && i <= pos < |t| && Kept(es, pos)
    ensures var c, x := CarryAfter(es, pos, d) - (i + d), ApplyEdits(t, es, i);
            0 <= c < |x| && x[c] == t[pos]
  {
    hide ApplyEdits, Disjoint, Kept;
    if es == [] {
      NothingApplied(t, i);
    } else {
      ApplyFirst(t, es, i);
      KeptRest(es, pos);
      if pos >= es[0].end {
        AfterFollows(t, es[1..], es[0].end, pos, d + es[0].Growth());
      }
    }
  }

  /** Where the replacement of edit `k` ends in the new text. */
  function ReplacementEnd(es: seq<TextEdit>, k: nat): int
    requires k < |es|
  {
    es[k].start + TotalGrowth(es[..k]) + |es[k].text|
  }

  lemma {:induction false} CarriedBehind(es: seq<TextEdit>, n: nat, i: int, k: nat, pos: int, d: int)
    requires Disjoint(es, n, i) && k < |es|
    ensures es[k].start < pos <= es[k].end ==> CarryBefore(es, pos, d) == d + ReplacementEnd(es, k)
    ensures es[k].start <= pos < es[k].end ==> CarryAfter(es, pos, d) == d + ReplacementEnd(es, k)
  {
    var rest := es[1..];
    if k > 0 {
      StartsBehind(rest, n, es[0].end, k - 1);
      CarriedBehind(rest, n, es[0].end, k - 1, pos, d + es[0].Growth());
      assert es[..k][1..] == rest[..k - 1] && es[..k][0] == es[0];
      assert es[k] == rest[k - 1];
    } else {
      assert es[..0] == [];
    }
  }

  lemma {:induction false} StartsBehind(es: seq<TextEdit>, n: nat, i: int, k: nat)
    requires Disjoint(es, n, i) && k < |es|
    ensures i <= es[k].start <= es[k].end <= n
  {
    if k > 0 {
      StartsBehind(es[1..], n, es[0].end, k - 1);
      assert es[k] == es[1..][k - 1];
    }
  }

  /** An anchor attached to a character that is kept stays at that character; one whose
      character is replaced lands at the end of what replaced it. */
  lemma AnchorsFollow(t: Rope, es: seq<TextEdit>, pos: int)
    requires Disjoint(es, |t|, 0) && 0 <= pos <= |t|
    ensures var x, before, after := ApplyEdits(t, es, 0), CarryBefore(es, pos, 0), CarryAfter(es, pos, 0);
      && (pos == 0 ==> before == 0)
      && (pos > 0 && Kept(es, pos - 1) ==> 0 < before <= |x| && x[before - 1] == t[pos - 1])
      && (pos == |t| ==> after == |x|)
      && (pos < |t| && Kept(es, pos) ==> 0 <= after < |x| && x[after] == t[pos])
      && (forall k :: 0 <= k < |es| && es[k].Replaces(pos - 1) ==> before == ReplacementEnd(es, k))
      && (forall k :: 0 <= k < |es| && es[k].Replaces(pos) ==> after == ReplacementEnd(es, k))
  {
    hide Kept, CarryBefore, CarryAfter, ApplyEdits, TotalGrowth;
    AtEnds(t, es, 0, 0);
    if pos > 0 && Kept(es, pos - 1) { BeforeFollows(t, es, 0, pos, 0); }
    if pos < |t| && Kept(es, pos) { AfterFollows(t, es, 0, pos, 0); }
    forall k | 0 <= k < |es|
      ensures es[k].Replaces(pos - 1) ==> CarryBefore(es, pos, 0) == ReplacementEnd(es, k)
      ensures es[k].Replaces(pos) ==> CarryAfter(es, pos, 0) == ReplacementEnd(es, k)
    {
      CarriedBehind(es, |t|, 0, k, pos, 0);
    }
  }

  lemma {:induction false} AtEnds(t: Rope, es: seq<TextEdit>, i: int, d: int)
    requires Disjoint(es, |t|, i)
    ensures CarryBefore(es, i, d) == i + d
    ensures CarryAfter(es, |t|, d) == i + d + |ApplyEdits(t, es, i)|
  {
    if es != [] { AtEnds(t, es[1..], es[0].end, d + es[0].Growth()); }
  }
}
