/** The law the engine is built around: replaying the unreviewed hunks on the base, one
    after the other, each at the row where its new rows start, gives the buffer. */
module PatchReplay {
  import opened RopeText
  import opened Patches
  import Rebase
  import opened PatchParts
  import opened Folds

  /** With the hunks in front replayed, a hunk starts at the same row on both sides. */
  lemma StartsTogether<T>(a: seq<T>, p: seq<Edit>, b: seq<T>, k: nat)
    requires Links(a, p, b) && k < |p|
    ensures p[k].oldRows.start + Growth(p[..k]) == p[k].newRows.start
  {
    Rebase.LinksSkip(a, p, b, 0, 0, k);
    var i := if k == 0 then 0 else p[k - 1].oldRows.end;
    var j := if k == 0 then 0 else p[k - 1].newRows.end;
    assert p[k..][0] == p[k];
    assert |a[i..p[k].oldRows.start]| == |b[j..p[k].newRows.start]|;
  }

  lemma AllSetSnoc(k: nat)
    ensures AllSet(k) + [true] == AllSet(k + 1)
  {}

  lemma SelectPrefix(p: seq<Edit>, k: nat)
    requires k <= |p|
    ensures Select(p[..k], AllSet(k)) == p[..k]
  {
    SelectAll(p[..k], AllSet(k));
  }

  method ReplayPatch(base: Rope, edits: seq<Edit>, buffer: Rope) returns (text: Rope)
    requires PatchBetween(Rows(base), edits, Rows(buffer))
    ensures text == buffer
  {
    hide *;
    text := base;
    ghost var a, b := Rows(base), Rows(buffer);
    ReplayStart(base, edits, b);
    for k := 0 to |edits|
      invariant Folded(a, edits, b, AllSet(k), text, Growth(edits[..k]))
    {
      ReplayNext(base, edits, buffer, k, text);
      var e := edits[k];
      text := ReplaceRows(text, e.newRows.start, e.newRows.start + e.oldRows.Len(),
                          SliceRows(buffer, e.newRows.start, e.newRows.end));
    }
    ReplayEnd(a, edits, buffer, text);
  }

  lemma ReplayStart(base: Rope, p: seq<Edit>, b: seq<string>)
    ensures Folded(Rows(base), p, b, AllSet(0), base, Growth(p[..0]))
  {}

  lemma ReplayNext(base: Rope, p: seq<Edit>, snap: Rope, k: nat, text: Rope)
    requires PatchBetween(Rows(base), p, Rows(snap)) && k < |p|
    requires Folded(Rows(base), p, Rows(snap), AllSet(k), text, Growth(p[..k]))
    ensures var start, end := p[k].newRows.start, p[k].newRows.start + p[k].oldRows.Len();
      && 0 <= start <= end <= RowCount(text) && start < RowCount(text)
      && 0 <= start <= p[k].newRows.end <= RowCount(snap) && start < RowCount(snap)
      && Folded(Rows(base), p, Rows(snap), AllSet(k + 1),
                ReplaceRows(text, start, end, SliceRows(snap, start, p[k].newRows.end)), Growth(p[..k + 1]))
  {
    hide Rows, RowCount, ReplaceRows, SliceRows, Folded, Growth, LinksFrom, AllSet;
    var delta := Growth(p[..k]);
    AllSetLength(k);
    StartsTogether(Rows(base), p, Rows(snap), k);
    FoldTake(base, p, snap, AllSet(k), text, delta);
    AllSetSnoc(k);
    assert p[..k + 1] == p[..k] + [p[k]];
    GrowthSnoc(p[..k], p[k]);
  }

  lemma AllSetLength(k: nat)
    ensures |AllSet(k)| == k
  {}

  lemma ReplayEnd(a: seq<string>, p: seq<Edit>, snap: Rope, text: Rope)
    requires PatchBetween(a, p, Rows(snap))
    requires Folded(a, p, Rows(snap), AllSet(|p|), text, Growth(p[..|p|]))
    ensures text == snap
  {
    hide Rows, LinksFrom;
    SelectPrefix(p, |p|);
    assert p[..|p|] == p;
    SpliceLinks(a, p, Rows(snap), 0, 0);
    assert Rows(snap)[0..] == Rows(snap);
    RowsInjective(text, snap);
  }
}
