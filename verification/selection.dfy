/**
 * Discrete selection: `change(by:isAnimated:ignoreCurrentChange:)`, the
 * mark rectangle for a mode, and the `currentMode` setter. Animation only
 * affects timing, so only the committed values are modelled.
 */
module Selection {

  import opened Wrappers
  import opened Geometry
  import opened Configuration
  import opened SegmentItem
  import opened ViewState

  /**
   * The mark rectangle for `mode`: the cached frame (the zero rect when
   * absent) grown by half the item spacing on each side and shifted down
   * by the mark's vertical offset.
   */
  function MarkRect(c: Config, rects: map<int, Rect>, mode: int): (r: Rect)
    ensures var base := if mode in rects then rects[mode] else ZeroRect;
      && r.x + r.width / 2.0 == base.x + base.width / 2.0
      && r.x == base.x - c.itemSpacing / 2.0
      && r.x + r.width == base.x + base.width + c.itemSpacing / 2.0
      && r.y == base.y + c.selectedMarkOffsetY
      && r.height == base.height
  {
    var base := if mode in rects then rects[mode] else ZeroRect;
    Rect(base.x - c.itemSpacing * 0.5, base.y + c.selectedMarkOffsetY, base.width + c.itemSpacing, base.height)
  }

  /**
   * What one selection pass leaves behind, relative to the items it started
   * from: indices untouched, the flag set exactly on index
   * `mode`, the last such item (see `LastWith`) emphasised and every other item at half
   * opacity with scale `1/s`.
   */
  predicate SelectionApplied(before: seq<Item>, after: seq<Item>, mode: int, s: real)
    requires s != 0.0
  {
    && SameIndices(before, after)
    && (forall i :: 0 <= i < |after| ==> (after[i].IsSelected() <==> before[i].SegmentIndex() == mode))
    && (forall i: nat :: i < |after| ==>
          if LastWith(before, mode) == Some(i) then after[i].alpha == 1.0 && after[i].transform == Identity
          else after[i].alpha == 0.5 && after[i].transform == Uniform(1.0 / s))
  }

  /** After a selection pass an item's flag can be read off its own index. */
  lemma FlagMatchesIndex(before: seq<Item>, after: seq<Item>, mode: int, s: real)
    requires s != 0.0
    requires SelectionApplied(before, after, mode, s)
    ensures forall i :: 0 <= i < |after| ==> (after[i].IsSelected() <==> after[i].SegmentIndex() == mode)
  {
  }

  /** The per-item reset of the selection loop. */
  function Reset(it: Item, mode: int, s: real): (r: Item)
    requires s != 0.0
    ensures r.IsSelected() == (it.SegmentIndex() == mode) && r.SegmentIndex() == it.SegmentIndex()
    ensures r.alpha == 0.5 && r.transform == Uniform(1.0 / s) && r.frame == it.frame
  {
    it.SetSelected(it.SegmentIndex() == mode).Progress(0.5).(transform := Uniform(1.0 / s))
  }

  /** The selected item's full response. */
  function Emphasize(it: Item): (r: Item)
    ensures r.alpha == 1.0 && r.transform == Identity
    ensures r.assoc == it.assoc && r.frame == it.frame
  {
    it.Progress(1.0).(transform := Identity)
  }

  /** Every item reset, in order. */
  function ResetAll(items: seq<Item>, mode: int, s: real): (r: seq<Item>)
    requires s != 0.0
    ensures |r| == |items|
    ensures forall i :: 0 <= i < |items| ==> r[i] == Reset(items[i], mode, s)
  {
    if |items| == 0 then []
    else ResetAll(items[..|items| - 1], mode, s) + [Reset(items[|items| - 1], mode, s)]
  }

  /**
   * The selection loop over `items`: every item is reset, and the item the
   * loop last recorded as selected is then pushed to full response.
   */
  function ApplySelection(items: seq<Item>, mode: int, s: real): (r: seq<Item>)
    requires s != 0.0
    ensures SelectionApplied(items, r, mode, s)
    ensures forall i :: 0 <= i < |r| ==> r[i].frame == items[i].frame
    ensures !HasIndex(items, mode) ==> forall i :: 0 <= i < |r| ==> !r[i].IsSelected()
  {
    var reset := ResetAll(items, mode, s);
    match LastWith(items, mode)
    case None => reset
    case Some(k) => reset[k := Emphasize(reset[k])]
  }

  /** Both the reset and the emphasis are stable under a second reset/emphasis. */
  lemma {:induction false} ResetStable(it: Item, mode: int, s: real)
    requires s != 0.0
    ensures Reset(Reset(it, mode, s), mode, s) == Reset(it, mode, s)
    ensures Reset(Emphasize(Reset(it, mode, s)), mode, s) == Reset(it, mode, s)
    ensures Emphasize(Reset(Emphasize(Reset(it, mode, s)), mode, s)) == Emphasize(Reset(it, mode, s))
  {
    var r := Reset(it, mode, s);
    assert r.assoc[IsSelectedKey := BoxedBool(r.SegmentIndex() == mode)] == r.assoc;
    var e := Emphasize(r);
    assert e.assoc == r.assoc;
  }

  /** Running the selection loop twice with the same mode changes nothing the first run did not. */
  lemma {:induction false} ApplySelectionIdempotent(items: seq<Item>, mode: int, s: real)
    requires s != 0.0
    ensures ApplySelection(ApplySelection(items, mode, s), mode, s) == ApplySelection(items, mode, s)
  {
    var once := ApplySelection(items, mode, s);
    var twice := ApplySelection(once, mode, s);
    LastWithFollowsIndices(items, once, mode);
    forall i | 0 <= i < |items|
      ensures twice[i] == once[i]
    {
      ApplySelectionAt(items, mode, s, i);
      ApplySelectionAt(once, mode, s, i);
      ResetStable(items[i], mode, s);
    }
  }

  /** One position of the selection loop's result. */
  lemma ApplySelectionAt(items: seq<Item>, mode: int, s: real, i: int)
    requires s != 0.0
    requires 0 <= i < |items|
    ensures ApplySelection(items, mode, s)[i] ==
      if LastWith(items, mode) == Some(i) then Emphasize(Reset(items[i], mode, s)) else Reset(items[i], mode, s)
  {
  }

  /**
   * The committed effect of `change(by: mode, …)` on items and mark; with
   * `ignoreCurrentChange` set this is all the change does.
   */
  function Commit(v: View, mode: int): (r: View)
    requires v.config.itemScaleFactor != 0.0
    ensures SelectionApplied(v.items, r.items, mode, v.config.itemScaleFactor)
    ensures forall i :: 0 <= i < |r.items| ==> r.items[i].frame == v.items[i].frame
    ensures r.config == v.config && r.rects == v.rects && r.contentWidth == v.contentWidth
    ensures r.mark == (if v.config.isShowMarkItem then MarkRect(v.config, v.rects, mode) else v.mark)
  {
    v.(items := ApplySelection(v.items, mode, v.config.itemScaleFactor),
       mark := if v.config.isShowMarkItem then MarkRect(v.config, v.rects, mode) else v.mark)
  }

  /** The `currentMode` setter: store the index, then reselect it without notifying. */
  function SetCurrentMode(v: View, m: int): (r: View)
    requires v.config.itemScaleFactor != 0.0
    ensures r.config == v.config.(current := m)
    ensures SelectionApplied(v.items, r.items, m, v.config.itemScaleFactor)
    ensures forall i :: 0 <= i < |r.items| ==> r.items[i].frame == v.items[i].frame
    ensures r.rects == v.rects && r.contentWidth == v.contentWidth
    ensures r.mark == (if v.config.isShowMarkItem then MarkRect(v.config, v.rects, m) else v.mark)
  {
    Commit(v.(config := v.config.(current := m)), m)
  }

  /**
   * `change(by:isAnimated:ignoreCurrentChange:)`. On the notifying path the
   * old current index is read, the `currentMode` setter runs (which
   * reselects once more), and the event `(old, mode)` is produced, whether
   * or not the two differ.
   */
  function Change(v: View, mode: int, ignoreCurrentChange: bool): (r: (View, Option<Event>))
    requires v.config.itemScaleFactor != 0.0
    ensures SelectionApplied(v.items, r.0.items, mode, v.config.itemScaleFactor)
    ensures forall i :: 0 <= i < |r.0.items| ==> r.0.items[i].frame == v.items[i].frame
    ensures r.0.config == (if ignoreCurrentChange then v.config else v.config.(current := mode))
    ensures ignoreCurrentChange ==> r.1 == None
    ensures !ignoreCurrentChange ==> r.1 == Some(Event(v.config.current, mode)) && r.0.config.current == r.1.value.newMode
    ensures r.0.rects == v.rects && r.0.contentWidth == v.contentWidth
    ensures r.0.mark == (if v.config.isShowMarkItem then MarkRect(v.config, v.rects, mode) else v.mark)
  {
    var w := Commit(v, mode);
    if ignoreCurrentChange then (w, None)
    else
      var previous := w.config.current;
      ApplySelectionIdempotent(v.items, mode, v.config.itemScaleFactor);
      (SetCurrentMode(w, mode), Some(Event(previous, mode)))
  }
}
