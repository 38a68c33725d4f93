/**
 * The item contract: any view can serve as a segment item. Its selection
 * flag and segment index live in a per-object association table under two
 * distinct keys, and it responds to progress (opacity) and scale progress
 * through default policies.
 */
module SegmentItem {

  import opened Geometry

  /** The two association keys; `ScrollableSegmentViewItemKeys` tags them 0 and 1. */
  datatype AssocKey = IsSelectedKey | SegmentIndexKey

  /** A value stored in the association table. */
  datatype Boxed = BoxedBool(b: bool) | BoxedInt(i: int)

  /** A view acting as a segment item: its association table and the visual state the widget drives. */
  datatype Item = Item(assoc: map<AssocKey, Boxed>, alpha: real, transform: Transform, frame: Rect) {

    /** Reads the selection flag; a missing or ill-typed entry reads as false. */
    function IsSelected(): bool {
      if IsSelectedKey in assoc && assoc[IsSelectedKey].BoxedBool? then assoc[IsSelectedKey].b else false
    }

    /** Reads the segment index; a missing or ill-typed entry reads as 0. */
    function SegmentIndex(): int {
      if SegmentIndexKey in assoc && assoc[SegmentIndexKey].BoxedInt? then assoc[SegmentIndexKey].i else 0
    }

    function SetSelected(v: bool): (r: Item)
      ensures r.IsSelected() == v
      ensures r.SegmentIndex() == SegmentIndex()
      ensures r.alpha == alpha && r.transform == transform && r.frame == frame
    {
      this.(assoc := assoc[IsSelectedKey := BoxedBool(v)])
    }

    function SetSegmentIndex(i: int): (r: Item)
      ensures r.SegmentIndex() == i
      ensures r.IsSelected() == IsSelected()
      ensures r.alpha == alpha && r.transform == transform && r.frame == frame
    {
      this.(assoc := assoc[SegmentIndexKey := BoxedInt(i)])
    }

    /** The default progress response: opacity follows the value but never drops below one half. */
    function Progress(v: real): (r: Item)
      ensures r.alpha >= 0.5
      ensures v >= 0.5 ==> r.alpha == v
      ensures v <= 0.5 ==> r.alpha == 0.5
      ensures r.(alpha := alpha) == this
    {
      this.(alpha := Max(0.5, v))
    }

    /** The default scale response: the same factor on both axes. */
    function ScaleProgress(v: real): (r: Item)
      ensures r.transform.sx == v && r.transform.sy == v
      ensures r.(transform := transform) == this
    {
      this.(transform := Uniform(v))
    }
  }

  /** A freshly initialised view: nothing associated, opaque, untransformed, zero frame. */
  function Blank(): (it: Item)
    ensures !it.IsSelected() && it.SegmentIndex() == 0
    ensures it.alpha == 1.0 && it.transform == Identity && it.frame == ZeroRect
  {
    Item(map[], 1.0, Identity, ZeroRect)
  }

  /** An item whose keys were never assigned reads the defaults false and 0. */
  lemma UnassignedDefaults(it: Item)
    requires IsSelectedKey !in it.assoc && SegmentIndexKey !in it.assoc
    ensures !it.IsSelected() && it.SegmentIndex() == 0
  {
  }

  /** The two keys are independent: the order of the two writes does not matter. */
  lemma {:induction false} WritesCommute(it: Item, b: bool, i: int)
    ensures it.SetSelected(b).SetSegmentIndex(i) == it.SetSegmentIndex(i).SetSelected(b)
  {
    assert it.SetSelected(b).SetSegmentIndex(i).assoc == it.SetSegmentIndex(i).SetSelected(b).assoc;
  }
}
