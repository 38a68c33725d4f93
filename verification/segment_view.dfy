/**
 * The segment view's entry points: construction, item creation, the
 * `count` and `currentMode` setters, `selectedMode`, taps, scrubbing and
 * relayout, gathered into one step function that says which of them can
 * reach the change callback.
 */
module SegmentView {

  import opened Wrappers
  import opened Geometry
  import opened Configuration
  import opened SegmentItem
  import opened ViewState
  import opened Selection
  import opened Layout
  import opened Scrub

  /** The item factory: given the configuration and a position, a new item. */
  type ItemProvider = (Config, int) -> Item

  /** A new item for position `mode`: marked unselected and stamped with its index. */
  function Stamp(it: Item, mode: int): (r: Item)
    ensures !r.IsSelected() && r.SegmentIndex() == mode
    ensures r.alpha == it.alpha && r.transform == it.transform && r.frame == it.frame
  {
    it.SetSelected(false).SetSegmentIndex(mode)
  }

  /** The items the factory yields for positions `0..<n`, each stamped. */
  function NewItems(c: Config, make: ItemProvider, n: nat): (r: seq<Item>)
    ensures |r| == n
    ensures forall i :: 0 <= i < n ==> r[i] == Stamp(make(c, i), i)
  {
    if n == 0 then [] else NewItems(c, make, n - 1) + [Stamp(make(c, n - 1), n - 1)]
  }

  /** The default item factory: a plain, freshly initialised view for every position. */
  const DefaultProvider: ItemProvider := (c, i) => Blank()

  /**
   * `initItems`: the existing items are only detached from the view
   * hierarchy, so they stay in `items`; one new item per position
   * `0..<count` is appended after them.
   */
  function InitItems(v: View, make: ItemProvider): (r: View)
    requires v.config.count >= 0
    ensures |r.items| == |v.items| + v.config.count
    ensures r.items[..|v.items|] == v.items
    ensures forall i :: |v.items| <= i < |r.items| ==>
      && !r.items[i].IsSelected()
      && r.items[i].SegmentIndex() == i - |v.items|
      && r.items[i].frame == make(v.config, i - |v.items|).frame
    ensures r == v.(items := r.items)
  {
    var added := NewItems(v.config, make, v.config.count);
    assert forall i :: |v.items| <= i < |v.items| + |added| ==> (v.items + added)[i] == added[i - |v.items|];
    v.(items := v.items + added)
  }

  /** The designated initializer: no layout yet, an empty rect cache, the mark at the zero rect. */
  function Create(c: Config, make: ItemProvider := DefaultProvider): (r: View)
    requires c.count >= 0
    ensures r.config == c && |r.items| == c.count
    ensures forall i :: 0 <= i < |r.items| ==> !r.items[i].IsSelected() && r.items[i].SegmentIndex() == i
    ensures DistinctIndices(r.items)
    ensures r.rects == map[] && r.contentWidth == 0.0 && r.mark == ZeroRect
  {
    InitItems(View(c, [], map[], ZeroRect, 0.0), make)
  }

  /** With the default factory every item of a new view starts at the zero frame, unselected, carrying its position. */
  lemma DefaultCreateIsBlank(c: Config)
    requires c.count >= 0
    ensures forall i :: 0 <= i < |Create(c).items| ==>
      && Create(c).items[i].frame == ZeroRect
      && !Create(c).items[i].IsSelected()
      && Create(c).items[i].SegmentIndex() == i
  {
    var r := InitItems(View(c, [], map[], ZeroRect, 0.0), DefaultProvider);
    assert Create(c) == r;
    forall i | 0 <= i < |r.items|
      ensures r.items[i].frame == ZeroRect
    {
      assert DefaultProvider(c, i) == Blank();
    }
  }

  /**
   * The items after a count change to `n`: the old items keep their
   * indices, the appended ones carry `0..<n`, and an item is selected
   * exactly when its index is the (unclamped) current index.
   */
  predicate CountApplied(before: seq<Item>, after: seq<Item>, n: int, current: int) {
    && n >= 0 && |after| == |before| + n
    && (forall i :: 0 <= i < |before| ==> after[i].SegmentIndex() == before[i].SegmentIndex())
    && (forall i :: |before| <= i < |after| ==> after[i].SegmentIndex() == i - |before|)
    && (forall i :: 0 <= i < |after| ==> (after[i].IsSelected() <==> after[i].SegmentIndex() == current))
  }

  /**
   * The `count` setter: store the count, append the new items, lay out
   * (which reselects the current mode) and reselect it once more, never
   * notifying. The current index is not clamped to the new count.
   */
  function SetCount(v: View, n: int, make: ItemProvider, widths: seq<real>): (r: View)
    requires v.config.itemScaleFactor != 0.0
    requires n >= 0
    requires |widths| == |v.items| + n
    ensures r.config == v.config.(count := n)
    ensures CountApplied(v.items, r.items, n, v.config.current)
    ensures r.rects == RectCache(r.items)
  {
    var w1 := InitItems(v.(config := v.config.(count := n)), make);
    var r := LayoutAndReselect(w1, widths);
    CountFacts(v.items, w1.items, r.items, widths, w1.config);
    r
  }

  /** The count setter lays out old and new items together, in `items` order, from the item offset. */
  lemma CountLaysOutAllItems(v: View, n: int, make: ItemProvider, widths: seq<real>)
    requires v.config.itemScaleFactor != 0.0
    requires n >= 0
    requires |widths| == |v.items| + n
    ensures LaidOut(InitItems(v.(config := v.config.(count := n)), make).items, SetCount(v, n, make, widths).items, widths, v.config.(count := n))
  {
  }

  /**
   * The count setter's closing `change(by: currentMode, …)` leaves all
   * items, old and new, reset and the last one carrying the current index
   * emphasised; it moves the mark, when shown, to the current index's
   * mark rectangle and keeps the content width.
   */
  lemma CountReselects(v: View, n: int, make: ItemProvider, widths: seq<real>)
    requires v.config.itemScaleFactor != 0.0
    requires n >= 0
    requires |widths| == |v.items| + n
    ensures SelectionApplied(InitItems(v.(config := v.config.(count := n)), make).items, SetCount(v, n, make, widths).items,
                             v.config.current, v.config.itemScaleFactor)
    ensures SetCount(v, n, make, widths).contentWidth == v.contentWidth
    ensures SetCount(v, n, make, widths).mark ==
      if v.config.isShowMarkItem
      then MarkRect(SetCount(v, n, make, widths).config, SetCount(v, n, make, widths).rects, v.config.current)
      else v.mark
  {
    var w1 := InitItems(v.(config := v.config.(count := n)), make);
    assert w1.contentWidth == v.contentWidth && w1.mark == v.mark;
  }

  /** What the `count` setter's passes add up to, over the item sequences alone. */
  lemma CountFacts(items: seq<Item>, created: seq<Item>, after: seq<Item>, widths: seq<real>, c: Config)
    requires c.itemScaleFactor != 0.0
    requires |created| >= |items| && created[..|items|] == items
    requires forall i :: |items| <= i < |created| ==> created[i].SegmentIndex() == i - |items|
    requires SelectionApplied(created, after, c.current, c.itemScaleFactor)
    ensures CountApplied(items, after, |created| - |items|, c.current)
  {
    FlagMatchesIndex(created, after, c.current, c.itemScaleFactor);
    CountIndices(items, created, after, c.current);
  }

  /** The count setter's passes after item creation: `layoutItems`, then the non-notifying reselection. */
  function LayoutAndReselect(v: View, widths: seq<real>): (r: View)
    requires v.config.itemScaleFactor != 0.0
    requires |widths| == |v.items|
    ensures r.config == v.config
    ensures LaidOut(v.items, r.items, widths, v.config)
    ensures SelectionApplied(v.items, r.items, v.config.current, v.config.itemScaleFactor)
    ensures r.rects == RectCache(r.items)
    ensures r.contentWidth == v.contentWidth
    ensures r.mark == (if v.config.isShowMarkItem then MarkRect(v.config, r.rects, v.config.current) else v.mark)
  {
    var w := LayoutItems(v, widths);
    var r := Commit(w, w.config.current);
    LayoutThenSelect(v.items, w.items, r.items, widths, v.config);
    r
  }

  /** The appended items' indices and the selection flags, read through a pass that keeps indices. */
  lemma CountIndices(items: seq<Item>, created: seq<Item>, after: seq<Item>, current: int)
    requires |created| >= |items| && created[..|items|] == items
    requires forall i :: |items| <= i < |created| ==> created[i].SegmentIndex() == i - |items|
    requires SameIndices(created, after)
    requires forall i :: 0 <= i < |after| ==> (after[i].IsSelected() <==> after[i].SegmentIndex() == current)
    ensures CountApplied(items, after, |created| - |items|, current)
  {
    assert forall i :: 0 <= i < |items| ==> created[i] == items[i];
  }

  /**
   * After any selection pass over items with distinct indices, exactly the
   * item carrying the target index is selected, and none if there is no
   * such item.
   */
  lemma SelectionExclusive(before: seq<Item>, after: seq<Item>, mode: int, s: real)
    requires s != 0.0
    requires DistinctIndices(before)
    requires SelectionApplied(before, after, mode, s)
    ensures forall i, j :: 0 <= i < j < |after| ==> !(after[i].IsSelected() && after[j].IsSelected())
    ensures forall i :: 0 <= i < |after| && after[i].IsSelected() ==> after[i].SegmentIndex() == mode
    ensures !HasIndex(before, mode) ==> forall i :: 0 <= i < |after| ==> !after[i].IsSelected()
  {
  }

  /**
   * Because old items are kept, a count change can leave two selected
   * items: an old, detached item carrying the current index and the new
   * item created for it.
   */
  lemma CountChangeDuplicatesSelection(before: seq<Item>, after: seq<Item>, n: int, current: int, p: int)
    requires CountApplied(before, after, n, current)
    requires 0 <= current < n
    requires 0 <= p < |before| && before[p].SegmentIndex() == current
    ensures after[p].IsSelected() && after[|before| + current].IsSelected()
    ensures p != |before| + current
  {
  }

  /** `selectedMode(_:)`: a notifying selection. */
  function SelectedMode(v: View, mode: int): (r: (View, Option<Event>))
    requires v.config.itemScaleFactor != 0.0
    ensures r.1 == Some(Event(v.config.current, mode))
    ensures r.0.config.current == mode
    ensures forall i :: 0 <= i < |r.0.items| ==> (r.0.items[i].IsSelected() <==> r.0.items[i].SegmentIndex() == mode)
  {
    Change(v, mode, false)
  }

  /**
   * A tap: with `isHit` standing for the hit test of the tap location
   * against each item, the first hit item's index is selected with
   * notification; a tap that hits nothing changes nothing.
   */
  function Tap(v: View, isHit: Item -> bool): (r: (View, Option<Event>))
    requires v.config.itemScaleFactor != 0.0
    ensures FirstWhere(v.items, isHit).None? ==> r == (v, None)
    ensures FirstWhere(v.items, isHit).Some? ==>
      var mode := v.items[FirstWhere(v.items, isHit).value].SegmentIndex();
      && r.1 == Some(Event(v.config.current, mode))
      && r.0.config.current == mode
      && forall i :: 0 <= i < |r.0.items| ==> (r.0.items[i].IsSelected() <==> r.0.items[i].SegmentIndex() == mode)
  {
    match FirstWhere(v.items, isHit)
    case None => (v, None)
    case Some(k) => SelectedMode(v, v.items[k].SegmentIndex())
  }

  /**
   * The item a tap selects is the first one hit, in `items` order, and the
   * previous current index goes out with the event.
   */
  lemma TapSelectsFirstHit(v: View, isHit: Item -> bool, k: nat)
    requires v.config.itemScaleFactor != 0.0
    requires k < |v.items| && isHit(v.items[k])
    requires forall j :: 0 <= j < k ==> !isHit(v.items[j])
    ensures Tap(v, isHit).1 == Some(Event(v.config.current, v.items[k].SegmentIndex()))
    ensures Tap(v, isHit).0.config.current == v.items[k].SegmentIndex()
  {
    var h := FirstWhere(v.items, isHit);
    assert h.Some?;
    assert !(h.value < k) && !(k < h.value);
  }

  /** A tap that hits no item changes nothing and fires nothing. */
  lemma TapMissIsNoOp(v: View, isHit: Item -> bool)
    requires v.config.itemScaleFactor != 0.0
    requires forall i :: 0 <= i < |v.items| ==> !isHit(v.items[i])
    ensures Tap(v, isHit) == (v, None)
  {
  }

  /**
   * What the host can do to the view's state: the two setters, a direct
   * write of the public `configuration` property, another call of the
   * public `commit()`, `selectedMode`, a tap, a scrub and a layout pass. The item factory and the width provider are
   * passed to `Step` and to the layout inputs instead of being stored.
   */
  datatype Input =
    | SetCountTo(n: int, widths: seq<real>)
    | SetCurrentTo(m: int)
    | SetConfigurationTo(c: Config)
    | Recommit
    | SelectMode(m: int)
    | TapWith(isHit: Item -> bool)
    | ScrubBy(factor: real, tendToMode: int)
    | Relayout(widths: seq<real>)

  predicate Enabled(v: View, input: Input) {
    && v.config.itemScaleFactor != 0.0
    && match input
       case SetCountTo(n, widths) => n >= 0 && |widths| == |v.items| + n
       case Relayout(widths) => |widths| == |v.items|
       case SetConfigurationTo(c) => c.itemScaleFactor != 0.0
       case Recommit => v.config.count >= 0
       case _ => true
  }

  /**
   * One host interaction. The change callback fires exactly for
   * `selectedMode` and for a tap that hits an item; then it receives the
   * previous current index and the new one, which is current afterwards.
   * The setters, a direct configuration write, scrubbing and layout never
   * fire it. Writing `configuration` directly stores the new value and
   * nothing else: no item is created, laid out or reselected. Calling
   * `commit()` again runs `initItems()` once more: `count` new items are
   * appended behind the old ones, with no layout, reselection or event.
   */
  function Step(v: View, make: ItemProvider, input: Input): (r: (View, Option<Event>))
    requires Enabled(v, input)
    ensures r.1.Some? <==> input.SelectMode? || (input.TapWith? && exists i :: 0 <= i < |v.items| && input.isHit(v.items[i]))
    ensures r.1.Some? ==> r.1.value.oldMode == v.config.current && r.0.config.current == r.1.value.newMode
    ensures input.SelectMode? ==> r.1 == Some(Event(v.config.current, input.m))
    ensures input.SetCurrentTo? ==> r.0.config.current == input.m
    ensures input.SetConfigurationTo? ==>
      && r.0.config == input.c && r.1 == None
      && r.0.items == v.items && r.0.rects == v.rects && r.0.mark == v.mark && r.0.contentWidth == v.contentWidth
    ensures input.Recommit? ==>
      && r.1 == None && r.0.config == v.config
      && |r.0.items| == |v.items| + v.config.count && r.0.items[..|v.items|] == v.items
      && (forall i :: |v.items| <= i < |r.0.items| ==>
            !r.0.items[i].IsSelected() && r.0.items[i].SegmentIndex() == i - |v.items|)
      && r.0.rects == v.rects && r.0.mark == v.mark && r.0.contentWidth == v.contentWidth
    ensures !input.SetCurrentTo? && !input.SetConfigurationTo? && r.1.None? ==> r.0.config.current == v.config.current
  {
    match input
    case SetCountTo(n, widths) => (SetCount(v, n, make, widths), None)
    case SetCurrentTo(m) => (SetCurrentMode(v, m), None)
    case SetConfigurationTo(c) => (v.(config := c), None)
    case Recommit => (InitItems(v, make), None)
    case SelectMode(m) => SelectedMode(v, m)
    case TapWith(isHit) => Tap(v, isHit)
    case ScrubBy(factor, tendToMode) => (ProgressToward(v, factor, tendToMode), None)
    case Relayout(widths) => (LayoutSubviews(v, widths), None)
  }
}
