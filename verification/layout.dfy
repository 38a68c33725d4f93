/**
 * Layout: `layoutItems` places every entry of `items` left to right,
 * rebuilds the rect cache and reselects the current mode; `layoutSubviews`
 * additionally sizes the scroll container to the last item's right edge.
 */
module Layout {

  import opened Wrappers
  import opened Geometry
  import opened Configuration
  import opened SegmentItem
  import opened ViewState
  import opened Selection

  /**
   * The frames of `items` after a layout pass with the given widths: each
   * item keeps its segment index and its own y, takes its width from the provider and the configured
   * height; the first starts at `itemOffset`, every later one `itemSpacing`
   * after its predecessor's right edge.
   */
  predicate LaidOut(before: seq<Item>, after: seq<Item>, widths: seq<real>, c: Config) {
    && |after| == |before| == |widths|
    && SameIndices(before, after)
    && (forall i :: 0 <= i < |after| ==>
          && after[i].frame.y == before[i].frame.y
          && after[i].frame.width == widths[i]
          && after[i].frame.height == c.itemSize.height)
    && (|after| > 0 ==> after[0].frame.x == c.itemOffset)
    && (forall i :: 0 < i < |after| ==> after[i].frame.x == after[i - 1].frame.MaxX() + c.itemSpacing)
  }

  /** The frame-setting loop from a given predecessor (`prevMaxX` is its right edge, if any). */
  function PlaceFrom(items: seq<Item>, widths: seq<real>, c: Config, prevMaxX: Option<real>): (r: seq<Item>)
    requires |widths| == |items|
    ensures |r| == |items|
    ensures forall i :: 0 <= i < |r| ==>
      && r[i] == items[i].(frame := r[i].frame)
      && r[i].frame.y == items[i].frame.y
      && r[i].frame.width == widths[i]
      && r[i].frame.height == c.itemSize.height
    ensures |r| > 0 ==> r[0].frame.x == (if prevMaxX.Some? then prevMaxX.value + c.itemSpacing else c.itemOffset)
    ensures forall i :: 0 < i < |r| ==> r[i].frame.x == r[i - 1].frame.MaxX() + c.itemSpacing
    decreases |items|
  {
    if |items| == 0 then []
    else
      var x := (if prevMaxX.Some? then prevMaxX.value else 0.0) + (if prevMaxX.Some? then c.itemSpacing else c.itemOffset);
      var f := Rect(x, items[0].frame.y, widths[0], c.itemSize.height);
      var rest := PlaceFrom(items[1..], widths[1..], c, Some(f.MaxX()));
      var r := [items[0].(frame := f)] + rest;
      assert forall i :: 1 <= i < |r| ==> r[i] == rest[i - 1] && items[i] == items[1..][i - 1];
      r
  }

  /** The frame-setting loop of `layoutItems` over the whole `items` array. */
  function LayoutFrames(items: seq<Item>, widths: seq<real>, c: Config): (r: seq<Item>)
    requires |widths| == |items|
    ensures LaidOut(items, r, widths, c)
    ensures forall i :: 0 <= i < |r| ==> r[i] == items[i].(frame := r[i].frame)
  {
    PlaceFrom(items, widths, c, None)
  }

  /** The layout conditions fix every frame: two laid-out sequences over the same inputs agree. */
  lemma {:induction false} LaidOutUnique(before: seq<Item>, a: seq<Item>, b: seq<Item>, widths: seq<real>, c: Config, n: nat)
    requires LaidOut(before, a, widths, c) && LaidOut(before, b, widths, c)
    requires n <= |a|
    ensures forall i :: 0 <= i < n ==> a[i].frame == b[i].frame
  {
    if n > 0 {
      LaidOutUnique(before, a, b, widths, c, n - 1);
      if n > 1 {
        assert a[n - 2].frame == b[n - 2].frame;
      }
    }
  }

  /** The rect cache: every item's frame under its segment index, later items overwriting earlier ones. */
  function RectCache(items: seq<Item>): (m: map<int, Rect>)
    ensures m.Keys == set i | 0 <= i < |items| :: items[i].SegmentIndex()
    ensures |items| > 0 ==> m[items[|items| - 1].SegmentIndex()] == items[|items| - 1].frame
  {
    if |items| == 0 then map[]
    else
      var init := items[..|items| - 1];
      var last := items[|items| - 1];
      var m0 := RectCache(init);
      assert forall i :: 0 <= i < |items| - 1 ==> items[i] == init[i];
      assert (set i | 0 <= i < |items| :: items[i].SegmentIndex())
          == (set i | 0 <= i < |init| :: init[i].SegmentIndex()) + {last.SegmentIndex()};
      m0[last.SegmentIndex() := last.frame]
  }

  /** The entry for an index is the frame of the last item carrying it. */
  lemma {:induction false} RectCacheHoldsLastFrame(items: seq<Item>, i: int)
    requires 0 <= i < |items| && IsLastWith(items, items[i].SegmentIndex(), i)
    ensures RectCache(items)[items[i].SegmentIndex()] == items[i].frame
  {
    if i < |items| - 1 {
      var init := items[..|items| - 1];
      assert IsLastWith(init, init[i].SegmentIndex(), i);
      RectCacheHoldsLastFrame(init, i);
    }
  }

  /** The cache depends only on the indices and frames of the items. */
  lemma {:induction false} RectCacheFollowsFrames(a: seq<Item>, b: seq<Item>)
    requires SameIndices(a, b)
    requires forall i :: 0 <= i < |a| ==> a[i].frame == b[i].frame
    ensures RectCache(a) == RectCache(b)
  {
    if |a| > 0 {
      RectCacheFollowsFrames(a[..|a| - 1], b[..|b| - 1]);
    }
  }

  /** With distinct indices, the cache holds every item's frame under its index. */
  lemma CacheHoldsEveryFrame(items: seq<Item>)
    requires DistinctIndices(items)
    ensures forall i :: 0 <= i < |items| ==> RectCache(items)[items[i].SegmentIndex()] == items[i].frame
  {
    forall i | 0 <= i < |items|
      ensures RectCache(items)[items[i].SegmentIndex()] == items[i].frame
    {
      RectCacheHoldsLastFrame(items, i);
    }
  }

  /** A selection pass keeps the frames a layout pass produced. */
  lemma SelectionKeepsLayout(before: seq<Item>, placed: seq<Item>, after: seq<Item>, widths: seq<real>, c: Config)
    requires LaidOut(before, placed, widths, c)
    requires SameIndices(placed, after)
    requires forall i :: 0 <= i < |after| ==> after[i].frame == placed[i].frame
    ensures LaidOut(before, after, widths, c)
  {
  }

  /** A selection pass is described equally well relative to any sequence with the same indices. */
  lemma SelectionFollowsIndices(a: seq<Item>, b: seq<Item>, after: seq<Item>, mode: int, s: real)
    requires s != 0.0
    requires SameIndices(a, b)
    requires SelectionApplied(b, after, mode, s)
    ensures SelectionApplied(a, after, mode, s)
  {
    LastWithFollowsIndices(a, b, mode);
  }

  /**
   * `layoutItems`: lay out the items, rebuild the rect cache from scratch,
   * then reselect the current mode without notifying.
   */
  function LayoutItems(v: View, widths: seq<real>): (r: View)
    requires v.config.itemScaleFactor != 0.0
    requires |widths| == |v.items|
    ensures LaidOut(v.items, r.items, widths, v.config)
    ensures SelectionApplied(v.items, r.items, v.config.current, v.config.itemScaleFactor)
    ensures r.rects == RectCache(r.items)
    ensures r.config == v.config && r.contentWidth == v.contentWidth
    ensures r.mark == (if v.config.isShowMarkItem then MarkRect(v.config, r.rects, v.config.current) else v.mark)
  {
    var placed := LayoutFrames(v.items, widths, v.config);
    var r := Commit(v.(items := placed, rects := RectCache(placed)), v.config.current);
    LayoutThenSelect(v.items, placed, r.items, widths, v.config);
    r
  }

  /** The three facts `layoutItems` relies on once the selection pass has run over the placed items. */
  lemma LayoutThenSelect(before: seq<Item>, placed: seq<Item>, after: seq<Item>, widths: seq<real>, c: Config)
    requires c.itemScaleFactor != 0.0
    requires LaidOut(before, placed, widths, c)
    requires SelectionApplied(placed, after, c.current, c.itemScaleFactor)
    requires forall i :: 0 <= i < |after| ==> after[i].frame == placed[i].frame
    ensures LaidOut(before, after, widths, c)
    ensures SelectionApplied(before, after, c.current, c.itemScaleFactor)
    ensures RectCache(after) == RectCache(placed)
  {
    SelectionKeepsLayout(before, placed, after, widths, c);
    SelectionFollowsIndices(before, placed, after, c.current, c.itemScaleFactor);
    RectCacheFollowsFrames(placed, after);
  }

  /** The container's content width: the last item's right edge, or 0 without items. */
  function ContentWidth(items: seq<Item>): real {
    if |items| == 0 then 0.0 else items[|items| - 1].frame.MaxX()
  }

  /** `layoutSubviews`: a layout pass, then the container's content width. */
  function LayoutSubviews(v: View, widths: seq<real>): (r: View)
    requires v.config.itemScaleFactor != 0.0
    requires |widths| == |v.items|
    ensures LaidOut(v.items, r.items, widths, v.config)
    ensures |v.items| == 0 ==> r.contentWidth == 0.0
    ensures |v.items| > 0 ==> r.contentWidth == r.items[|r.items| - 1].frame.MaxX()
    ensures r == LayoutItems(v, widths).(contentWidth := r.contentWidth)
  {
    var w := LayoutItems(v, widths);
    w.(contentWidth := ContentWidth(w.items))
  }

  /** A second layout pass over laid-out items is described relative to the original items too. */
  lemma LaidOutChain(a: seq<Item>, b: seq<Item>, d: seq<Item>, widths: seq<real>, c: Config)
    requires LaidOut(a, b, widths, c) && LaidOut(b, d, widths, c)
    ensures LaidOut(a, d, widths, c)
  {
  }

  /** Re-running layout with the same widths reproduces the frames, the cache, the selection and the content width. */
  lemma {:induction false} LayoutSubviewsIdempotent(v: View, widths: seq<real>)
    requires v.config.itemScaleFactor != 0.0
    requires |widths| == |v.items|
    ensures var once := LayoutSubviews(v, widths);
      var twice := LayoutSubviews(once, widths);
      && SameIndices(once.items, twice.items)
      && (forall i :: 0 <= i < |once.items| ==> twice.items[i].frame == once.items[i].frame)
      && (forall i :: 0 <= i < |once.items| ==> twice.items[i].IsSelected() == once.items[i].IsSelected())
      && twice.rects == once.rects
      && twice.contentWidth == once.contentWidth
      && twice.mark == once.mark
  {
    var once := LayoutSubviews(v, widths);
    var twice := LayoutSubviews(once, widths);
    SecondPassStable(v.items, once.items, twice.items, widths, v.config);
  }

  /** A second layout-and-select pass over laid-out, selected items changes no frame, flag or cache entry. */
  lemma SecondPassStable(a: seq<Item>, once: seq<Item>, twice: seq<Item>, widths: seq<real>, c: Config)
    requires c.itemScaleFactor != 0.0
    requires LaidOut(a, once, widths, c) && LaidOut(once, twice, widths, c)
    requires SelectionApplied(a, once, c.current, c.itemScaleFactor)
    requires SelectionApplied(once, twice, c.current, c.itemScaleFactor)
    ensures SameIndices(once, twice)
    ensures forall i :: 0 <= i < |once| ==> twice[i].frame == once[i].frame
    ensures forall i :: 0 <= i < |once| ==> twice[i].IsSelected() == once[i].IsSelected()
    ensures RectCache(twice) == RectCache(once)
    ensures ContentWidth(twice) == ContentWidth(once)
  {
    LaidOutChain(a, once, twice, widths, c);
    LaidOutUnique(a, once, twice, widths, c, |once|);
    RectCacheFollowsFrames(once, twice);
    FlagMatchesIndex(a, once, c.current, c.itemScaleFactor);
    FlagMatchesIndex(once, twice, c.current, c.itemScaleFactor);
  }

  function Sum(ws: seq<real>): real {
    if |ws| == 0 then 0.0 else Sum(ws[..|ws| - 1]) + ws[|ws| - 1]
  }

  /**
   * An independent, closed-form account of the left edges: with
   * non-negative widths, item `i` starts at the offset plus the widths of
   * the items before it plus `i` spacings.
   */
  lemma {:induction false} LaidOutClosedForm(before: seq<Item>, after: seq<Item>, widths: seq<real>, c: Config, i: int)
    requires LaidOut(before, after, widths, c)
    requires forall j :: 0 <= j < |widths| ==> widths[j] >= 0.0
    requires 0 <= i < |after|
    ensures after[i].frame.x == c.itemOffset + Sum(widths[..i]) + (i as real) * c.itemSpacing
  {
    if i > 0 {
      LaidOutClosedForm(before, after, widths, c, i - 1);
      assert widths[..i][..i - 1] == widths[..i - 1];
      assert Sum(widths[..i]) == Sum(widths[..i - 1]) + widths[i - 1];
      assert after[i - 1].frame.MaxX() == after[i - 1].frame.x + widths[i - 1];
      assert ((i - 1) as real) * c.itemSpacing + c.itemSpacing == (i as real) * c.itemSpacing;
    }
  }

  /** With non-negative widths the content width is the offset, all widths and the spacings between items. */
  lemma {:induction false} ContentWidthClosedForm(before: seq<Item>, after: seq<Item>, widths: seq<real>, c: Config)
    requires LaidOut(before, after, widths, c)
    requires forall j :: 0 <= j < |widths| ==> widths[j] >= 0.0
    requires |after| > 0
    ensures ContentWidth(after) == c.itemOffset + Sum(widths) + ((|widths| - 1) as real) * c.itemSpacing
  {
    var n := |widths|;
    LaidOutClosedForm(before, after, widths, c, n - 1);
    assert widths[..n] == widths;
    assert widths[..n][..n - 1] == widths[..n - 1];
  }

  /** Three items of width 50 with spacing 8 and offset 16 start at 16, 74 and 132; the content is 182 wide. */
  lemma ThreeItemScenario(before: seq<Item>, after: seq<Item>, c: Config)
    requires c.itemSpacing == 8.0 && c.itemOffset == 16.0
    requires LaidOut(before, after, [50.0, 50.0, 50.0], c)
    ensures after[0].frame.x == 16.0 && after[1].frame.x == 74.0 && after[2].frame.x == 132.0
    ensures ContentWidth(after) == 182.0
  {
    assert after[1].frame.x == after[0].frame.MaxX() + 8.0;
    assert after[2].frame.x == after[1].frame.MaxX() + 8.0;
  }
}
