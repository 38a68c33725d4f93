/**
 * Continuous scrubbing: `progress(_:tendToMode:)` moves the current item
 * and the item of `tendToMode` part of the way toward each other's
 * emphasis and slides the mark between their mark rectangles. It never
 * changes the current index and never notifies.
 */
module Scrub {

  import opened Wrappers
  import opened Geometry
  import opened Configuration
  import opened SegmentItem
  import opened ViewState
  import opened Selection

  /** The responses a scrub hands to the two items involved. */
  datatype ScrubValues = ScrubValues(currentProgress: real, otherProgress: real, currentScale: real, otherScale: real)

  function MinScale(s: real): real
    requires s != 0.0
  {
    Min(1.0, 1.0 / s)
  }

  function MaxScale(s: real): real
    requires s != 0.0
  {
    Max(1.0, 1.0 / s)
  }

  /** The scale for progress `p`: the larger of 1 and `1/s` at full progress, the smaller at none. */
  function ScaleFor(p: real, s: real): (r: real)
    requires s != 0.0
    ensures p == 1.0 ==> r == MaxScale(s)
    ensures p == 0.0 ==> r == MinScale(s)
  {
    var minFactor := MinScale(s);
    var maxFactor := MaxScale(s);
    maxFactor - (1.0 - p) * (maxFactor - minFactor)
  }

  /**
   * The values for a scrub factor `f`: the current item gets progress
   * `1 - |f|`, the other `|f|`; both progresses and both scales add up to
   * constants, whatever `f` is.
   */
  function Values(f: real, s: real): (r: ScrubValues)
    requires s != 0.0
    ensures r.currentProgress + r.otherProgress == 1.0
    ensures r.otherProgress == Abs(f)
    ensures r.currentScale + r.otherScale == MinScale(s) + MaxScale(s)
  {
    var currentFactor := 1.0 - Abs(f);
    var otherFactor := Abs(f);
    var span := MaxScale(s) - MinScale(s);
    assert (1.0 - currentFactor) * span + (1.0 - otherFactor) * span == span;
    ScrubValues(currentFactor, otherFactor, ScaleFor(currentFactor, s), ScaleFor(otherFactor, s))
  }

  /** At factor 0 the current item is fully emphasised and the other not at all; at `|f| == 1` the roles swap. */
  lemma ValuesEndpoints(f: real, s: real)
    requires s != 0.0
    ensures f == 0.0 ==> Values(f, s) == ScrubValues(1.0, 0.0, MaxScale(s), MinScale(s))
    ensures Abs(f) == 1.0 ==> Values(f, s) == ScrubValues(0.0, 1.0, MinScale(s), MaxScale(s))
  {
  }

  /** For `|f| <= 1` both scales stay between `min(1, 1/s)` and `max(1, 1/s)`. */
  lemma {:induction false} ScalesInRange(f: real, s: real)
    requires s != 0.0
    requires Abs(f) <= 1.0
    ensures MinScale(s) <= Values(f, s).currentScale <= MaxScale(s)
    ensures MinScale(s) <= Values(f, s).otherScale <= MaxScale(s)
  {
    ScaleForInRange(1.0 - Abs(f), s);
    ScaleForInRange(Abs(f), s);
  }

  lemma ScaleForInRange(p: real, s: real)
    requires s != 0.0
    requires 0.0 <= p <= 1.0
    ensures MinScale(s) <= ScaleFor(p, s) <= MaxScale(s)
  {
    var span := MaxScale(s) - MinScale(s);
    assert ScaleFor(p, s) == MaxScale(s) - (1.0 - p) * span;
    FractionOf(1.0 - p, span);
  }

  lemma FractionOf(a: real, b: real)
    requires 0.0 <= a <= 1.0 && 0.0 <= b
    ensures 0.0 <= a * b <= b
  {
    assert b - a * b == (1.0 - a) * b;
  }

  /** With the default scale factor 1.0 the scale range collapses: every scrub scale is exactly 1. */
  lemma DefaultScaleCollapses(f: real)
    ensures Values(f, Init().itemScaleFactor).currentScale == 1.0
    ensures Values(f, Init().itemScaleFactor).otherScale == 1.0
  {
  }

  /**
   * For `s >= 1` a scrub at factor 0 starts from exactly what a selection
   * committed: the current item at scale 1, the other at `1/s`. For
   * `0 < s < 1` the two starting scales are the other way round.
   */
  lemma {:induction false} StartMatchesSelection(s: real)
    requires s > 0.0
    ensures s >= 1.0 ==> Values(0.0, s).currentScale == 1.0 && Values(0.0, s).otherScale == 1.0 / s
    ensures s < 1.0 ==> Values(0.0, s).currentScale == 1.0 / s && Values(0.0, s).otherScale == 1.0
  {
    ValuesEndpoints(0.0, s);
    if s >= 1.0 {
      assert 1.0 / s <= 1.0;
    } else {
      assert 1.0 / s > 1.0;
    }
  }

  /**
   * The scrubbed mark rectangle, computed with `progress(_:tendToMode:)`'s sign flag. It
   * is the straight interpolation by `|f|` from the current rectangle's
   * left edge and width to the target's, for either sign of `f`, with y and
   * height taken from the target.
   */
  function ScrubMark(f: real, current: Rect, end: Rect): (r: Rect)
    ensures r.x == current.MinX() + Abs(f) * (end.MinX() - current.MinX())
    ensures r.width == current.Width() + Abs(f) * (end.Width() - current.Width())
    ensures r.y == end.MinY() && r.height == end.Height()
  {
    var flag := if f > 0.0 then -1.0 else 1.0;
    Rect(
      current.MinX() - flag * (end.MinX() - current.MinX()) * f,
      end.MinY(),
      current.Width() - flag * (end.Width() - current.Width()) * f,
      end.Height())
  }

  /** The mark starts on the current rectangle at factor 0 and lands on the target at `|f| == 1`. */
  lemma ScrubMarkEndpoints(f: real, current: Rect, end: Rect)
    ensures f == 0.0 ==> ScrubMark(f, current, end).x == current.MinX()
    ensures f == 0.0 ==> ScrubMark(f, current, end).width == current.Width()
    ensures f == 0.0 && current.Standard() ==>
      ScrubMark(f, current, end).x == current.x && ScrubMark(f, current, end).width == current.width
    ensures Abs(f) == 1.0 ==> ScrubMark(f, current, end).x == end.MinX()
    ensures Abs(f) == 1.0 ==> ScrubMark(f, current, end).width == end.Width()
    ensures Abs(f) == 1.0 && end.Standard() ==> ScrubMark(f, current, end) == end
  {
  }

  /**
   * The four item writes of a scrub, in the order `progress(_:tendToMode:)` makes them: progress on the
   * current item, progress on the other, scale on the current, scale on
   * the other. When both positions coincide the other's values win.
   */
  function ScrubItems(items: seq<Item>, ci: nat, oi: nat, vals: ScrubValues): (r: seq<Item>)
    requires ci < |items| && oi < |items|
    ensures |r| == |items|
    ensures forall i :: 0 <= i < |r| ==> r[i].assoc == items[i].assoc && r[i].frame == items[i].frame
    ensures forall i :: 0 <= i < |r| && i != ci && i != oi ==> r[i] == items[i]
    ensures r[oi].alpha == Max(0.5, vals.otherProgress) && r[oi].transform == Uniform(vals.otherScale)
    ensures ci != oi ==> r[ci].alpha == Max(0.5, vals.currentProgress) && r[ci].transform == Uniform(vals.currentScale)
  {
    var a1 := items[ci := items[ci].Progress(vals.currentProgress)];
    var a2 := a1[oi := a1[oi].Progress(vals.otherProgress)];
    var a3 := a2[ci := a2[ci].ScaleProgress(vals.currentScale)];
    a3[oi := a3[oi].ScaleProgress(vals.otherScale)]
  }

  /**
   * `progress(_:tendToMode:)`: find the first item with the current index
   * and the first with `tendToMode`; if either is missing nothing happens.
   * Otherwise both items take their scrub responses and the mark, if
   * shown, moves to the interpolated rectangle.
   */
  function ProgressToward(v: View, factor: real, tendToMode: int): (r: View)
    requires v.config.itemScaleFactor != 0.0
    ensures !HasIndex(v.items, v.config.current) || !HasIndex(v.items, tendToMode) ==> r == v
    ensures r.config == v.config && r.rects == v.rects && r.contentWidth == v.contentWidth
    ensures |r.items| == |v.items|
    ensures forall i :: 0 <= i < |r.items| ==> r.items[i].assoc == v.items[i].assoc && r.items[i].frame == v.items[i].frame
    ensures forall i :: 0 <= i < |r.items| && !IsFirstWith(v.items, v.config.current, i) && !IsFirstWith(v.items, tendToMode, i) ==>
      r.items[i] == v.items[i]
    ensures HasIndex(v.items, v.config.current) && HasIndex(v.items, tendToMode) ==>
      var vals := Values(factor, v.config.itemScaleFactor);
      && (forall i :: IsFirstWith(v.items, tendToMode, i) ==>
            r.items[i].alpha == Max(0.5, vals.otherProgress) && r.items[i].transform == Uniform(vals.otherScale))
      && (forall i :: IsFirstWith(v.items, v.config.current, i) && tendToMode != v.config.current ==>
            r.items[i].alpha == Max(0.5, vals.currentProgress) && r.items[i].transform == Uniform(vals.currentScale))
      && r.mark == (if v.config.isShowMarkItem
                    then ScrubMark(factor, MarkRect(v.config, v.rects, v.config.current), MarkRect(v.config, v.rects, tendToMode))
                    else v.mark)
    ensures !v.config.isShowMarkItem ==> r.mark == v.mark
  {
    match (FirstWith(v.items, v.config.current), FirstWith(v.items, tendToMode))
    case (Some(ci), Some(oi)) =>
      var vals := Values(factor, v.config.itemScaleFactor);
      var items := ScrubItems(v.items, ci, oi, vals);
      assert forall i :: IsFirstWith(v.items, tendToMode, i) ==> i == oi;
      assert forall i :: IsFirstWith(v.items, v.config.current, i) ==> i == ci;
      if v.config.isShowMarkItem then
        var endRect := MarkRect(v.config, v.rects, tendToMode);
        var currentRect := MarkRect(v.config, v.rects, items[ci].SegmentIndex());
        v.(items := items, mark := ScrubMark(factor, currentRect, endRect))
      else
        v.(items := items)
    case _ => v
  }
}
