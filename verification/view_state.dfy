/**
 * The segment view's state: its configuration, the `items` array, the
 * per-index rect cache, the mark view's frame and the scroll container's
 * content width; plus the index lookups the engine performs over `items`.
 */
module ViewState {

  import opened Wrappers
  import opened Geometry
  import opened Configuration
  import opened SegmentItem

  /** The `(old, new)` pair handed to the change callback. */
  datatype Event = Event(oldMode: int, newMode: int)

  datatype View = View(
    config: Config,
    items: seq<Item>,
    rects: map<int, Rect>,
    mark: Rect,
    contentWidth: real
  )

  predicate HasIndex(items: seq<Item>, m: int) {
    exists i :: 0 <= i < |items| && items[i].SegmentIndex() == m
  }

  /** Position `i` holds the first item whose segment index is `m`. */
  predicate IsFirstWith(items: seq<Item>, m: int, i: int) {
    && 0 <= i < |items|
    && items[i].SegmentIndex() == m
    && forall j :: 0 <= j < i ==> items[j].SegmentIndex() != m
  }

  /** Position `i` holds the last item whose segment index is `m`. */
  predicate IsLastWith(items: seq<Item>, m: int, i: int) {
    && 0 <= i < |items|
    && items[i].SegmentIndex() == m
    && forall j :: i < j < |items| ==> items[j].SegmentIndex() != m
  }

  /** The two sequences carry the same segment indices, position by position. */
  predicate SameIndices(a: seq<Item>, b: seq<Item>) {
    |a| == |b| && forall i :: 0 <= i < |a| ==> a[i].SegmentIndex() == b[i].SegmentIndex()
  }

  /** No segment index occurs twice. */
  predicate DistinctIndices(items: seq<Item>) {
    forall i, j :: 0 <= i < j < |items| ==> items[i].SegmentIndex() != items[j].SegmentIndex()
  }

  /** `items.first(where: p)`, as a position: the first item satisfying `p`, if any. */
  function FirstWhere(items: seq<Item>, p: Item -> bool): (r: Option<nat>)
    ensures r.None? <==> forall i :: 0 <= i < |items| ==> !p(items[i])
    ensures r.Some? ==> r.value < |items| && p(items[r.value])
    ensures r.Some? ==> forall j :: 0 <= j < r.value ==> !p(items[j])
  {
    if |items| == 0 then None
    else if p(items[0]) then Some(0)
    else match FirstWhere(items[1..], p)
      case None =>
        assert forall i :: 1 <= i < |items| ==> items[i] == items[1..][i - 1];
        None
      case Some(k) =>
        assert forall j :: 1 <= j < k + 1 ==> items[j] == items[1..][j - 1];
        Some(k + 1)
  }

  /** `items.first(where: { $0.segmentIndex == m })`, as a position. */
  function FirstWith(items: seq<Item>, m: int): (r: Option<nat>)
    ensures r.None? <==> !HasIndex(items, m)
    ensures r.Some? ==> IsFirstWith(items, m, r.value)
  {
    FirstWhere(items, (it: Item) => it.SegmentIndex() == m)
  }

  /** The position of the last item whose segment index is `m`. */
  function LastWith(items: seq<Item>, m: int): (r: Option<nat>)
    ensures r.None? <==> !HasIndex(items, m)
    ensures r.Some? ==> IsLastWith(items, m, r.value)
  {
    if |items| == 0 then None
    else if items[|items| - 1].SegmentIndex() == m then Some(|items| - 1)
    else
      var r := LastWith(items[..|items| - 1], m);
      assert forall i :: 0 <= i < |items| - 1 ==> items[i] == items[..|items| - 1][i];
      r
  }

  /**
   * Only the segment indices decide which position is the last with a given
   * index; `LastWith`'s contract alone already fixes that position.
   */
  lemma LastWithFollowsIndices(a: seq<Item>, b: seq<Item>, m: int)
    requires SameIndices(a, b)
    ensures LastWith(a, m) == LastWith(b, m)
  {
  }

  /**
   * The selection loop's last match and `first(where:)` differ exactly when
   * the index occurs at two positions; with distinct indices they agree.
   */
  lemma FirstAndLastDifferOnRepeats(items: seq<Item>, m: int)
    ensures FirstWith(items, m) != LastWith(items, m) <==>
      exists i, j :: 0 <= i < j < |items| && items[i].SegmentIndex() == m && items[j].SegmentIndex() == m
    ensures DistinctIndices(items) ==> FirstWith(items, m) == LastWith(items, m)
  {
  }
}
