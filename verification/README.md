# ScrollableSegment — a Dafny model of the segment engine

`ScrollableSegmentView` is a UIKit segmented control. It holds a row of item
views inside a horizontally scrolling container and a "mark" view behind the
selected item. It can select an item discretely, through `selectedMode`, a tap
or the `currentMode` setter. It can also scrub continuously between two items
with `progress(_:tendToMode:)`, which is meant to be driven by a pager's
scroll offset.

This project models the engine behind that control as pure functions over
immutable records:

- **Values.** `CGFloat` is modelled as `real`. `CGRect` is modelled as `Geometry.Rect`. Its `minX`, `maxX`, `minY`, `width` and `height` accessors standardise the rectangle as CoreGraphics does; writes to the raw fields do not.
- **Items.** Any view can serve as an item. The model is `SegmentItem.Item`: an association table holding the `isSelected` and `segmentIndex` entries, plus alpha, transform and frame.
- **View state.** `ViewState.View` holds the configuration, the `items` array, the per-index rect cache, the mark view's frame and the scroll container's content width.
- **Item creation.** `SegmentView.InitItems` keeps the old items and appends one new, stamped item per position `0..<count`.
- **Layout.** `Layout.LayoutItems` and `Layout.LayoutSubviews` place the items left to right, rebuild the rect cache, reselect the current mode and set the content width.
- **Discrete selection.** `Selection.Change` returns the new view together with the optional `(old, new)` event that the change callback receives.
- **Scrubbing.** `Scrub.ProgressToward` applies the two items' progress and scale responses and moves the mark to the interpolated rectangle.
- **Host interactions.** `SegmentView.Step` gathers the host's interactions into one step function and states which of them fire the callback. The interactions it covers are the two setters, a direct write of the public `configuration` property, another call of the public `commit()`, `selectedMode`, a tap, a scrub and a layout pass.

The model follows the code as written, including these behaviours:

- **The callback fires whenever the notifying path runs.** This includes `old == new`.
- **Selection is not clamped.** A `currentMode` that matches no item leaves every item unselected.
- **Changing the count appends.** The previous items are only removed from the view hierarchy, never from `items`. Later layout passes therefore place them and cache their frames. Selection passes flag them too.
- **Two selected items are possible after a count change.** See `SegmentView.CountChangeDuplicatesSelection`.
- **The selection loop and the scrub pick different items.** The loop emphasises the last item whose index matches. The scrub uses the first (`items.first(where:)`). They can differ only when the mode's index occurs more than once; with distinct indices they always agree (`ViewState.FirstAndLastDifferOnRepeats`).

Every source path below is relative to the repository root.

## Model

| member | source | states |
|---|---|---|
| Configuration.Init | Sources/ScrollableSegment/ScrollableSegmentViewConfiguration.swift:10-39 | the initializer stores exactly the given count and current (both defaulting to 0, no relation between them demanded); item size 50×44, spacing 16, offset 18, scale factor 1, mark shown at vertical offset 0, corner radius 8 and the documented HSBA colour |
| SegmentItem.Item.SetSelected | Sources/ScrollableSegment/ScrollableSegmentViewItem.swift:36-55 | reading the flag back after setting it returns the stored value; the segment index and all visual state are unchanged, because the two entries use separate keys |
| SegmentItem.Item.SetSegmentIndex | Sources/ScrollableSegment/ScrollableSegmentViewItem.swift:57-75 | reading the index back returns the stored value; the flag and all visual state are unchanged |
| SegmentItem.Item.Progress | Sources/ScrollableSegment/ScrollableSegmentViewItem.swift:20-22 | the default progress response never lets alpha drop below 0.5, copies values of at least 0.5, pins smaller ones at 0.5, and changes nothing but alpha |
| SegmentItem.Item.ScaleProgress | Sources/ScrollableSegment/ScrollableSegmentViewItem.swift:24-26 | the default scale response puts the same factor on both axes and changes nothing else |
| SegmentItem.Blank | Sources/ScrollableSegment/ScrollableSegmentView.swift:29 | the default factory's plain view is unselected, reads index 0, and is opaque, untransformed and zero-framed |
| SegmentItem.UnassignedDefaults | Sources/ScrollableSegment/ScrollableSegmentViewItem.swift:37-65 | an item whose entries were never assigned reads `isSelected == false` and `segmentIndex == 0` |
| SegmentItem.WritesCommute | Sources/ScrollableSegment/ScrollableSegmentViewItem.swift:31-34 | the two keys are independent, so setting flag and index commutes |
| ViewState.FirstWith | Sources/ScrollableSegment/ScrollableSegmentView.swift:136-137 | `first(where:)` by index: absent exactly when no item carries the index, otherwise the position of the first one that does |
| ViewState.LastWith | Sources/ScrollableSegment/ScrollableSegmentView.swift:280-288 | the item the selection loop records last: absent exactly when no item carries the index, otherwise the last position carrying it |
| ViewState.FirstAndLastDifferOnRepeats | Sources/ScrollableSegment/ScrollableSegmentView.swift:136-137 | the scrub's `first(where:)` and the selection loop's last match (lines 280-288) differ exactly when the mode's index occurs at two positions; with distinct indices they pick the same item |
| ViewState.LastWithFollowsIndices | Sources/ScrollableSegment/ScrollableSegmentView.swift:280-288 | which item the loop records depends only on the items' indices, so it survives any pass that keeps indices |
| Selection.MarkRect | Sources/ScrollableSegment/ScrollableSegmentView.swift:265-271 | the mark rectangle for a mode is the cached frame, or the zero rect when none is cached, with the same centre and half the spacing added on each side; it is shifted down by the mark offset and keeps the frame's height |
| Selection.FlagMatchesIndex | Sources/ScrollableSegment/ScrollableSegmentView.swift:282 | after a selection pass an item is selected exactly when its own index equals the mode |
| Selection.Reset | Sources/ScrollableSegment/ScrollableSegmentView.swift:282-284 | the per-item reset: the flag is set from the item's own index, the index and frame are kept, alpha is 0.5 and the transform is the uniform scale `1/s` |
| Selection.Emphasize | Sources/ScrollableSegment/ScrollableSegmentView.swift:299-300 | the selected item's response: alpha 1 and the identity transform, with its associations and frame kept |
| Selection.ResetAll | Sources/ScrollableSegment/ScrollableSegmentView.swift:280-288 | every item gets the per-item reset: flag from its index, half opacity, scale `1/s` |
| Selection.ApplySelection | Sources/ScrollableSegment/ScrollableSegmentView.swift:275-304 | indices are kept; the flag is set exactly on items whose index is the mode; the last such item ends at alpha 1 and identity scale, every other item at alpha 0.5 and scale `1/s`; frames are untouched; no item is selected when none has the index |
| Selection.ResetStable | Sources/ScrollableSegment/ScrollableSegmentView.swift:282-300 | resetting or emphasising an already reset or emphasised item changes nothing |
| Selection.ApplySelectionAt | Sources/ScrollableSegment/ScrollableSegmentView.swift:280-300 | the pass's result at one position is the reset item, emphasised exactly at the recorded position |
| Selection.ApplySelectionIdempotent | Sources/ScrollableSegment/ScrollableSegmentView.swift:310-313 | a second selection pass for the same mode, as the notifying path runs through the `currentMode` setter, yields exactly the first pass's items |
| Selection.Commit | Sources/ScrollableSegment/ScrollableSegmentView.swift:273-304 | the committed effect of a change: the selection pass over the items with frames kept; configuration, cache and content width unchanged; the mark moved to the mode's mark rectangle when shown, otherwise left where it was |
| Selection.SetCurrentMode | Sources/ScrollableSegment/ScrollableSegmentView.swift:64-70 | the setter stores the index (unclamped) and applies the selection pass for it, with no event |
| Selection.Change | Sources/ScrollableSegment/ScrollableSegmentView.swift:273-315 | both paths apply the selection pass and move the mark; the silent path leaves the configuration alone and emits nothing; the notifying path makes the mode current and emits `(previous current, mode)` even when the two are equal |
| Layout.PlaceFrom | Sources/ScrollableSegment/ScrollableSegmentView.swift:224-237 | the placing loop after a given predecessor: each item takes its provider width, the configured height and its own y, and sits one spacing after its predecessor's right edge, or at the offset when there is none; nothing but the frame changes |
| Layout.LayoutFrames | Sources/ScrollableSegment/ScrollableSegmentView.swift:217-237 | the placing loop over all items satisfies the layout conditions: first x at the offset, each later x at the previous right edge plus the spacing, provider widths, configured height, indices kept |
| Layout.LaidOutUnique | Sources/ScrollableSegment/ScrollableSegmentView.swift:224-229 | the layout conditions determine every frame: two layouts of the same items with the same widths agree |
| Layout.RectCache | Sources/ScrollableSegment/ScrollableSegmentView.swift:222-237 | the cache is rebuilt from empty: its keys are exactly the items' indices, and the last item's frame is stored under its index |
| Layout.RectCacheHoldsLastFrame | Sources/ScrollableSegment/ScrollableSegmentView.swift:232-237 | under each index the cache holds the frame of the last item carrying it, since later writes overwrite earlier ones |
| Layout.CacheHoldsEveryFrame | Sources/ScrollableSegment/ScrollableSegmentView.swift:232-237 | with distinct indices the cache holds every item's frame under its own index |
| Layout.RectCacheFollowsFrames | Sources/ScrollableSegment/ScrollableSegmentView.swift:232-237 | the cache depends only on the items' indices and frames |
| Layout.SelectionKeepsLayout | Sources/ScrollableSegment/ScrollableSegmentView.swift:239 | the reselection at the end of layout keeps the layout conditions |
| Layout.SelectionFollowsIndices | Sources/ScrollableSegment/ScrollableSegmentView.swift:280-288 | a selection pass described relative to the placed items is equally a pass relative to the items before layout |
| Layout.LayoutItems | Sources/ScrollableSegment/ScrollableSegmentView.swift:217-241 | the items end up laid out and selected for the current mode; the cache is rebuilt from the final frames; the configuration and content width are unchanged; the mark is on the current mode's mark rectangle when shown |
| Layout.LayoutThenSelect | Sources/ScrollableSegment/ScrollableSegmentView.swift:231-239 | layout followed by the reselection adds up to a layout and a selection pass of the original items, with the cache unchanged by the reselection |
| Layout.LayoutSubviews | Sources/ScrollableSegment/ScrollableSegmentView.swift:121-131 | after the layout pass the content width (computed by `Layout.ContentWidth`) is the last item's right edge, or 0 with no items |
| Layout.LaidOutChain | Sources/ScrollableSegment/ScrollableSegmentView.swift:224-229 | a layout of laid-out items is still a layout of the original items |
| Layout.LayoutSubviewsIdempotent | Sources/ScrollableSegment/ScrollableSegmentView.swift:121-131 | running layout again with the same widths reproduces the frames, indices, selection flags, rect cache, content width and mark |
| Layout.SecondPassStable | Sources/ScrollableSegment/ScrollableSegmentView.swift:217-241 | a second layout-and-select pass over laid-out, selected items changes no frame, flag, cache entry or content width |
| Layout.LaidOutClosedForm | Sources/ScrollableSegment/ScrollableSegmentView.swift:224-236 | with non-negative widths item `i` starts at the offset plus the widths before it plus `i` spacings |
| Layout.ContentWidthClosedForm | Sources/ScrollableSegment/ScrollableSegmentView.swift:127-130 | with non-negative widths the content width is the offset plus all widths plus one spacing fewer than there are items |
| Layout.ThreeItemScenario | Sources/ScrollableSegment/ScrollableSegmentView.swift:224-229 | three 50-wide items with spacing 8 and offset 16 start at 16, 74 and 132, and the content is 182 wide |
| Scrub.ScaleFor | Sources/ScrollableSegment/ScrollableSegmentView.swift:154-162 | the scale for a progress: the larger of 1 and `1/s` at full progress, the smaller at none |
| Scrub.Values | Sources/ScrollableSegment/ScrollableSegmentView.swift:147-163 | the target's progress is `|f|` and the two progresses add up to 1; the two scales always add up to `min(1, 1/s) + max(1, 1/s)` |
| Scrub.ValuesEndpoints | Sources/ScrollableSegment/ScrollableSegmentView.swift:147-163 | at factor 0 the current item has full progress and the larger scale; at `|f| == 1` the roles are exactly swapped |
| Scrub.ScalesInRange | Sources/ScrollableSegment/ScrollableSegmentView.swift:154-163 | for `|f| <= 1` both scales lie between `min(1, 1/s)` and `max(1, 1/s)` |
| Scrub.ScaleForInRange | Sources/ScrollableSegment/ScrollableSegmentView.swift:159-162 | the scale formula maps progress in `[0, 1]` into `[min(1, 1/s), max(1, 1/s)]` |
| Scrub.DefaultScaleCollapses | Sources/ScrollableSegment/ScrollableSegmentViewConfiguration.swift:20 | with the default scale factor 1 every scrub scale is exactly 1 |
| Scrub.StartMatchesSelection | Sources/ScrollableSegment/ScrollableSegmentView.swift:154-163 | for `s >= 1` a scrub at factor 0 starts from the scales a selection committed (1 and `1/s`); for `0 < s < 1` it starts from the swapped pair |
| Scrub.ScrubMark | Sources/ScrollableSegment/ScrollableSegmentView.swift:169-185 | the sign-flag formula is a straight interpolation by `|f|`: x and width go from the current rectangle's to the target's; y and height come from the target |
| Scrub.ScrubMarkEndpoints | Sources/ScrollableSegment/ScrollableSegmentView.swift:169-185 | at factor 0 the mark's x and width are the current rectangle's; at `|f| == 1` they are the target's, and for a standard target the mark is the target rectangle, for either sign of `f` |
| Scrub.ScrubItems | Sources/ScrollableSegment/ScrollableSegmentView.swift:147-163 | the four item writes touch only the two items, only in alpha and transform; the target's values win when both are the same item |
| Scrub.ProgressToward | Sources/ScrollableSegment/ScrollableSegmentView.swift:134-188 | nothing changes when either index is missing; otherwise the first items carrying the current and target index take their progress and scale responses and the mark moves to the interpolated rectangle when shown; all other items and the configuration, cache and content width are unchanged |
| SegmentView.Stamp | Sources/ScrollableSegment/ScrollableSegmentView.swift:198-203 | a new item is marked unselected and carries its position as index, with its visual state as the factory made it |
| SegmentView.NewItems | Sources/ScrollableSegment/ScrollableSegmentView.swift:205-209 | the creation loop yields one stamped factory item per position `0..<n`, in order |
| SegmentView.InitItems | Sources/ScrollableSegment/ScrollableSegmentView.swift:191-215 | the old items stay in front, unchanged; `count` new items follow, unselected, with indices `0..<count` and the factory's frames; nothing else changes |
| SegmentView.Create | Sources/ScrollableSegment/ScrollableSegmentView.swift:75-93 | a new view holds exactly `count` unselected items with indices `0..<count`, all distinct; the cache is empty and the content width is 0; the factory defaults to `SegmentView.DefaultProvider`, the plain-view factory |
| SegmentView.DefaultCreateIsBlank | Sources/ScrollableSegment/ScrollableSegmentView.swift:29 | with the default factory every item of a new view sits at the zero frame, unselected, carrying its position |
| SegmentView.SetCount | Sources/ScrollableSegment/ScrollableSegmentView.swift:54-62 | the count is stored; the old items keep their indices and the new ones carry `0..<n`; an item is selected exactly when its index is the unclamped current index; the cache is rebuilt from the final frames; the selection pass, mark and content width are stated by `SegmentView.CountReselects` |
| SegmentView.LayoutAndReselect | Sources/ScrollableSegment/ScrollableSegmentView.swift:59-60 | layout followed by the silent reselection leaves the items laid out and selected for the current mode, with the cache rebuilt, the configuration and content width unchanged, and the mark on the current mode's mark rectangle when shown |
| SegmentView.CountReselects | Sources/ScrollableSegment/ScrollableSegmentView.swift:56-60 | after the count setter every item, old and new, has gone through the selection pass for the current index (last match emphasised, the rest at 0.5 and `1/s`); the content width is unchanged; the mark is on the current index's mark rectangle when shown, otherwise left where it was |
| SegmentView.CountLaysOutAllItems | Sources/ScrollableSegment/ScrollableSegmentView.swift:56-60 | the count setter lays out old and new items together, in array order, from the offset |
| SegmentView.CountFacts | Sources/ScrollableSegment/ScrollableSegmentView.swift:56-60 | item creation followed by a selection pass yields the count setter's indices and flags |
| SegmentView.CountIndices | Sources/ScrollableSegment/ScrollableSegmentView.swift:205-209 | after any index-keeping pass the old items keep their indices and the new ones carry their positions |
| SegmentView.SelectionExclusive | Sources/ScrollableSegment/ScrollableSegmentView.swift:280-288 | with distinct indices at most one item is selected, it carries the mode, and none is selected when no item carries it |
| SegmentView.CountChangeDuplicatesSelection | Sources/ScrollableSegment/ScrollableSegmentView.swift:194-209 | after a count change, an old item with the current index and the new item with that index are both selected, and they are two different items |
| SegmentView.SelectedMode | Sources/ScrollableSegment/ScrollableSegmentView.swift:243-245 | `selectedMode` always emits `(previous current, mode)`, makes the mode current, and selects exactly the items carrying it |
| ViewState.FirstWhere | Sources/ScrollableSegment/ScrollableSegmentView.swift:251-256 | the first item satisfying a predicate (the tap's `filter(...).first`, and `first(where:)`): absent exactly when no item satisfies it; otherwise an item that does with none before it |
| SegmentView.Tap | Sources/ScrollableSegment/ScrollableSegmentView.swift:248-263 | a tap that hits nothing changes nothing; otherwise the first hit item's index is selected with notification, and every item is selected exactly when it carries that index |
| SegmentView.TapSelectsFirstHit | Sources/ScrollableSegment/ScrollableSegmentView.swift:256-261 | the index a tap selects is that of the first hit item in array order; the event carries the previous current index |
| SegmentView.TapMissIsNoOp | Sources/ScrollableSegment/ScrollableSegmentView.swift:256-258 | a tap that misses every item leaves the view as it was and emits nothing |
| SegmentView.Step | Sources/ScrollableSegment/ScrollableSegmentView.swift:310-314 | an event is emitted exactly for `selectedMode` and for a tap that hits an item; it carries the previous current index, and its new index is current afterwards; otherwise only the `currentMode` setter and a direct `configuration` write change the current index; a direct write of the `configuration` property (line 72) stores the value and touches nothing else; calling `commit()` again (lines 101-111) appends `count` unselected items indexed `0..<count` behind the old ones and changes nothing else; the setters, `commit()`, scrubbing and layout never emit |

## Left out

- UIKit plumbing is not modelled: the scroll container, adding and removing subviews, the tap gesture recognizer, the `deinit` closure resets, the container frame and content height. These are view-hierarchy side effects.
- The mark view's provider, colour and corner radius are left out. Only the mark's frame is modelled. The mark starts at the zero rectangle.
- Hit testing (`convert(_:to:)`, `layer.contains`) is a UIKit call. A tap is modelled as a predicate `isHit` over items.
- The width provider is an injected closure. Its results are taken as a sequence of widths, one per item.
- The item factory is modelled as a function argument (`ItemProvider`).
- `UIView.animate` and its 0.25 s duration only affect timing. The committed values are modelled and the `isAnimated` flag is not.
- The `print` at ScrollableSegmentView.swift:307 is not modelled.
- Floating point is modelled as exact reals, with no rounding. A zero `itemScaleFactor` would make `1 / itemScaleFactor` an IEEE infinity, so the operations that divide by it require a non-zero factor.
- A negative `count` traps in Swift's range construction. `SegmentView.InitItems`, `SegmentView.Create` and `SegmentView.SetCount` require a non-negative count instead.
- Swift's fixed-width `Int` is modelled as an unbounded integer.
- A UIView's frame under a non-identity transform is undefined in UIKit. The model treats the frame as a plain stored rectangle.
- `commit()` also adds the container and a new tap gesture recognizer each time it runs. A repeated call therefore leaves several recognizers on the view; only its `initItems()` effect is modelled.
- SegmentItem.Item.Progress: alpha is kept unclamped. `progress(_:tendToMode:)` does not enforce the documented `-1 ... 1` factor range, so a factor beyond it asks the other item for an alpha above 1, which UIKit's layer opacity does not define; the model stores the value as given.
- Items are modelled as values, which assumes the item factory returns a distinct view on every call. A factory that hands out the same view twice makes two `items` entries one object, so stamping or restyling one changes the other. `SegmentView.CountChangeDuplicatesSelection` relies on the entries being distinct.
- `isSelected` and `segmentIndex` are protocol requirements (ScrollableSegmentViewItem.swift:11-12) that a conforming type may implement itself. Only the default implementations backed by associated objects (lines 36-76) are modelled, including their `false` and `0` defaults.
- Item response overrides are not modelled. Conforming types may override `progress` and `scaleProgress`; only the default policies are modelled.
- Sources/ScrollableSegment/ScrollableSegmentTextItem.swift is not part of this model. It is label styling and text measurement.
- Example/SS-Example/ViewController.swift is not part of this model. It is host-app code.
- Association entries are typed in the model. Objective-C bridging could read an `NSNumber` written under one key as the other type; the model reads an entry of the wrong type as the default. The engine never writes one key with the other's type.
- `SegmentView.Step` does not state the callback's `view` argument, only the `(old, new)` pair. The event is returned after the view has been updated, which matches the order in which the callback observes the view.
