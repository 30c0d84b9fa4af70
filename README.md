# Bottom-sheet content regions, backdrop and container, in Dafny

This project models four React Native components of a bottom sheet. They are
the parts that react to the sheet's shared state and write back to it:

- **Scrollable factory** (`createBottomSheetScrollableComponent`). It throws
  when a scrollable is used outside a sheet. It derives the animated scroll
  props and the footer-adjusted style list. Its list region writes the
  `'list'` entry of the content-height map. Content-size reports only grow
  that entry, and only once a `mounted` ref is set; a truthy
  `estimatedListHeight` overwrites the entry (up or down) and sets the ref.
- **`BottomSheetView`**. It writes its layout height under its `name`; the
  last write wins. It adds the footer height to the user's `marginBottom`.
- **`BottomSheetBackdrop`**. This covers the tap dispatcher, the clamped
  piecewise-linear opacity and the edge-triggered, mount-guarded touch-through
  toggle. It also covers the custom animated index that targets the next snap
  position, the non-animated style and the default accessibility hint.
- **`BottomSheetContainer`**. It publishes its height and its offset from the
  window edges, with a bottom inset that is never negative. It also reads
  numeric or shared inset props.

The content-height map (route key → region name → height) is the class
`ContentHeights.HeightMapRef`. It holds three things:

- the ref every writer rebuilds (`current`);
- the shared value the sheet observes (`published`);
- the number of times that shared value was reassigned (`publications`).

Writers are specified through the value-level functions `ListReport`,
`EstimateWrite` and `LayoutWrite`. The lemmas about those functions are the
grow-only, last-write-wins, idempotence, commutation and "nothing else changes"
properties. Component state that persists across renders is modelled as
classes: the list's `mounted` ref, and the backdrop's pointer-events state,
`isMounted` ref, previous reaction value and custom index. Reanimated shared
values are `Reactive.Shared<T>`. Per-render inputs are method parameters:
route key, dynamic sizing, props and measurements.

Heights, indices and opacities are `real`. The `-Infinity` of
`animatedNextPositionIndex` is the constructor `Backdrop.NegativeInfinity`.

The opacity uses Reanimated's `interpolate(..., Extrapolate.CLAMP)`. That
library is not part of this model's sources. `Interpolation` follows its
published algorithm, which has three steps:

- pick the last segment when the index is right of the range, else the
  segment ending at the first knot from the second one on that is not below
  the index (there is no separate test left of the range);
- interpolate linearly on that segment, taking the left output for a segment
  of zero width;
- clamp the result between the segment's two outputs.

Where a general description of this sheet differs from the code, the model
follows the code:

- Content-size reports go under the region `'list'` (not `"body"`). They only
  grow the entry and use no epsilon.
- A view republishes the map on every report, including an unchanged height.
  The map's contents stay equal (`SheetView.LayoutWriteIdempotent`), but
  `publications` still grows (`SheetView.HandleLayout`).
- A backdrop tap dispatches its command on every tap. Nothing suppresses
  repeated taps while the sheet is moving.

The view's `handleLayout` is memoised on `onLayout`, `animatedContentHeight`
and `enableDynamicSizing` only (BottomSheetView.tsx:94). The `name` and
`routeKey` it writes under are therefore the ones of the render at which one
of those last changed, not necessarily the current ones.
`SheetView.HandleLayout` takes both as parameters, so the caller passes the
captured values.

Props with a literal default are `Option` parameters resolved as the
component does: `showsVerticalScrollIndicator` (default true),
`enableFooterMarginAdjustment` (default false), `isAnimation` (default true),
`name`, `shouldCalculateHeight` and the insets.

## Model

| member | source | states |
|---|---|---|
| `ContentHeights.Entry` | src/components/bottomSheetScrollable/createBottomSheetScrollableComponent.tsx:116 | a missing route or region reads as 0, a present one as its stored height |
| `ContentHeights.WithEntry` | src/components/bottomSheetView/BottomSheetView.tsx:68-74 | the copy-and-replace write sets `[route][region]`. It keeps every other route identical and every other region of that route identical. Key sets grow by exactly the written keys |
| `ContentHeights.EntryOfWithEntry` | src/components/bottomSheetView/BottomSheetView.tsx:68-74 | reading a written map gives the new height at the written cell and the old reading at every other cell |
| `ContentHeights.WithEntryIdempotent` | src/components/bottomSheetView/BottomSheetView.tsx:68-75 | writing the same height twice gives the map after the first write |
| `ContentHeights.WithEntryLastWriteWins` | src/components/bottomSheetView/BottomSheetView.tsx:68-75 | of two writes to one cell, the later one alone decides the map |
| `ContentHeights.WithEntryCommutes` | src/components/bottomSheetScrollable/createBottomSheetScrollableComponent.tsx:117-123 | writes to different cells commute, so regions may report in any order |
| `ContentHeights.HeightMapRef.Publish` | src/components/bottomSheetView/BottomSheetView.tsx:68-75 | the ref and the shared value both become the new map, and the publication count grows by one |
| `Scrollable.UsageCheck` | src/components/bottomSheetScrollable/createBottomSheetScrollableComponent.tsx:80-82 | the "cannot be used out of the BottomSheet" error occurs iff content panning is on and no draggable gesture is in context |
| `Scrollable.Render` | src/components/bottomSheetScrollable/createBottomSheetScrollableComponent.tsx:80-108 | rendering fails with exactly that error, else yields a fresh list whose `mounted` is true iff there is no truthy estimate |
| `Scrollable.AnimatedScrollProps` | src/components/bottomSheetScrollable/createBottomSheetScrollableComponent.tsx:85-94 | the indicator is shown iff it is not turned off (absent means on) and the state is UNLOCKED. The deceleration rate is the mapper's value for the state |
| `Scrollable.FooterMargin` | src/components/bottomSheetScrollable/createBottomSheetScrollableComponent.tsx:151-158 | the margin is the footer height with adjustment turned on, else 0 (absent means off) |
| `Scrollable.UserStyleItems` | src/components/bottomSheetScrollable/createBottomSheetScrollableComponent.tsx:162 | a list style is kept, a single style wrapped, an absent one empty |
| `Scrollable.ContainerStyle` | src/components/bottomSheetScrollable/createBottomSheetScrollableComponent.tsx:159-166 | with adjustment turned on, a list of the user items followed by the animated margin style. Without it (absent means off), the user style unchanged |
| `Scrollable.ListReport` | src/components/bottomSheetScrollable/createBottomSheetScrollableComponent.tsx:114-125 | an accepted report sets the list entry to the max of old (missing = 0) and new. A refused one (dynamic sizing off or not mounted) leaves the map unchanged. The entry never shrinks, other routes are identical and other regions keep their readings |
| `Scrollable.EstimateWrite` | src/components/bottomSheetScrollable/createBottomSheetScrollableComponent.tsx:134-145 | a truthy estimate sets the list entry to the estimate whatever it held. Otherwise the map is unchanged |
| `Scrollable.Truthy` | src/components/bottomSheetScrollable/createBottomSheetScrollableComponent.tsx:108 | an estimate is truthy iff it is present and not 0 |
| `Scrollable.ScrollableList.constructor` | src/components/bottomSheetScrollable/createBottomSheetScrollableComponent.tsx:108 | `mounted` starts true iff there is no truthy estimate |
| `Scrollable.ScrollableList.HandleContentSizeChange` | src/components/bottomSheetScrollable/createBottomSheetScrollableComponent.tsx:110-132 | the new map is `ListReport` of the old one. It is published iff the entry grows. `setContentSize(height)` is always called, and the user handler is forwarded iff given |
| `Scrollable.ScrollableList.EstimatedHeightEffect` | src/components/bottomSheetScrollable/createBottomSheetScrollableComponent.tsx:134-147 | the new map is `EstimateWrite` of the old one, published iff the estimate is truthy. `mounted` becomes true on a truthy estimate and is otherwise unchanged |
| `Scrollable.MaxFold` | src/components/bottomSheetScrollable/createBottomSheetScrollableComponent.tsx:116-121 | the running maximum is at least the start and every report, and equals one of them |
| `Scrollable.ReportAll` | src/components/bottomSheetScrollable/createBottomSheetScrollableComponent.tsx:114-125 | a run of refused reports leaves the map unchanged, and no run shrinks the list entry |
| `Scrollable.ReportAllIsRunningMax` | src/components/bottomSheetScrollable/createBottomSheetScrollableComponent.tsx:114-125 | after any run of accepted reports the list entry is the maximum of its old value and all reported heights |
| `Scrollable.ReportAllKeepsOtherCells` | src/components/bottomSheetScrollable/createBottomSheetScrollableComponent.tsx:117-123 | a run of list reports leaves every other cell's reading unchanged |
| `Scrollable.EstimateAbsorbsSmallerReports` | src/components/bottomSheetScrollable/createBottomSheetScrollableComponent.tsx:114-145 | after a truthy estimate, reports no larger than it leave the map exactly as the estimate wrote it |
| `SheetView.RegionName` | src/components/bottomSheetView/BottomSheetView.tsx:20 | the name defaults to `'no_name_view'` only when absent |
| `SheetView.LayoutWrite` | src/components/bottomSheetView/BottomSheetView.tsx:66-77 | with dynamic sizing and a non-empty name, `[route][name]` becomes the height whatever it was. Otherwise the map is unchanged. Other routes are identical and other names keep their readings |
| `SheetView.LayoutWriteIdempotent` | src/components/bottomSheetView/BottomSheetView.tsx:68-75 | reporting the same height twice leaves the map as after the first report |
| `SheetView.LayoutWriteLastWins` | src/components/bottomSheetView/BottomSheetView.tsx:68-75 | two successive reports of a view equal the later report alone |
| `SheetView.LayoutWritesCommute` | src/components/bottomSheetView/BottomSheetView.tsx:68-74 | reports of views with different names or routes commute |
| `SheetView.HandleLayout` | src/components/bottomSheetView/BottomSheetView.tsx:64-81 | the new map is `LayoutWrite` of the old one. It is republished (count + 1) on every enabled report, even an unchanged one. `onLayout` is forwarded iff given |
| `SheetView.UserMarginBottom` | src/components/bottomSheetView/BottomSheetView.tsx:46-49 | the user's `marginBottom` when it is a number, else 0 |
| `SheetView.ViewContainerStyle` | src/components/bottomSheetView/BottomSheetView.tsx:41-55 | without adjustment (absent means off), the flattened style (or `{}`). With it, the same keys plus `marginBottom`, which is the user's numeric margin plus the footer height. Every other key keeps its value |
| `Interpolation.FirstCovering` | src/components/bottomSheetBackdrop/BottomSheetBackdrop.tsx:135-140 | the first knot from `i` on that is not below `x`. All knots skipped are below `x` |
| `Interpolation.Narrow` | src/components/bottomSheetBackdrop/BottomSheetBackdrop.tsx:135-140 | the segment chosen runs between consecutive knots k-1 and k, where k covers `x`: the last knot when `x` is right of the range, else the first knot from index 1 on that is not below `x` |
| `Interpolation.CoversUnique` | src/components/bottomSheetBackdrop/BottomSheetBackdrop.tsx:135-140 | at most one knot covers `x`, so the chosen segment is determined |
| `Interpolation.CoveredSegmentContains` | src/components/bottomSheetBackdrop/BottomSheetBackdrop.tsx:135-140 | on increasing knots, an `x` inside the range lies between the two knots of its segment |
| `Interpolation.ClampedLerp` | src/components/bottomSheetBackdrop/BottomSheetBackdrop.tsx:135-140 | the value lies between the segment's outputs. A zero-width segment gives its left output. A linear value between the outputs is returned unchanged, and one beyond an output is replaced by that output |
| `Interpolation.Interpolate` | src/components/bottomSheetBackdrop/BottomSheetBackdrop.tsx:135-140 | the value is the clamped linear value on the covering segment, so it lies between the outputs of two consecutive knots |
| `Interpolation.InterpolateWithin` | src/components/bottomSheetBackdrop/BottomSheetBackdrop.tsx:135-140 | any bounds of all outputs bound the interpolated value |
| `Backdrop.HandleOnPress` | src/components/bottomSheetBackdrop/BottomSheetBackdrop.tsx:81-91 | `onPress` comes first iff given. Then at most one sheet command: `close()` iff `'close'`, `snapToIndex(disappearsOnIndex)` for `'collapse'`, `snapToIndex(n)` for a number, and none iff `'none'` |
| `Backdrop.TapHandlerAttached` | src/components/bottomSheetBackdrop/BottomSheetBackdrop.tsx:201-207 | the tap handler is attached iff the press behaviour is not `'none'` |
| `Backdrop.Opacity` | src/components/bottomSheetBackdrop/BottomSheetBackdrop.tsx:135-140 | the opacity lies between 0 and the configured opacity |
| `Backdrop.OpacityZeroUpToDisappear` | src/components/bottomSheetBackdrop/BottomSheetBackdrop.tsx:133-143 | given disappears < appears, the opacity is 0 at every index <= disappears |
| `Backdrop.OpacityFullFromAppear` | src/components/bottomSheetBackdrop/BottomSheetBackdrop.tsx:133-143 | given disappears < appears, the opacity is the configured one at every index >= appears |
| `Backdrop.OpacityLinearBetween` | src/components/bottomSheetBackdrop/BottomSheetBackdrop.tsx:133-143 | strictly between the two indices the opacity is `opacity * (index - disappears) / (appears - disappears)`, also when disappears is below -1 |
| `Backdrop.OpacityWithinRange` | src/components/bottomSheetBackdrop/BottomSheetBackdrop.tsx:133-143 | for a non-negative configured opacity the result always lies in [0, opacity], for any thresholds |
| `Backdrop.OpacityMonotone` | src/components/bottomSheetBackdrop/BottomSheetBackdrop.tsx:133-143 | with ordered thresholds and a non-negative opacity, a higher index never gives a lower opacity |
| `Backdrop.OpacityLayerAt` | src/components/bottomSheetBackdrop/BottomSheetBackdrop.tsx:144-157 | animated (absent means animated): the interpolated opacity. Otherwise a transparent background iff opacity is 0, else the fixed opacity |
| `Backdrop.CustomIndexTarget` | src/components/bottomSheetBackdrop/BottomSheetBackdrop.tsx:123 | the target is the current index when the next index is the `-Infinity` sentinel, else the next index |
| `Backdrop.OpacityIndex` | src/components/bottomSheetBackdrop/BottomSheetBackdrop.tsx:128-130 | opacity is computed from the custom index iff `isCustomAnimatedIndex` |
| `Backdrop.PointerEventsFor` | src/components/bottomSheetBackdrop/BottomSheetBackdrop.tsx:75-77 | `'none'` iff touches pass through (initially: iff touch-through is enabled) |
| `Backdrop.NextPointerEvents` | src/components/bottomSheetBackdrop/BottomSheetBackdrop.tsx:161-170 | pointer events change only on a value that differs from the previous one and only while mounted. They then become `'none'` iff index <= disappearsOnIndex |
| `Backdrop.Replay` | src/components/bottomSheetBackdrop/BottomSheetBackdrop.tsx:161-170 | after a run of reactions the previous value is the last one seen, and while unmounted the pointer events never change |
| `Backdrop.MountedReplayTracksLatest` | src/components/bottomSheetBackdrop/BottomSheetBackdrop.tsx:161-170 | while mounted, and starting in agreement with the last value seen, any run of reactions leaves pointer events matching the latest value |
| `Backdrop.ChangeBeforeMountIsDropped` | src/components/bottomSheetBackdrop/BottomSheetBackdrop.tsx:92-98 | a change seen while unmounted is not applied, and repeating that value after mounting does not apply it either |
| `Backdrop.BackdropState.constructor` | src/components/bottomSheetBackdrop/BottomSheetBackdrop.tsx:62-77 | initial pointer events follow touch-through. The backdrop starts unmounted, with no value seen and custom index -1 |
| `Backdrop.BackdropState.Mount` | src/components/bottomSheetBackdrop/BottomSheetBackdrop.tsx:174-175 | the mount effect sets `isMounted` |
| `Backdrop.BackdropState.Unmount` | src/components/bottomSheetBackdrop/BottomSheetBackdrop.tsx:176-178 | the cleanup clears `isMounted` |
| `Backdrop.BackdropState.TouchabilityReaction` | src/components/bottomSheetBackdrop/BottomSheetBackdrop.tsx:161-170 | the new pointer events are `NextPointerEvents` of the old state, and the value seen is recorded as the previous one |
| `Backdrop.BackdropState.CustomIndexReaction` | src/components/bottomSheetBackdrop/BottomSheetBackdrop.tsx:113-126 | with a custom animated index, the index's target becomes `CustomIndexTarget`. Without one, nothing changes |
| `Backdrop.AccessibilityHint` | src/components/bottomSheetBackdrop/BottomSheetBackdrop.tsx:189-195 | a non-empty given hint is used as is. Otherwise the hint is "Tap to " + verb + " the Bottom Sheet", with the behaviour's verb between prefix and suffix |
| `Backdrop.BehaviorWord` | src/components/bottomSheetBackdrop/BottomSheetBackdrop.tsx:192-194 | the verb is the behaviour's own name for the string behaviours, and `move` exactly for a snap index |
| `Backdrop.GeneratedHint` | src/components/bottomSheetBackdrop/BottomSheetBackdrop.tsx:192-194 | the generated hint starts with "Tap to ", ends with " the Bottom Sheet", and the behaviour's verb is read back between them |
| `Backdrop.GeneratedHintDistinguishes` | src/components/bottomSheetBackdrop/BottomSheetBackdrop.tsx:192-194 | two generated hints are equal iff the behaviours are equal or both are numeric |
| `Container.RawValue` | src/components/bottomSheetContainer/BottomSheetContainer.tsx:15-18 | a plain number is returned unchanged, a shared value's current `.value` otherwise |
| `Container.ContainerOffset` | src/components/bottomSheetContainer/BottomSheetContainer.tsx:61-69 | top = `pageY ?? 0`, left = right = 0. The bottom is never negative, at least `WINDOW_HEIGHT - (pageY + height + statusBar)`, and either 0 or exactly that. It is 0 iff that sum reaches the window height |
| `Container.HandleContainerLayout` | src/components/bottomSheetContainer/BottomSheetContainer.tsx:51-82 | `containerHeight` becomes the layout height. The offset becomes `ContainerOffset` when measured and is unchanged when the view is not attached |
| `Container.LayoutHandlerAttached` | src/components/bottomSheetContainer/BottomSheetContainer.tsx:90 | the layout handler is attached unless `shouldCalculateHeight` is false (default true) |
| `Container.ContainerOverflow` | src/components/bottomSheetContainer/BottomSheetContainer.tsx:37 | overflow is visible iff detached, else hidden |
| `Container.AnimatedInsets` | src/components/bottomSheetContainer/BottomSheetContainer.tsx:43-46 | animated top and bottom are the raw values of the inset props, 0 when absent |

## Left out

- `BottomSheetFlashList`, `BottomSheetFlashListV2` and `BottomSheetBackdropContainer` are left out. They are prop pass-throughs with no logic of their own.
- Reanimated scheduling is left out: `useAnimatedReaction`/`useDerivedValue` timing, `runOnJS` and UI-thread versus JS-thread ordering. Each reaction and callback is one atomic step, taken in the order the caller chooses.
- `Backdrop.BackdropState.CustomIndexReaction`: the `withTiming` curve is not modelled. The custom index holds the animation's target, not its in-flight values.
- The memoisation of the view's `handleLayout` on its dependency list is not modelled. Callers pass the `name` and `routeKey` it captured.
- The touchability reaction is not re-created when `disappearsOnIndex` changes. The previous value it has seen is kept.
- Gesture composition is left out: `scrollableGesture`, `Gesture.Native()`, `TapGestureHandler`, `useAnimatedGestureHandler`.
- `measure` is asynchronous. Its outcome is the `Container.Measurement` parameter, applied in the same step as the height write.
- `useScrollHandler`, `useScrollableSetter`, `useImperativeHandle` and `useBottomSheetContentSizeSetter` are not part of this model. `setContentSize` appears only as a recorded call.
- `SCROLLABLE_DECELERATION_RATE_MAPPER` is a function parameter. The `DEFAULT_*` constants, `WINDOW_HEIGHT` and `StatusBar.currentHeight` are also parameters.
- The sheet's constants file is not part of this model. `SCROLLABLE_STATE` is modelled as LOCKED and UNLOCKED only.
- `StyleSheet.flatten` is not modelled. `SheetView.ViewContainerStyle` takes the flattened style as input.
- `Backdrop.OpacityLayerAt`: only the third entry of the backdrop style list is modelled. The fixed `styles.container` and the user style before it are passed through.
- The accessibility props other than the hint, and the scrollable's other pass-through props (`overScrollMode`, `keyboardDismissMode`, refresh props, `...rest`), are left out. The components only forward them.
- `print` logging, `__DEV__`, the commented-out `handleSettingScrollable`, and the rendered JSX structure are left out.
- Numbers are exact reals. Only `0` is a falsy estimate, because NaN and floating-point rounding are not represented.
- `'length' in style` is modelled as "the style is an array". A style object with a `length` key is not represented.
- Snap-point resolution, gesture-to-position mapping, scroll-lock derivation, and the summing of the height map into snap points are not in these components. They are not modelled.
