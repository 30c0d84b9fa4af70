/** The scrollable factory (`createBottomSheetScrollableComponent`): the
    render-time usage guard, the animated scroll props, the footer margin and
    style list, and the two writers of the `'list'` entry of the content-height
    map (the content-size handler and the estimated-height effect). */
module Scrollable {
  import opened Wrappers
  import opened Styles
  import opened ContentHeights

  const OUTSIDE_SHEET_ERROR: string := "'Scrollable' cannot be used out of the BottomSheet!"

  /** The error thrown while rendering a scrollable that wants content
      panning but finds no draggable gesture in context, or None. */
  function UsageCheck(hasDraggableGesture: bool, enableContentPanningGesture: bool): (err: Option<string>)
    ensures err.Some? <==> !hasDraggableGesture && enableContentPanningGesture
    ensures err.Some? ==> err.value == OUTSIDE_SHEET_ERROR
  {
    if !hasDraggableGesture && enableContentPanningGesture then Some(OUTSIDE_SHEET_ERROR) else None
  }

  /** The sheet's scroll-lock mode, as republished to nested scrollables. */
  datatype ScrollableState = Locked | Unlocked

  datatype ScrollProps = ScrollProps(decelerationRate: real, showsVerticalScrollIndicator: bool)

  /** The animated props of the scrollable: the deceleration rate the sheet's
      mapper gives for the current state, and the indicator, which is shown
      only when the caller asks for it (the default, when the prop is absent)
      and the sheet has unlocked scrolling. */
  function AnimatedScrollProps(state: ScrollableState, showsVerticalScrollIndicator: Option<bool>,
                               decelerationRateOf: ScrollableState -> real): (p: ScrollProps)
    ensures p.showsVerticalScrollIndicator <==> showsVerticalScrollIndicator != Some(false) && state == Unlocked
    ensures p.decelerationRate == decelerationRateOf(state)
  {
    var shows := showsVerticalScrollIndicator.GetOr(true);
    ScrollProps(decelerationRateOf(state), if shows then state == Unlocked else shows)
  }

  /** The `marginBottom` of the animated container style; the adjustment is
      off when the prop is absent. */
  function FooterMargin(enableFooterMarginAdjustment: Option<bool>, footerHeight: real): (margin: real)
    ensures enableFooterMarginAdjustment == Some(true) ==> margin == footerHeight
    ensures enableFooterMarginAdjustment != Some(true) ==> margin == 0.0
  {
    if enableFooterMarginAdjustment.GetOr(false) then footerHeight else 0.0
  }

  /** The user's style as a list: kept if already a list, wrapped if single,
      empty if absent. */
  function UserStyleItems(style: StyleProp): (items: seq<StyleItem>)
    ensures style.Absent? ==> items == []
    ensures style.Single? ==> items == [style.item]
    ensures style.Items? ==> items == style.items
  {
    match style
    case Absent => []
    case Single(item) => [item]
    case Items(items) => items
  }

  /** The container style: with footer adjustment, every user style followed
      by the animated footer-margin style; without (the default), the user
      style as given. */
  function ContainerStyle(style: StyleProp, enableFooterMarginAdjustment: Option<bool>): (r: StyleProp)
    ensures enableFooterMarginAdjustment != Some(true) ==> r == style
    ensures enableFooterMarginAdjustment == Some(true) ==>
              r.Items? && |r.items| == |UserStyleItems(style)| + 1
              && r.items[|r.items| - 1] == FooterMarginAnimated
              && r.items[..|r.items| - 1] == UserStyleItems(style)
  {
    if enableFooterMarginAdjustment.GetOr(false) then Items(UserStyleItems(style) + [FooterMarginAnimated]) else style
  }

  /** A numeric `estimatedListHeight` is truthy when present and non-zero. */
  predicate Truthy(estimate: Option<real>): (t: bool)
    ensures t <==> estimate != None && estimate != Some(0.0)
  {
    estimate.Some? && estimate.value != 0.0
  }

  /** The height map after the list of `route` reports `height`: when the
      report is accepted (dynamic sizing on and the list mounted) the entry
      grows to `height` if that is larger; nothing else ever changes. */
  function ListReport(m: HeightMap, route: string, accepting: bool, height: real): (r: HeightMap)
    ensures !accepting ==> r == m
    ensures accepting ==>
              Entry(r, route, LIST_REGION) ==
              if Entry(m, route, LIST_REGION) < height then height else Entry(m, route, LIST_REGION)
    ensures Entry(r, route, LIST_REGION) >= Entry(m, route, LIST_REGION)
    ensures forall k :: k in m && k != route ==> k in r && r[k] == m[k]
    ensures forall k :: k in r && k != route ==> k in m
    ensures forall n :: n != LIST_REGION ==> Entry(r, route, n) == Entry(m, route, n)
  {
    if accepting && Entry(m, route, LIST_REGION) < height then WithEntry(m, route, LIST_REGION, height) else m
  }

  /** The height map after the estimated-height effect of `route`. */
  function EstimateWrite(m: HeightMap, route: string, estimate: Option<real>): (r: HeightMap)
    ensures Truthy(estimate) ==> r == WithEntry(m, route, LIST_REGION, estimate.value)
                                 && Entry(r, route, LIST_REGION) == estimate.value
    ensures !Truthy(estimate) ==> r == m
  {
    if Truthy(estimate) then WithEntry(m, route, LIST_REGION, estimate.value) else m
  }

  /** What the content-size handler calls besides the height map. */
  datatype ListCall = SetContentSize(height: real) | OnContentSizeChange(width: real, height: real)

  /** The scrollable list of one sheet: `mounted` is the component's ref and
      `heights` the content-height map it shares with the sheet. Route key
      and dynamic sizing come from the sheet context and may differ from one
      render to the next, so they are passed to each callback. */
  class ScrollableList {
    const heights: HeightMapRef
    var mounted: bool

    /** `useRef(!estimatedListHeight)`: only a list without an estimate
        accepts content-size reports from the start. */
    constructor (heights: HeightMapRef, estimatedListHeight: Option<real>)
      ensures this.heights == heights
      ensures mounted <==> !Truthy(estimatedListHeight)
    {
      this.heights := heights;
      mounted := !Truthy(estimatedListHeight);
    }

    /** `handleContentSizeChange`: always tells the sheet the content height
        and always forwards to the user's handler when there is one; grows the
        list entry only under dynamic sizing and once mounted. */
    method HandleContentSizeChange(routeKey: string, enableDynamicSizing: bool, hasOnContentSizeChange: bool,
                                   width: real, height: real) returns (calls: seq<ListCall>)
      modifies heights
      ensures heights.current == ListReport(old(heights.current), routeKey, enableDynamicSizing && mounted, height)
      ensures var grows := enableDynamicSizing && mounted && Entry(old(heights.current), routeKey, LIST_REGION) < height;
              (grows ==> heights.published == heights.current && heights.publications == old(heights.publications) + 1)
              && (!grows ==> heights.published == old(heights.published) && heights.publications == old(heights.publications))
      ensures calls == [SetContentSize(height)] + if hasOnContentSizeChange then [OnContentSizeChange(width, height)] else []
    {
      calls := [SetContentSize(height)];
      if enableDynamicSizing {
        if mounted && Entry(heights.current, routeKey, LIST_REGION) < height {
          heights.Publish(WithEntry(heights.current, routeKey, LIST_REGION, height));
        }
      }
      if hasOnContentSizeChange {
        calls := calls + [OnContentSizeChange(width, height)];
      }
    }

    /** The `estimatedListHeight` effect: a truthy estimate overwrites the
        list entry unconditionally and opens the list to later reports. */
    method EstimatedHeightEffect(routeKey: string, estimatedListHeight: Option<real>)
      modifies this, heights
      ensures heights.current == EstimateWrite(old(heights.current), routeKey, estimatedListHeight)
      ensures mounted == (old(mounted) || Truthy(estimatedListHeight))
      ensures Truthy(estimatedListHeight) ==>
                heights.published == heights.current && heights.publications == old(heights.publications) + 1
      ensures !Truthy(estimatedListHeight) ==>
                heights.published == old(heights.published) && heights.publications == old(heights.publications)
    {
      if Truthy(estimatedListHeight) {
        heights.Publish(WithEntry(heights.current, routeKey, LIST_REGION, estimatedListHeight.value));
        mounted := true;
      }
    }
  }

  /** Rendering a scrollable: the usage guard throws before anything else
      exists; otherwise a list with its `mounted` ref. */
  method Render(hasDraggableGesture: bool, enableContentPanningGesture: bool,
                heights: HeightMapRef, estimatedListHeight: Option<real>) returns (r: Result<ScrollableList, string>)
    ensures r.Failure? <==> UsageCheck(hasDraggableGesture, enableContentPanningGesture).Some?
    ensures r.Failure? ==> r.error == OUTSIDE_SHEET_ERROR
    ensures r.Success? ==> fresh(r.value) && r.value.heights == heights
                           && (r.value.mounted <==> !Truthy(estimatedListHeight))
  {
    var err := UsageCheck(hasDraggableGesture, enableContentPanningGesture);
    if err.Some? {
      return Failure(err.value);
    }
    var list := new ScrollableList(heights, estimatedListHeight);
    return Success(list);
  }

  /** The list entry's largest value over `e` and the reports `hs`. */
  function MaxFold(e: real, hs: seq<real>): (r: real)
    ensures r >= e
    ensures forall i :: 0 <= i < |hs| ==> r >= hs[i]
    ensures r == e || exists i :: 0 <= i < |hs| && r == hs[i]
    decreases |hs|
  {
    if hs == [] then e
    else
      var r := MaxFold(if e < hs[0] then hs[0] else e, hs[1..]);
      assert forall i :: 1 <= i < |hs| ==> hs[i] == hs[1..][i - 1];
      r
  }

  /** The height map after the list reports `hs`, one after another: a
      refused run changes nothing, and the list entry never shrinks. */
  function ReportAll(m: HeightMap, route: string, accepting: bool, hs: seq<real>): (r: HeightMap)
    ensures !accepting ==> r == m
    ensures Entry(r, route, LIST_REGION) >= Entry(m, route, LIST_REGION)
    decreases |hs|
  {
    if hs == [] then m else ReportAll(ListReport(m, route, accepting, hs[0]), route, accepting, hs[1..])
  }

  /** Grow-only: after any run of accepted reports the list entry is the
      largest of its old value and every reported height. */
  lemma {:induction false} ReportAllIsRunningMax(m: HeightMap, route: string, hs: seq<real>)
    ensures Entry(ReportAll(m, route, true, hs), route, LIST_REGION) == MaxFold(Entry(m, route, LIST_REGION), hs)
    decreases |hs|
  {
    if hs != [] {
      ReportAllIsRunningMax(ListReport(m, route, true, hs[0]), route, hs[1..]);
    }
  }

  /** A run of list reports touches no other cell of the map. */
  lemma {:induction false} ReportAllKeepsOtherCells(m: HeightMap, route: string, accepting: bool, hs: seq<real>,
                                                    route': string, region': string)
    requires route' != route || region' != LIST_REGION
    ensures Entry(ReportAll(m, route, accepting, hs), route', region') == Entry(m, route', region')
    decreases |hs|
  {
    if hs != [] {
      var m' := ListReport(m, route, accepting, hs[0]);
      assert Entry(m', route', region') == Entry(m, route', region');
      ReportAllKeepsOtherCells(m', route, accepting, hs[1..], route', region');
    }
  }

  /** After a truthy estimate, reports no larger than the estimate leave the
      map exactly as the estimate wrote it. */
  lemma {:induction false} EstimateAbsorbsSmallerReports(m: HeightMap, route: string, estimate: Option<real>, hs: seq<real>)
    requires Truthy(estimate)
    requires forall i :: 0 <= i < |hs| ==> hs[i] <= estimate.value
    ensures ReportAll(EstimateWrite(m, route, estimate), route, true, hs) == EstimateWrite(m, route, estimate)
    decreases |hs|
  {
    if hs != [] {
      var w := EstimateWrite(m, route, estimate);
      assert ListReport(w, route, true, hs[0]) == w;
      EstimateAbsorbsSmallerReports(m, route, estimate, hs[1..]);
    }
  }
}
