/** `BottomSheetView`: a plain content region that reports its layout
    height under its own name, and its footer-adjusted container style. */
module SheetView {
  import opened Wrappers
  import opened Styles
  import opened ContentHeights

  const DEFAULT_NAME: string := "no_name_view"

  /** The region name: the `name` prop, defaulting to `'no_name_view'` when
      absent; an empty name stays empty (and is falsy). */
  function RegionName(name: Option<string>): (n: string)
    ensures name.None? ==> n == DEFAULT_NAME
    ensures name.Some? ==> n == name.value
  {
    name.GetOr(DEFAULT_NAME)
  }

  /** The height map after a layout of the view named `name` in `route`:
      under dynamic sizing and with a non-empty name the entry becomes the
      reported height, whatever it held before (last write wins); otherwise
      the map is not touched. */
  function LayoutWrite(m: HeightMap, enableDynamicSizing: bool, name: string, route: string, height: real): (r: HeightMap)
    ensures enableDynamicSizing && name != "" ==> route in r && name in r[route] && r[route][name] == height
    ensures !(enableDynamicSizing && name != "") ==> r == m
    ensures forall k :: k in m && k != route ==> k in r && r[k] == m[k]
    ensures forall k :: k in r && k != route ==> k in m
    ensures forall n :: n != name ==> Entry(r, route, n) == Entry(m, route, n)
  {
    if enableDynamicSizing && name != "" then WithEntry(m, route, name, height) else m
  }

  /** Reporting the same height twice in a row leaves the map as the first report did. */
  lemma LayoutWriteIdempotent(m: HeightMap, enableDynamicSizing: bool, name: string, route: string, height: real)
    ensures var once := LayoutWrite(m, enableDynamicSizing, name, route, height);
            LayoutWrite(once, enableDynamicSizing, name, route, height) == once
  {
    if enableDynamicSizing && name != "" {
      WithEntryIdempotent(m, route, name, height);
    }
  }

  /** Of two successive reports of one view, only the later one is visible. */
  lemma LayoutWriteLastWins(m: HeightMap, enableDynamicSizing: bool, name: string, route: string, h1: real, h2: real)
    ensures LayoutWrite(LayoutWrite(m, enableDynamicSizing, name, route, h1), enableDynamicSizing, name, route, h2)
            == LayoutWrite(m, enableDynamicSizing, name, route, h2)
  {
    if enableDynamicSizing && name != "" {
      WithEntryLastWriteWins(m, route, name, h1, h2);
    }
  }

  /** Two views of different names (or routes) may report in either order. */
  lemma LayoutWritesCommute(m: HeightMap, enableDynamicSizing: bool, n1: string, r1: string, h1: real,
                            n2: string, r2: string, h2: real)
    requires n1 != n2 || r1 != r2
    ensures LayoutWrite(LayoutWrite(m, enableDynamicSizing, n1, r1, h1), enableDynamicSizing, n2, r2, h2)
            == LayoutWrite(LayoutWrite(m, enableDynamicSizing, n2, r2, h2), enableDynamicSizing, n1, r1, h1)
  {
    if enableDynamicSizing && n1 != "" && n2 != "" {
      WithEntryCommutes(m, r1, n1, h1, r2, n2, h2);
    }
  }

  /** `handleLayout`: writes and republishes the map under dynamic sizing
      and a non-empty name (on every report, also an unchanged one), then
      forwards the event to the user's `onLayout` when there is one. */
  method HandleLayout(heights: HeightMapRef, enableDynamicSizing: bool, name: string, routeKey: string,
                      hasOnLayout: bool, height: real) returns (forwarded: bool)
    modifies heights
    ensures heights.current == LayoutWrite(old(heights.current), enableDynamicSizing, name, routeKey, height)
    ensures enableDynamicSizing && name != "" ==>
              heights.published == heights.current && heights.publications == old(heights.publications) + 1
    ensures !(enableDynamicSizing && name != "") ==>
              heights.published == old(heights.published) && heights.publications == old(heights.publications)
    ensures forwarded == hasOnLayout
  {
    if enableDynamicSizing {
      if name != "" {
        heights.Publish(WithEntry(heights.current, routeKey, name, height));
      }
    }
    forwarded := hasOnLayout;
  }

  /** The `marginBottom` the user asked for, when it is a number; else 0. */
  function UserMarginBottom(style: Style): (margin: real)
    ensures "marginBottom" in style && style["marginBottom"].Number? ==> margin == style["marginBottom"].n
    ensures !("marginBottom" in style && style["marginBottom"].Number?) ==> margin == 0.0
  {
    if "marginBottom" in style && style["marginBottom"].Number? then style["marginBottom"].n else 0.0
  }

  /** The container style: the flattened user style (empty if none); with
      footer adjustment (off when the prop is absent), the same style whose
      `marginBottom` is the user's numeric margin plus the footer height. */
  function ViewContainerStyle(flattened: Option<Style>, enableFooterMarginAdjustment: Option<bool>,
                              footerHeight: real): (r: Style)
    ensures enableFooterMarginAdjustment != Some(true) ==> r == flattened.GetOr(map[])
    ensures enableFooterMarginAdjustment == Some(true) ==>
              r.Keys == flattened.GetOr(map[]).Keys + {"marginBottom"}
              && r["marginBottom"] == Number(UserMarginBottom(flattened.GetOr(map[])) + footerHeight)
              && forall k :: k in r && k != "marginBottom" ==> r[k] == flattened.value[k]
  {
    var flat := flattened.GetOr(map[]);
    if !enableFooterMarginAdjustment.GetOr(false) then flat
    else flat["marginBottom" := Number(UserMarginBottom(flat) + footerHeight)]
  }
}
