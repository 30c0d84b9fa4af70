/** `BottomSheetContainer`: the outer view that measures the space the sheet
    may use. On layout it publishes its height and, once measured on screen,
    its offset from the window edges; it also turns its inset props (numbers
    or shared values) into animated `top`/`bottom`. */
module Container {
  import opened Wrappers
  import opened Reactive

  /** An inset prop: a plain number or a shared value. */
  datatype NumberOrShared = Plain(n: real) | SharedNumber(cell: Shared<real>)

  /** The objects an optional inset prop reads. */
  function InsetCells(v: Option<NumberOrShared>): set<object>
  {
    if v.Some? && v.value.SharedNumber? then {v.value.cell} else {}
  }

  /** `getRawValue`: a number as it is, a shared value's current value. */
  function RawValue(v: NumberOrShared): (r: real)
    reads if v.SharedNumber? then {v.cell} else {}
    ensures v.Plain? ==> r == v.n
    ensures v.SharedNumber? ==> r == v.cell.value
  {
    match v
    case Plain(n) => n
    case SharedNumber(cell) => cell.value
  }

  datatype Insets = Insets(top: real, left: real, right: real, bottom: real)

  /** The container's offset from the window once measured: its top is its
      page position (0 when unknown), left and right are 0, and the bottom
      is the window height left below it and the status bar, never negative. */
  function ContainerOffset(height: real, pageY: Option<real>, statusBarHeight: Option<real>,
                           windowHeight: real): (o: Insets)
    ensures o.top == pageY.GetOr(0.0) && o.left == 0.0 && o.right == 0.0
    ensures var used := pageY.GetOr(0.0) + height + statusBarHeight.GetOr(0.0);
            && o.bottom >= 0.0
            && o.bottom >= windowHeight - used
            && (o.bottom == 0.0 || o.bottom == windowHeight - used)
            && (o.bottom == 0.0 <==> used >= windowHeight)
  {
    var top := pageY.GetOr(0.0);
    var rest := windowHeight - (top + height + statusBarHeight.GetOr(0.0));
    Insets(top, 0.0, 0.0, if 0.0 > rest then 0.0 else rest)
  }

  /** The result of `measure` on the container: no callback when the view
      is not attached, else the page position it reports. */
  datatype Measurement = NotAttached | Measured(pageY: Option<real>)

  /** `handleContainerLayout`: publishes the layout height, then the offset
      computed from the measurement (when there is one). */
  method HandleContainerLayout(containerHeight: Shared<real>, containerOffset: Shared<Insets>, height: real,
                               measurement: Measurement, statusBarHeight: Option<real>, windowHeight: real)
    modifies containerHeight, containerOffset
    ensures containerHeight.value == height
    ensures measurement.Measured? ==>
              containerOffset.value == ContainerOffset(height, measurement.pageY, statusBarHeight, windowHeight)
    ensures measurement.NotAttached? ==> containerOffset.value == old(containerOffset.value)
  {
    containerHeight.value := height;
    if measurement.Measured? {
      containerOffset.value := ContainerOffset(height, measurement.pageY, statusBarHeight, windowHeight);
    }
  }

  /** The layout handler is attached only when the container computes its
      height (the default). */
  function LayoutHandlerAttached(shouldCalculateHeight: Option<bool>): (attached: bool)
    ensures attached <==> shouldCalculateHeight != Some(false)
  {
    shouldCalculateHeight.GetOr(true)
  }

  datatype Overflow = Visible | Hidden

  /** A detached sheet may draw outside its container; an attached one is clipped. */
  function ContainerOverflow(detached: bool): (o: Overflow)
    ensures o == Visible <==> detached
  {
    if detached then Visible else Hidden
  }

  /** The animated `top` and `bottom` of the container: the raw values of
      the inset props, each 0 when absent. */
  function AnimatedInsets(topInset: Option<NumberOrShared>, bottomInset: Option<NumberOrShared>): (tb: (real, real))
    reads InsetCells(topInset), InsetCells(bottomInset)
    ensures tb.0 == RawValue(topInset.GetOr(Plain(0.0)))
    ensures tb.1 == RawValue(bottomInset.GetOr(Plain(0.0)))
    ensures topInset.None? ==> tb.0 == 0.0
    ensures bottomInset.None? ==> tb.1 == 0.0
  {
    (RawValue(topInset.GetOr(Plain(0.0))), RawValue(bottomInset.GetOr(Plain(0.0))))
  }
}
