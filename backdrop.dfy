/** `BottomSheetBackdrop`: the tap dispatcher, the opacity as a function of
    the sheet index, the edge-triggered touch-through toggle, the custom
    index that anticipates the next snap position, the non-animated style
    and the default accessibility hint. */
module Backdrop {
  import opened Wrappers
  import opened Interpolation

  // ---------------------------------------------------------------- press

  /** The `pressBehavior` prop: `'none'`, `'close'`, `'collapse'` or a snap index. */
  datatype PressBehavior = PressNone | PressClose | PressCollapse | PressIndex(index: real)

  /** What a tap calls: the user's `onPress`, or a command to the sheet. */
  datatype BackdropCall = OnPress | Close | SnapToIndex(index: real)

  /** `handleOnPress`: the user's `onPress` first when given, then at most one
      sheet command chosen by the press behaviour. */
  method HandleOnPress(hasOnPress: bool, pressBehavior: PressBehavior, disappearsOnIndex: real)
    returns (calls: seq<BackdropCall>)
    ensures hasOnPress <==> |calls| > 0 && calls[0] == OnPress
    ensures var sheet := if hasOnPress then calls[1..] else calls;
            && OnPress !in sheet
            && |sheet| <= 1
            && (pressBehavior.PressNone? <==> sheet == [])
            && (pressBehavior.PressClose? <==> sheet == [Close])
            && (pressBehavior.PressCollapse? ==> sheet == [SnapToIndex(disappearsOnIndex)])
            && (pressBehavior.PressIndex? ==> sheet == [SnapToIndex(pressBehavior.index)])
  {
    calls := [];
    if hasOnPress {
      calls := calls + [OnPress];
    }
    if pressBehavior.PressClose? {
      calls := calls + [Close];
    } else if pressBehavior.PressCollapse? {
      calls := calls + [SnapToIndex(disappearsOnIndex)];
    } else if pressBehavior.PressIndex? {
      calls := calls + [SnapToIndex(pressBehavior.index)];
    }
  }

  /** The tap gesture handler wraps the backdrop unless the behaviour is `'none'`. */
  function TapHandlerAttached(pressBehavior: PressBehavior): (attached: bool)
    ensures attached <==> pressBehavior != PressNone
  {
    !pressBehavior.PressNone?
  }

  // -------------------------------------------------------------- opacity

  /** The backdrop opacity at sheet index `index`: interpolated over the knots
      [-1, disappearsOnIndex, appearsOnIndex] -> [0, 0, opacity] and clamped. */
  function Opacity(index: real, disappearsOnIndex: real, appearsOnIndex: real, opacity: real): (o: real)
    ensures Between(o, 0.0, opacity)
  {
    Interpolate(index, [-1.0, disappearsOnIndex, appearsOnIndex], [0.0, 0.0, opacity])
  }

  /** Up to the disappearing index the backdrop is fully transparent. */
  lemma OpacityZeroUpToDisappear(index: real, disappearsOnIndex: real, appearsOnIndex: real, opacity: real)
    requires disappearsOnIndex < appearsOnIndex
    requires index <= disappearsOnIndex
    ensures Opacity(index, disappearsOnIndex, appearsOnIndex, opacity) == 0.0
  {
    var xs, ys := [-1.0, disappearsOnIndex, appearsOnIndex], [0.0, 0.0, opacity];
    assert FirstCovering(index, xs, 1) == 1;
    assert Narrow(index, xs, ys) == Segment(-1.0, disappearsOnIndex, 0.0, 0.0);
  }

  /** Facts about a quotient by a positive width that the solver does not find alone. */
  lemma QuotientFacts(n: real, w: real)
    requires w > 0.0
    ensures n == w ==> n / w == 1.0
    ensures n > w ==> n / w > 1.0
    ensures 0.0 < n < w ==> 0.0 < n / w < 1.0
  {
    var q := n / w;
    assert q * w == n;
    if 0.0 < n < w && q >= 1.0 {
      ScaleMonotone(w, 1.0, q);
      assert false;
    }
  }

  /** Scaling by a non-negative factor keeps the order. */
  lemma ScaleMonotone(c: real, x: real, y: real)
    requires c >= 0.0 && x <= y
    ensures c * x <= c * y
  {
    assert c * y - c * x == c * (y - x);
  }

  /** From the appearing index on the backdrop has the configured opacity. */
  lemma OpacityFullFromAppear(index: real, disappearsOnIndex: real, appearsOnIndex: real, opacity: real)
    requires disappearsOnIndex < appearsOnIndex
    requires appearsOnIndex <= index
    ensures Opacity(index, disappearsOnIndex, appearsOnIndex, opacity) == opacity
  {
    var xs, ys := [-1.0, disappearsOnIndex, appearsOnIndex], [0.0, 0.0, opacity];
    var s := Segment(disappearsOnIndex, appearsOnIndex, 0.0, opacity);
    var width := appearsOnIndex - disappearsOnIndex;
    var progress := (index - disappearsOnIndex) / width;
    QuotientFacts(index - disappearsOnIndex, width);
    if index == appearsOnIndex {
      assert FirstCovering(index, xs, 1) == 2;
    }
    assert Narrow(index, xs, ys) == s;
    if opacity >= 0.0 {
      ScaleMonotone(opacity, 1.0, progress);
    } else {
      ScaleMonotone(-opacity, 1.0, progress);
    }
  }

  /** Between the two indices the opacity grows linearly from 0 to `opacity`. */
  lemma OpacityLinearBetween(index: real, disappearsOnIndex: real, appearsOnIndex: real, opacity: real)
    requires disappearsOnIndex < index < appearsOnIndex
    ensures Opacity(index, disappearsOnIndex, appearsOnIndex, opacity)
            == opacity * ((index - disappearsOnIndex) / (appearsOnIndex - disappearsOnIndex))
  {
    var xs, ys := [-1.0, disappearsOnIndex, appearsOnIndex], [0.0, 0.0, opacity];
    var s := Segment(disappearsOnIndex, appearsOnIndex, 0.0, opacity);
    assert FirstCovering(index, xs, 1) == 2;
    assert Narrow(index, xs, ys) == s;
    var progress := (index - disappearsOnIndex) / (appearsOnIndex - disappearsOnIndex);
    QuotientFacts(index - disappearsOnIndex, appearsOnIndex - disappearsOnIndex);
    LerpFromZero(index, s);
    FractionBetween(progress, opacity);
  }

  /** A fraction in [0, 1] of `c` lies between 0 and `c`. */
  lemma FractionBetween(p: real, c: real)
    requires 0.0 <= p <= 1.0
    ensures Between(p * c, 0.0, c)
  {
    if c >= 0.0 {
      ScaleMonotone(c, 0.0, p);
      ScaleMonotone(c, p, 1.0);
    } else {
      ScaleMonotone(-c, 0.0, p);
      ScaleMonotone(-c, p, 1.0);
    }
  }

  /** For a non-negative configured opacity the backdrop's opacity never
      leaves [0, opacity], whatever the index and the two thresholds. */
  lemma OpacityWithinRange(index: real, disappearsOnIndex: real, appearsOnIndex: real, opacity: real)
    requires opacity >= 0.0
    ensures 0.0 <= Opacity(index, disappearsOnIndex, appearsOnIndex, opacity) <= opacity
  {
    InterpolateWithin(index, [-1.0, disappearsOnIndex, appearsOnIndex], [0.0, 0.0, opacity], 0.0, opacity);
  }

  /** As the sheet rises the backdrop never gets lighter. */
  lemma OpacityMonotone(i1: real, i2: real, disappearsOnIndex: real, appearsOnIndex: real, opacity: real)
    requires disappearsOnIndex < appearsOnIndex
    requires opacity >= 0.0
    requires i1 <= i2
    ensures Opacity(i1, disappearsOnIndex, appearsOnIndex, opacity)
            <= Opacity(i2, disappearsOnIndex, appearsOnIndex, opacity)
  {
    OpacityWithinRange(i1, disappearsOnIndex, appearsOnIndex, opacity);
    OpacityWithinRange(i2, disappearsOnIndex, appearsOnIndex, opacity);
    if i1 <= disappearsOnIndex {
      OpacityZeroUpToDisappear(i1, disappearsOnIndex, appearsOnIndex, opacity);
    } else if appearsOnIndex <= i2 {
      OpacityFullFromAppear(i2, disappearsOnIndex, appearsOnIndex, opacity);
    } else {
      OpacityBetweenOrdered(i1, i2, disappearsOnIndex, appearsOnIndex, opacity);
    }
  }

  /** Strictly between the two indices the opacity grows with the index. */
  lemma OpacityBetweenOrdered(i1: real, i2: real, disappearsOnIndex: real, appearsOnIndex: real, opacity: real)
    requires disappearsOnIndex < i1 <= i2 < appearsOnIndex
    requires opacity >= 0.0
    ensures Opacity(i1, disappearsOnIndex, appearsOnIndex, opacity)
            <= Opacity(i2, disappearsOnIndex, appearsOnIndex, opacity)
  {
    var xs, ys := [-1.0, disappearsOnIndex, appearsOnIndex], [0.0, 0.0, opacity];
    var s := Segment(disappearsOnIndex, appearsOnIndex, 0.0, opacity);
    assert FirstCovering(i1, xs, 1) == 2;
    assert FirstCovering(i2, xs, 1) == 2;
    assert Narrow(i1, xs, ys) == s && Narrow(i2, xs, ys) == s;
    LerpMonotone(i1, i2, s);
  }

  /** On a rising segment of positive width the clamped value grows with `x`. */
  lemma LerpMonotone(x1: real, x2: real, s: Segment)
    requires s.x0 < s.x1 && s.y0 <= s.y1 && x1 <= x2
    ensures ClampedLerp(x1, s) <= ClampedLerp(x2, s)
  {
    var w, h := s.x1 - s.x0, s.y1 - s.y0;
    var p1, p2 := (x1 - s.x0) / w, (x2 - s.x0) / w;
    QuotientOrder(x1 - s.x0, x2 - s.x0, w);
    ScaleMonotone(h, p1, p2);
    ClampOrder(s.y0 + p1 * h, s.y0 + p2 * h, s.y0, s.y1);
  }

  /** Clamping to [lo, hi] keeps the order. */
  lemma ClampOrder(v1: real, v2: real, lo: real, hi: real)
    requires v1 <= v2 && lo <= hi
    ensures (if v1 < lo then lo else if v1 > hi then hi else v1)
            <= (if v2 < lo then lo else if v2 > hi then hi else v2)
  {
  }

  /** Dividing by a positive width keeps the order. */
  lemma QuotientOrder(x: real, y: real, w: real)
    requires w > 0.0 && x <= y
    ensures x / w <= y / w
  {
    assert y / w - x / w == (y - x) / w;
  }

  /** The third entry of the container style: the animated opacity, or with
      animation off a transparent background for opacity 0 and a fixed
      opacity otherwise. */
  datatype OpacityLayer = AnimatedOpacity(opacity: real) | TransparentBackground | FixedOpacity(opacity: real)

  function OpacityLayerAt(isAnimation: Option<bool>, index: real, disappearsOnIndex: real, appearsOnIndex: real,
                          opacity: real): (layer: OpacityLayer)
    ensures isAnimation != Some(false) ==>
              layer == AnimatedOpacity(Opacity(index, disappearsOnIndex, appearsOnIndex, opacity))
    ensures isAnimation == Some(false) ==> (layer == TransparentBackground <==> opacity == 0.0)
    ensures isAnimation == Some(false) && opacity != 0.0 ==> layer == FixedOpacity(opacity)
  {
    if isAnimation.GetOr(true) then AnimatedOpacity(Opacity(index, disappearsOnIndex, appearsOnIndex, opacity))
    else if opacity == 0.0 then TransparentBackground
    else FixedOpacity(opacity)
  }

  // --------------------------------------------------------- custom index

  /** `animatedNextPositionIndex`: `-Infinity` while at rest, else the index
      the sheet is moving to. */
  datatype NextIndex = NegativeInfinity | Finite(value: real)

  /** The target of the custom animated index: the next position's index
      while the sheet moves, the current index once it rests. */
  function CustomIndexTarget(next: NextIndex, currentIndex: real): (target: real)
    ensures next.NegativeInfinity? ==> target == currentIndex
    ensures next.Finite? ==> target == next.value
  {
    if next == NegativeInfinity then currentIndex else next.value
  }

  /** The index the opacity is computed from. */
  function OpacityIndex(isCustomAnimatedIndex: bool, customIndex: real, animatedIndex: real): (index: real)
    ensures isCustomAnimatedIndex ==> index == customIndex
    ensures !isCustomAnimatedIndex ==> index == animatedIndex
  {
    if isCustomAnimatedIndex then customIndex else animatedIndex
  }

  // ------------------------------------------------------ pointer events

  datatype PointerEvents = PointerNone | PointerAuto

  /** `'none'` when touches should pass through the backdrop, else `'auto'`;
      the initial state uses it with `enableTouchThrough`. */
  function PointerEventsFor(passThrough: bool): (pe: PointerEvents)
    ensures pe == PointerNone <==> passThrough
  {
    if passThrough then PointerNone else PointerAuto
  }

  /** The pointer events after the touchability reaction sees the value
      `shouldDisable` (index <= disappearsOnIndex) following `previous`: they
      change only on a new value, and only while the backdrop is mounted. */
  function NextPointerEvents(current: PointerEvents, isMounted: bool, previous: Option<bool>,
                             shouldDisable: bool): (pe: PointerEvents)
    ensures isMounted && previous != Some(shouldDisable) ==> pe == PointerEventsFor(shouldDisable)
    ensures !(isMounted && previous != Some(shouldDisable)) ==> pe == current
  {
    if previous == Some(shouldDisable) then current
    else if isMounted then PointerEventsFor(shouldDisable)
    else current
  }

  /** A run of reactions over the values `bs`: (pointer events, previous
      value). The last value seen is always recorded; while unmounted the
      pointer events never change. */
  function Replay(pe: PointerEvents, isMounted: bool, previous: Option<bool>, bs: seq<bool>): (r: (PointerEvents, Option<bool>))
    ensures r.1 == if bs == [] then previous else Some(bs[|bs| - 1])
    ensures !isMounted ==> r.0 == pe
    decreases |bs|
  {
    if bs == [] then (pe, previous)
    else Replay(NextPointerEvents(pe, isMounted, previous, bs[0]), isMounted, Some(bs[0]), bs[1..])
  }

  /** Edge triggering loses nothing while mounted: if the pointer events
      agreed with the last value seen (or none was seen), after any run of
      reactions they agree with the latest value. */
  lemma {:induction false} MountedReplayTracksLatest(pe: PointerEvents, previous: Option<bool>, bs: seq<bool>)
    requires |bs| > 0
    requires previous.None? || pe == PointerEventsFor(previous.value)
    ensures Replay(pe, true, previous, bs).0 == PointerEventsFor(bs[|bs| - 1])
    ensures Replay(pe, true, previous, bs).1 == Some(bs[|bs| - 1])
    decreases |bs|
  {
    var pe' := NextPointerEvents(pe, true, previous, bs[0]);
    assert pe' == PointerEventsFor(bs[0]);
    if |bs| > 1 {
      MountedReplayTracksLatest(pe', Some(bs[0]), bs[1..]);
      assert bs[1..][|bs[1..]| - 1] == bs[|bs| - 1];
    }
  }

  /** A change seen before the mount effect ran is dropped, and repeating
      the same value after mounting does not bring it back. */
  lemma {:induction false} ChangeBeforeMountIsDropped(pe: PointerEvents, shouldDisable: bool, bs: seq<bool>)
    requires pe != PointerEventsFor(shouldDisable)
    requires forall i :: 0 <= i < |bs| ==> bs[i] == shouldDisable
    ensures NextPointerEvents(pe, false, None, shouldDisable) == pe
    ensures Replay(pe, true, Some(shouldDisable), bs).0 == pe
    decreases |bs|
  {
    if bs != [] {
      ChangeBeforeMountIsDropped(pe, shouldDisable, bs[1..]);
    }
  }

  /** The backdrop's own state: its `pointerEvents` state, the `isMounted`
      ref, the previous value seen by the touchability reaction and the
      custom animated index (its timing target). */
  class BackdropState {
    var pointerEvents: PointerEvents
    var isMounted: bool
    var previousDisable: Option<bool>
    var customIndex: real
    const isCustomAnimatedIndex: bool

    constructor (enableTouchThrough: bool, isCustomAnimatedIndex: bool)
      ensures pointerEvents == PointerEventsFor(enableTouchThrough)
      ensures !isMounted && previousDisable == None && customIndex == -1.0
      ensures this.isCustomAnimatedIndex == isCustomAnimatedIndex
    {
      pointerEvents := PointerEventsFor(enableTouchThrough);
      isMounted := false;
      previousDisable := None;
      customIndex := -1.0;
      this.isCustomAnimatedIndex := isCustomAnimatedIndex;
    }

    /** The mount effect. */
    method Mount()
      modifies this`isMounted
      ensures isMounted
    {
      isMounted := true;
    }

    /** The mount effect's cleanup. */
    method Unmount()
      modifies this`isMounted
      ensures !isMounted
    {
      isMounted := false;
    }

    /** The touchability reaction on a new animated index. */
    method TouchabilityReaction(animatedIndex: real, disappearsOnIndex: real)
      modifies this`pointerEvents, this`previousDisable
      ensures previousDisable == Some(animatedIndex <= disappearsOnIndex)
      ensures pointerEvents == NextPointerEvents(old(pointerEvents), isMounted, old(previousDisable),
                                                 animatedIndex <= disappearsOnIndex)
    {
      var shouldDisable := animatedIndex <= disappearsOnIndex;
      if previousDisable != Some(shouldDisable) {
        if isMounted {
          pointerEvents := PointerEventsFor(shouldDisable);
        }
      }
      previousDisable := Some(shouldDisable);
    }

    /** The custom-index reaction on a new current index; installed only for
        a custom animated index. */
    method CustomIndexReaction(currentIndex: real, next: NextIndex)
      modifies this`customIndex
      ensures isCustomAnimatedIndex ==> customIndex == CustomIndexTarget(next, currentIndex)
      ensures !isCustomAnimatedIndex ==> customIndex == old(customIndex)
    {
      if isCustomAnimatedIndex {
        customIndex := CustomIndexTarget(next, currentIndex);
      }
    }
  }

  // -------------------------------------------------------- accessibility

  const HINT_PREFIX: string := "Tap to "
  const HINT_SUFFIX: string := " the Bottom Sheet"

  /** The verb a behaviour contributes to the hint: its own name for the
      string behaviours, `move` for a snap index. */
  function BehaviorWord(pressBehavior: PressBehavior): (w: string)
    ensures w == "move" <==> pressBehavior.PressIndex?
    ensures pressBehavior == PressNone ==> w == "none"
    ensures pressBehavior == PressClose ==> w == "close"
    ensures pressBehavior == PressCollapse ==> w == "collapse"
  {
    match pressBehavior
    case PressNone => "none"
    case PressClose => "close"
    case PressCollapse => "collapse"
    case PressIndex(_) => "move"
  }

  /** The generated hint: the verb of the behaviour, read back between the
      fixed prefix and suffix. */
  function GeneratedHint(pressBehavior: PressBehavior): (h: string)
    ensures |h| > |HINT_PREFIX| + |HINT_SUFFIX|
    ensures h[..|HINT_PREFIX|] == HINT_PREFIX
    ensures h[|h| - |HINT_SUFFIX|..] == HINT_SUFFIX
    ensures h[|HINT_PREFIX|..|h| - |HINT_SUFFIX|] == BehaviorWord(pressBehavior)
  {
    var w := BehaviorWord(pressBehavior);
    var h := HINT_PREFIX + w + HINT_SUFFIX;
    assert h[|HINT_PREFIX|..|h| - |HINT_SUFFIX|] == w;
    h
  }

  /** The accessibility hint: the given hint (the default constant when the
      prop is absent) when non-empty, else the generated one. */
  function AccessibilityHint(provided: Option<string>, defaultHint: string, pressBehavior: PressBehavior): (hint: string)
    ensures provided.GetOr(defaultHint) != "" ==> hint == provided.GetOr(defaultHint)
    ensures provided.GetOr(defaultHint) == "" ==>
              |hint| > |HINT_PREFIX| + |HINT_SUFFIX|
              && hint[..|HINT_PREFIX|] == HINT_PREFIX
              && hint[|hint| - |HINT_SUFFIX|..] == HINT_SUFFIX
              && hint[|HINT_PREFIX|..|hint| - |HINT_SUFFIX|] == BehaviorWord(pressBehavior)
  {
    var given := provided.GetOr(defaultHint);
    if given != "" then given
    else GeneratedHint(pressBehavior)
  }

  /** Generated hints tell the string behaviours apart; every snap index
      gets the same `move` hint. */
  lemma GeneratedHintDistinguishes(b1: PressBehavior, b2: PressBehavior)
    ensures GeneratedHint(b1) == GeneratedHint(b2) <==> b1 == b2 || (b1.PressIndex? && b2.PressIndex?)
  {
    if GeneratedHint(b1) == GeneratedHint(b2) {
      assert BehaviorWord(b1) == BehaviorWord(b2);
    }
  }
}
