/** Reanimated's `interpolate(x, inputRange, outputRange, Extrapolate.CLAMP)`
    as the backdrop uses it: pick the segment of the knot lists that covers
    `x` (the first or the last segment outside the range), interpolate
    linearly on it, and clamp the value to the segment's two outputs. */
module Interpolation {

  /** The segment from knot (x0, y0) to knot (x1, y1). */
  datatype Segment = Segment(x0: real, x1: real, y0: real, y1: real)

  /** `v` lies between `a` and `b`, in whichever order they come. */
  predicate Between(v: real, a: real, b: real)
  {
    (a <= v && v <= b) || (b <= v && v <= a)
  }

  /** The first knot at or after `i` that is not below `x`. */
  function FirstCovering(x: real, xs: seq<real>, i: nat): (j: nat)
    requires 1 <= i < |xs| && x <= xs[|xs| - 1]
    ensures i <= j < |xs| && x <= xs[j]
    ensures forall k :: i <= k < j ==> xs[k] < x
    decreases |xs| - i
  {
    if x <= xs[i] then i else FirstCovering(x, xs, i + 1)
  }

  /** Knot `k` ends the segment `interpolate` picks for `x`: the last one
      right of the range, else the first knot from index 1 on that is not
      below `x`. */
  predicate Covers(x: real, xs: seq<real>, k: int)
    requires 1 <= k < |xs|
  {
    if x > xs[|xs| - 1] then k == |xs| - 1
    else x <= xs[k] && forall i :: 1 <= i < k ==> xs[i] < x
  }

  /** The segment from knot `k - 1` to knot `k`. */
  function SegmentAt(xs: seq<real>, ys: seq<real>, k: int): (s: Segment)
    requires |xs| == |ys| && 1 <= k < |xs|
    ensures s.x0 == xs[k - 1] && s.x1 == xs[k] && s.y0 == ys[k - 1] && s.y1 == ys[k]
  {
    Segment(xs[k - 1], xs[k], ys[k - 1], ys[k])
  }

  /** The segment `interpolate` evaluates at `x`: the last one right of the
      range, else the one ending at the first knot from index 1 on that is
      not below `x` (left of the range that is the first segment whenever
      the second knot is not below `x`). */
  function Narrow(x: real, xs: seq<real>, ys: seq<real>): (s: Segment)
    requires |xs| == |ys| >= 2
    ensures exists k :: 1 <= k < |xs| && Covers(x, xs, k) && s == SegmentAt(xs, ys, k)
  {
    var n := |xs|;
    if x > xs[n - 1] then SegmentAt(xs, ys, n - 1)
    else SegmentAt(xs, ys, FirstCovering(x, xs, 1))
  }

  /** At most one knot covers `x`, so `Narrow` names a single segment. */
  lemma CoversUnique(x: real, xs: seq<real>, k1: int, k2: int)
    requires 1 <= k1 < |xs| && 1 <= k2 < |xs|
    requires Covers(x, xs, k1) && Covers(x, xs, k2)
    ensures k1 == k2
  {
  }

  /** On increasing knots an `x` inside the range lies on the segment that
      covers it. */
  lemma CoveredSegmentContains(x: real, xs: seq<real>, k: int)
    requires forall i, j :: 0 <= i < j < |xs| ==> xs[i] < xs[j]
    requires 1 <= k < |xs| && xs[0] <= x <= xs[|xs| - 1]
    requires Covers(x, xs, k)
    ensures xs[k - 1] <= x <= xs[k]
  {
    if k > 1 {
      assert xs[k - 1] < x;
    }
  }

  /** The unclamped linear value on a segment of non-zero width. */
  function Lerp(x: real, s: Segment): real
    requires s.x1 - s.x0 != 0.0
  {
    s.y0 + (x - s.x0) / (s.x1 - s.x0) * (s.y1 - s.y0)
  }

  /** On a segment starting at output 0 the linear value is the progress
      along the segment times the right output. */
  lemma LerpFromZero(x: real, s: Segment)
    requires s.x1 - s.x0 != 0.0 && s.y0 == 0.0
    ensures Lerp(x, s) == (x - s.x0) / (s.x1 - s.x0) * s.y1
  {
  }

  /** Linear interpolation on one segment, clamped to its outputs; a segment
      of zero width yields its left output. A linear value between the
      outputs is returned as it is; one beyond an output is replaced by
      that output. */
  function ClampedLerp(x: real, s: Segment): (v: real)
    ensures Between(v, s.y0, s.y1)
    ensures s.x1 - s.x0 == 0.0 ==> v == s.y0
    ensures s.x1 - s.x0 != 0.0 && Between(Lerp(x, s), s.y0, s.y1) ==> v == Lerp(x, s)
    ensures s.x1 - s.x0 != 0.0 && !Between(Lerp(x, s), s.y0, s.y1) ==>
              (v == s.y0 && Between(s.y0, Lerp(x, s), s.y1)) || (v == s.y1 && Between(s.y1, Lerp(x, s), s.y0))
  {
    if s.x1 - s.x0 == 0.0 then s.y0
    else
      var progress := (x - s.x0) / (s.x1 - s.x0);
      var value := s.y0 + progress * (s.y1 - s.y0);
      var coef := if s.y1 >= s.y0 then 1.0 else -1.0;
      if coef * value < coef * s.y0 then s.y0
      else if coef * value > coef * s.y1 then s.y1
      else value
  }

  /** `interpolate(x, xs, ys, CLAMP)`: the clamped linear value on the
      segment that covers `x`. */
  function Interpolate(x: real, xs: seq<real>, ys: seq<real>): (v: real)
    requires |xs| == |ys| >= 2
    ensures exists k :: 1 <= k < |xs| && Covers(x, xs, k) && v == ClampedLerp(x, SegmentAt(xs, ys, k))
    ensures exists k :: 1 <= k < |ys| && Between(v, ys[k - 1], ys[k])
  {
    ClampedLerp(x, Narrow(x, xs, ys))
  }

  /** Clamping keeps the result within any bounds of the outputs. */
  lemma InterpolateWithin(x: real, xs: seq<real>, ys: seq<real>, lo: real, hi: real)
    requires |xs| == |ys| >= 2
    requires forall k :: 0 <= k < |ys| ==> lo <= ys[k] <= hi
    ensures lo <= Interpolate(x, xs, ys) <= hi
  {
    var v := Interpolate(x, xs, ys);
    var k :| 1 <= k < |ys| && Between(v, ys[k - 1], ys[k]);
    assert lo <= ys[k - 1] <= hi && lo <= ys[k] <= hi;
  }
}
