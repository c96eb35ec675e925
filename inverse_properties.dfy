/** How `curveDelay` answers `curveThreshold`: on a stepped curve the delay of
    a level is exactly the earliest point at which the threshold has come down
    to that level; on a linear curve, as the code is written, it is not. */
module InverseProperties {
  import opened Bn
  import opened Util

  /** The threshold of a stepped curve at `x` is at most `y` exactly when `x`
      is at least the delay of `y`, for every level `y` from `end` upwards:
      `curveDelay` is the least elapsed amount at which `y` suffices. */
  lemma {:induction false} SteppedDelayIsEarliest(curve: Curve, x: int, y: int)
    requires curve.SteppedDecreasing? && curve.period != 0 && curve.step != 0
    requires x >= 0 && y >= curve.end
    ensures CurveThreshold(curve, x).Ok? && CurveDelay(curve, y).Ok?
    ensures CurveThreshold(curve, x).value <= y <==> CurveDelay(curve, y).value <= x
  {
    ThresholdReachesIff(curve.begin, curve.end, curve.period, curve.step, x, y);
    DelayAtMostIff(curve.begin, curve.end, curve.period, curve.step, x, y);
  }

  /** The stepped threshold at `x` has come down to `y` exactly when the
      `x / period` steps taken so far cover the distance from `begin` to `y`. */
  lemma {:induction false} ThresholdReachesIff(begin: Perbill, end: Perbill, period: Perbill, step: Perbill, x: int, y: int)
    requires period != 0 && x >= 0 && y >= end
    ensures x / period >= 0
    ensures SteppedThreshold(begin, end, period, step, x) <= y <==>
            begin - Min(y, begin) <= (x / period) * step
  {
    var k := x / period;
    QuotientOfNonNegative(x, period);
    assert step * k >= 0 by { MulMonotone(step, 0, k); }
    assert step * k == k * step;
  }

  /** The stepped delay of `y` is at most `x` exactly when the `x / period`
      steps taken by `x` cover the distance from `begin` to `y`. */
  lemma {:induction false} DelayAtMostIff(begin: Perbill, end: Perbill, period: Perbill, step: Perbill, x: int, y: int)
    requires period != 0 && step != 0 && y >= end
    ensures SteppedDelay(begin, end, period, step, y) <= x <==>
            begin - Min(y, begin) <= (x / period) * step
  {
    var a := begin - Min(y, begin);
    var c := CeilDiv(a, step);
    assert SteppedDelay(begin, end, period, step, y) == c * period;
    MulLeIffLeDiv(c, x, period);
    CeilDivLeIff(a, step, x / period);
  }

  /** The delay of the threshold at `x` is never later than `x`. */
  lemma SteppedDelayOfThreshold(curve: Curve, x: int)
    requires curve.SteppedDecreasing? && curve.period != 0 && curve.step != 0
    requires x >= 0
    ensures CurveThreshold(curve, x).Ok?
    ensures CurveDelay(curve, CurveThreshold(curve, x).value).Ok?
    ensures CurveDelay(curve, CurveThreshold(curve, x).value).value <= x
  {
    SteppedDelayIsEarliest(curve, x, CurveThreshold(curve, x).value);
  }

  /** At the delay of a reachable level `y` the threshold is at most `y`. */
  lemma SteppedThresholdOfDelay(curve: Curve, y: int)
    requires curve.SteppedDecreasing? && curve.period != 0 && curve.step != 0
    requires y >= curve.end
    ensures CurveDelay(curve, y).Ok?
    ensures CurveThreshold(curve, CurveDelay(curve, y).value).Ok?
    ensures CurveThreshold(curve, CurveDelay(curve, y).value).value <= y
  {
    SteppedDelayIsEarliest(curve, CurveDelay(curve, y).value, y);
  }

  /** A level below `end` is never reached by a stepped threshold, and its
      delay is the sentinel one billion. */
  lemma SteppedUnreachable(curve: Curve, y: int)
    requires curve.SteppedDecreasing? && curve.period != 0
    requires y < curve.end
    ensures CurveDelay(curve, y) == Ok(Billion)
    ensures forall x :: CurveThreshold(curve, x).value > y
  {
  }

  /** A level below `floor` is never reached by a linear threshold at a
      non-negative `x` when `floor <= ceil`, and its delay is the sentinel. */
  lemma LinearUnreachable(curve: Curve, y: int, x: int)
    requires curve.LinearDecreasing? && curve.length != 0 && curve.floor <= curve.ceil
    requires y < curve.floor && x >= 0
    ensures CurveDelay(curve, y) == Ok(Billion)
    ensures CurveThreshold(curve, x).value > y
  {
  }

  /** The delay of the threshold at `x` is never later than `x` on a linear
      curve with `floor < ceil`. */
  lemma LinearDelayOfThreshold(curve: Curve, x: int)
    requires curve.LinearDecreasing? && curve.length != 0 && curve.floor < curve.ceil
    requires x >= 0
    ensures CurveThreshold(curve, x).Ok?
    ensures CurveDelay(curve, CurveThreshold(curve, x).value).Ok?
    ensures CurveDelay(curve, CurveThreshold(curve, x).value).value <= x
  {
  }

  /** As written, the linear delay of any level strictly between `floor` and
      `ceil` is zero, yet the threshold at zero is `ceil`: the level does not
      suffice at the delay reported for it. */
  lemma LinearDelayTooEarly(curve: Curve, y: int)
    requires curve.LinearDecreasing? && curve.length != 0
    requires curve.floor < y < curve.ceil
    ensures CurveDelay(curve, y) == Ok(0)
    ensures CurveThreshold(curve, 0) == Ok(curve.ceil)
    ensures CurveThreshold(curve, CurveDelay(curve, y).value).value > y
  {
  }
}
