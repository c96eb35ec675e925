/** Properties of `curveThreshold` as the code computes it. */
module ThresholdProperties {
  import opened Bn
  import opened Util

  /** The threshold never rises as more of the decision period elapses: for a
      linear curve whose `floor` is not above its `ceil`, for every stepped
      curve, and for a reciprocal curve with a non-negative `factor` once
      `x + xOffset` is positive. */
  lemma {:induction false} ThresholdNonIncreasing(curve: Curve, x1: int, x2: int)
    requires 0 <= x1 <= x2
    requires ThresholdDefined(curve, x1) && ThresholdDefined(curve, x2)
    requires curve.LinearDecreasing? ==> curve.floor <= curve.ceil
    requires curve.Reciprocal? ==> curve.factor >= 0 && x1 + curve.xOffset > 0
    ensures CurveThreshold(curve, x1).Ok? == CurveThreshold(curve, x2).Ok?
    ensures CurveThreshold(curve, x2).Ok? ==>
              CurveThreshold(curve, x2).value <= CurveThreshold(curve, x1).value
  {
    match curve
    case LinearDecreasing(_, _, _) =>
    case SteppedDecreasing(begin, end, period, step) =>
      var k1, k2 := x1 / period, x2 / period;
      QuotientOfNonNegative(x1, period);
      QuotientOfNonNegative(x2, period);
      assert k1 <= k2 by {
        assert k1 * period <= x1;
        MulLeIffLeDiv(k1, x2, period);
      }
      MulMonotone(step, k1, k2);
    case Reciprocal(factor, xOffset, _) =>
      TruncDivAntitone(factor, x1 + xOffset, x2 + xOffset);
    case Unknown(_) =>
  }

  /** A linear threshold has settled at `length`: a non-negative `x` gives the
      same threshold as `length` (namely `floor`) exactly when it has reached
      `length`, or when the curve is flat. */
  lemma LinearThresholdSaturates(curve: Curve, x: int)
    requires curve.LinearDecreasing? && curve.length != 0
    requires x >= 0
    ensures CurveThreshold(curve, curve.length) == Ok(curve.floor)
    ensures CurveThreshold(curve, x) == CurveThreshold(curve, curve.length) <==>
            x >= curve.length || curve.ceil == curve.floor
  {
  }

  /** At the origin the threshold is `ceil`, `max(begin, end)`, or the clamped
      reciprocal `factor / xOffset + yOffset`. */
  lemma ThresholdAtOrigin(curve: Curve)
    requires ThresholdDefined(curve, 0)
    ensures curve.LinearDecreasing? ==> CurveThreshold(curve, 0) == Ok(curve.ceil)
    ensures curve.SteppedDecreasing? ==> CurveThreshold(curve, 0) == Ok(Max(curve.begin, curve.end))
    ensures curve.Reciprocal? ==>
              CurveThreshold(curve, 0) == Ok(Min(Billion, TruncDiv(curve.factor, curve.xOffset) + curve.yOffset))
  {
  }

  /** The stepped threshold is a staircase: one more `period` lowers it by
      `step`, but never below `end` (and never below zero on the way). */
  lemma {:induction false} SteppedThresholdNextPeriod(curve: Curve, x: int)
    requires curve.SteppedDecreasing? && curve.period != 0
    requires x >= 0
    ensures CurveThreshold(curve, x + curve.period).Ok?
    ensures CurveThreshold(curve, x + curve.period).value ==
            Max(curve.end, CurveThreshold(curve, x).value - curve.step)
  {
    SteppedNextPeriod(curve.begin, curve.end, curve.period, curve.step, x);
  }

  lemma {:induction false} SteppedNextPeriod(begin: Perbill, end: Perbill, period: Perbill, step: Perbill, x: int)
    requires period != 0 && x >= 0
    ensures SteppedThreshold(begin, end, period, step, x + period) ==
            Max(end, SteppedThreshold(begin, end, period, step, x) - step)
  {
    var k := x / period;
    SteppedByWholePeriods(begin, end, period, step, x);
    SteppedByWholePeriods(begin, end, period, step, x + period);
    NextQuotient(x, period);
    var s := step * k;
    var s' := step * ((x + period) / period);
    assert s' == s + step by {
      assert (x + period) / period == k + 1;
      MulSucc(step, k);
    }
    assert s >= 0 by { MulMonotone(step, 0, k); }
    var t := SteppedThreshold(begin, end, period, step, x);
    var t' := SteppedThreshold(begin, end, period, step, x + period);
    assert t == Max(end, begin - Min(begin, s));
    assert t' == Max(end, begin - Min(begin, s + step));
    LowerByOneStep(begin, end, s, step);
  }

  /** For a non-negative `x` the stepped threshold counts whole periods. */
  lemma SteppedByWholePeriods(begin: Perbill, end: Perbill, period: Perbill, step: Perbill, x: int)
    requires period != 0 && x >= 0
    ensures x / period >= 0
    ensures SteppedThreshold(begin, end, period, step, x) == Max(end, begin - Min(begin, step * (x / period)))
  {
    QuotientOfNonNegative(x, period);
  }

  lemma NextQuotient(x: int, p: int)
    requires x >= 0 && p > 0
    ensures (x + p) / p == x / p + 1
  {
    FloorDivUnique(x + p, p, x / p + 1);
  }

  /** Covering `s + step` instead of `s` lowers `max(end, begin - min(begin, s))`
      by `step`, but not below `end`. */
  lemma LowerByOneStep(begin: int, end: int, s: int, step: int)
    requires begin >= 0 && end >= 0 && s >= 0 && step >= 0
    ensures Max(end, begin - Min(begin, s + step)) == Max(end, Max(end, begin - Min(begin, s)) - step)
  {
  }

  /** Two points in the same period of a stepped curve have the same threshold. */
  lemma SteppedThresholdFlatWithinPeriod(curve: Curve, x1: int, x2: int)
    requires curve.SteppedDecreasing? && curve.period != 0
    requires x1 >= 0 && x2 >= 0 && x1 / curve.period == x2 / curve.period
    ensures CurveThreshold(curve, x1) == CurveThreshold(curve, x2)
  {
    QuotientOfNonNegative(x1, curve.period);
    QuotientOfNonNegative(x2, curve.period);
  }

  /** The stepped curve described period by period: `max(begin, end)` during
      the first period, and each later period `step` lower than the one before,
      never below `end`. It stays between `end` and `max(begin, end)`. */
  function SteppedStaircase(begin: Perbill, end: Perbill, period: Perbill, step: Perbill, x: int): (r: int)
    requires period != 0
    ensures end <= r <= Max(begin, end)
    decreases x
  {
    if x < period then Max(begin, end)
    else Max(end, SteppedStaircase(begin, end, period, step, x - period) - step)
  }

  /** For every `x >= 0` the stepped threshold the code computes in closed form
      is the staircase described period by period. */
  lemma {:induction false} SteppedThresholdIsStaircase(curve: Curve, x: int)
    requires curve.SteppedDecreasing? && curve.period != 0
    requires x >= 0
    ensures CurveThreshold(curve, x).Ok?
    ensures CurveThreshold(curve, x).value == SteppedStaircase(curve.begin, curve.end, curve.period, curve.step, x)
    decreases x
  {
    if x >= curve.period {
      SteppedThresholdIsStaircase(curve, x - curve.period);
      SteppedNextPeriod(curve.begin, curve.end, curve.period, curve.step, x - curve.period);
    }
  }
}
