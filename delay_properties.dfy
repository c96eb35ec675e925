/** Properties of `curveDelay` as the code computes it. */
module DelayProperties {
  import opened Bn
  import opened Util

  /** A higher level never needs a longer delay: on every linear curve (the
      sentinel one billion is at least `length`), on a stepped curve from `end`
      upwards, and on a reciprocal curve with a non-negative `factor` once
      `y - yOffset` is positive. */
  lemma {:induction false} DelayNonIncreasing(curve: Curve, y1: int, y2: int)
    requires y1 <= y2
    requires DelayDefined(curve, y1) && DelayDefined(curve, y2)
    requires curve.SteppedDecreasing? ==> curve.end <= y1
    requires curve.Reciprocal? ==> curve.factor >= 0 && y1 - curve.yOffset > 0
    ensures CurveDelay(curve, y1).Ok? == CurveDelay(curve, y2).Ok?
    ensures CurveDelay(curve, y2).Ok? ==> CurveDelay(curve, y2).value <= CurveDelay(curve, y1).value
  {
    match curve
    case LinearDecreasing(_, _, _) =>
    case SteppedDecreasing(begin, _, period, step) =>
      CeilDivMonotone(begin - Min(y2, begin), begin - Min(y1, begin), step);
      MulMonotone(period, CeilDiv(begin - Min(y2, begin), step), CeilDiv(begin - Min(y1, begin), step));
    case Reciprocal(factor, _, yOffset) =>
      TruncDivAntitone(factor, y1 - yOffset, y2 - yOffset);
    case Unknown(_) =>
  }

  /** A stepped delay below `begin` is a whole number `k` of periods, where `k`
      is the fewest steps that come down from `begin` to `y` or lower. */
  lemma {:induction false} SteppedDelayFewestSteps(curve: Curve, y: int)
    requires curve.SteppedDecreasing? && curve.period != 0 && curve.step != 0
    requires curve.end <= y < curve.begin
    ensures CurveDelay(curve, y).Ok?
    ensures CurveDelay(curve, y).value % curve.period == 0
    ensures curve.begin - y <= curve.step * (CurveDelay(curve, y).value / curve.period)
    ensures curve.step * (CurveDelay(curve, y).value / curve.period - 1) < curve.begin - y
  {
    var k := CeilDiv(curve.begin - y, curve.step);
    CeilDivBounds(curve.begin - y, curve.step);
    var r := CurveDelay(curve, y).value;
    assert r == curve.period * k;
    FloorDivUnique(r, curve.period, k);
  }

  /** A linear delay takes only three values, 0, `length` and the sentinel,
      and a level above `floor` never waits: only `floor` itself and the
      unreachable levels below it get a positive delay. */
  lemma LinearDelayWaitsOnlyAtFloor(curve: Curve, y: int)
    requires curve.LinearDecreasing? && DelayDefined(curve, y)
    ensures CurveDelay(curve, y).Ok?
    ensures CurveDelay(curve, y).value in {0, curve.length, Billion}
    ensures CurveDelay(curve, y).value > 0 ==> y <= curve.floor
  {
  }
}
