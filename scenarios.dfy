/** Worked values of the two transforms on concrete curves, as the code
    computes them, next to what the intended linear curve gives. */
module Scenarios {
  import opened Bn
  import opened Util
  import opened IntendedLinear

  /** A linear curve from 100% down to 50% over 100 units: as written the
      threshold stays at `ceil` until `length`, and the delay of any level
      strictly between `floor` and `ceil` is zero. */
  lemma LinearThresholdValues()
    ensures LinearThreshold(1_000_000_000, 500_000_000, 100, 50) == 1_000_000_000
    ensures LinearThreshold(1_000_000_000, 500_000_000, 100, 100) == 500_000_000
    ensures LinearThreshold(1_000_000_000, 500_000_000, 100, 200) == 500_000_000
  {
  }

  /** On the same curve the delay is `length` at `floor` and zero anywhere
      above it; below `floor` it is the sentinel. */
  lemma LinearDelayValues()
    ensures LinearDelay(1_000_000_000, 500_000_000, 100, 600_000_000) == 0
    ensures LinearDelay(1_000_000_000, 500_000_000, 100, 500_000_000) == 100
    ensures LinearDelay(1_000_000_000, 500_000_000, 100, 1_000_000_000) == 0
    ensures LinearDelay(1_000_000_000, 500_000_000, 100, 400_000_000) == Billion
  {
  }

  /** On the same curve the intended line is at 75% halfway and reaches 60%
      after 80 units. */
  lemma IntendedLinearValues()
    ensures IntendedThreshold(1_000_000_000, 500_000_000, 100, 50) == 750_000_000
    ensures IntendedDelay(1_000_000_000, 500_000_000, 100, 600_000_000) == 80
  {
    var p := 50 * 500_000_000;
    TruncDivNonNegative(p, 100);
    FloorDivUnique(p, 100, 250_000_000);
    var a := 400_000_000 * 100;
    FloorDivUnique(a + 500_000_000 - 1, 500_000_000, 80);
  }

  /** A stepped curve from 100% down to 0%, 10% every 10 units: the threshold
      drops by 10% per period down to 0%. */
  lemma SteppedCurveValues()
    ensures SteppedThreshold(1_000_000_000, 0, 10, 100_000_000, 0) == 1_000_000_000
    ensures SteppedThreshold(1_000_000_000, 0, 10, 100_000_000, 10) == 900_000_000
    ensures SteppedThreshold(1_000_000_000, 0, 10, 100_000_000, 100) == 0
  {
    QuotientOfNonNegative(10, 10);
    QuotientOfNonNegative(100, 10);
    FloorDivUnique(100, 10, 10);
  }

  /** On the same curve a level of 0% is reachable (it is not below `end`),
      after ten periods; 85% needs two steps. */
  lemma SteppedDelayValues()
    ensures SteppedDelay(1_000_000_000, 0, 10, 100_000_000, 0) == 100
    ensures SteppedDelay(1_000_000_000, 0, 10, 100_000_000, 900_000_000) == 10
    ensures SteppedDelay(1_000_000_000, 0, 10, 100_000_000, 850_000_000) == 20
  {
    FloorDivUnique(1_000_000_000 + 100_000_000 - 1, 100_000_000, 10);
    FloorDivUnique(100_000_000 + 100_000_000 - 1, 100_000_000, 1);
    FloorDivUnique(150_000_000 + 100_000_000 - 1, 100_000_000, 2);
  }

  /** The stepped delay is not clamped to one billion: a long period with many
      small steps gives a delay far beyond it. */
  lemma SteppedDelayExceedsBillion()
    ensures SteppedDelay(1_000_000_000, 0, 1_000_000_000, 1, 0) == 1_000_000_000 * 1_000_000_000
  {
  }

  /** The reciprocal threshold is clamped above at one billion but not below
      zero: with a zero factor it is just `yOffset`, negative or not. */
  lemma ReciprocalNoLowerClamp()
    ensures ReciprocalThreshold(0, 1, -5, 0) == -5
    ensures ReciprocalThreshold(2_000_000_000, 1, 0, 0) == Billion
  {
    assert TruncDiv(0, 1) == 0 by { QuotientOfNonNegative(0, 1); }
    assert TruncDiv(2_000_000_000, 1) == 2_000_000_000 by { TruncDivNonNegative(2_000_000_000, 1); }
  }

  /** A level just below `end` can never be reached and gets the sentinel, yet
      the reachable level `end` itself needs nine times as long: the stepped
      delay is not monotone across `end`. */
  lemma SteppedDelayDropsBelowEnd()
    ensures SteppedDelay(1_000_000_000, 100_000_000, 100_000_000, 10_000_000, 99_999_999) == Billion
    ensures SteppedDelay(1_000_000_000, 100_000_000, 100_000_000, 10_000_000, 100_000_000) == 9_000_000_000
  {
    FloorDivUnique(900_000_000 + 10_000_000 - 1, 10_000_000, 90);
  }

  /** The reciprocal delay is clamped above at one billion but not below
      zero: with a zero factor it is just `-xOffset`. */
  lemma ReciprocalDelayNoLowerClamp()
    ensures ReciprocalDelay(0, 5, 0, 1) == -5
    ensures ReciprocalDelay(2_000_000_000, 0, 0, 1) == Billion
  {
    assert TruncDiv(0, 1) == 0 by { QuotientOfNonNegative(0, 1); }
    assert TruncDiv(2_000_000_000, 1) == 2_000_000_000 by { TruncDivNonNegative(2_000_000_000, 1); }
  }

  /** The reciprocal quotient is a plain integer quotient of raw FixedI64
      values, with no fixed-point scaling: a factor of 1.0 over an offset of
      1.0 gives 1 part per billion, not a whole proportion. */
  lemma ReciprocalMissingScale()
    ensures ReciprocalThreshold(1_000_000_000, 1_000_000_000, 0, 0) == 1
    ensures ReciprocalDelay(1_000_000_000, 0, 0, 1_000_000_000) == 1
  {
    QuotientOfNonNegative(1_000_000_000, 1_000_000_000);
  }

  /** Both transforms reject a curve of any other variant. */
  lemma UnknownCurveRejected(kind: string, v: int)
    ensures CurveThreshold(Unknown(kind), v) == Err(UnknownCurveKind(kind))
    ensures CurveDelay(Unknown(kind), v) == Err(UnknownCurveKind(kind))
  {
  }
}
