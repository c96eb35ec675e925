/** The governance-curve transforms of the referenda page: `curveThreshold`
    maps an elapsed amount `x` to the approval or support proportion a
    referendum needs at that point, and `curveDelay` maps a proportion `y`
    back to the elapsed amount at which that level suffices. Proportions are
    Perbill values: integers scaled by one billion.

    Every division is `BN.div`, which truncates toward zero (`Bn.TruncDiv`).
    The rounding modes named in the Rust reference that the source quotes in
    its comments (`Down`, `Up`, `Low`, `High`) are not applied by the code and
    are not applied here. */
module Util {
  import opened Bn

  /** A `Perbill` field of a curve: an unsigned 32-bit value that the chain
      keeps within one billion. */
  type Perbill = n: int | 0 <= n <= 1_000_000_000

  /** A `FixedI64` field of a reciprocal curve: a signed 64-bit raw value. */
  type FixedI64 = n: int | -0x8000_0000_0000_0000 <= n < 0x8000_0000_0000_0000

  /** `PalletReferendaCurve`. `Unknown` stands for a value of any other
      variant, which both transforms reject. */
  datatype Curve =
    | LinearDecreasing(ceil: Perbill, floor: Perbill, length: Perbill)
    | SteppedDecreasing(begin: Perbill, end: Perbill, period: Perbill, step: Perbill)
    | Reciprocal(factor: FixedI64, xOffset: FixedI64, yOffset: FixedI64)
    | Unknown(kind: string)

  /** The thrown `Unknown curve found <type>` error. */
  datatype CurveError = UnknownCurveKind(kind: string)

  datatype Result<T> = Ok(value: T) | Err(error: CurveError)

  /** No `BN.div` in `curveThreshold(curve, x)` divides by zero: the divisor
      of each branch (`length`, `period`, `x + xOffset`) is non-zero. */
  predicate ThresholdDefined(curve: Curve, x: int): (b: bool)
    ensures curve.LinearDecreasing? ==> (b <==> curve.length != 0)
    ensures curve.SteppedDecreasing? ==> (b <==> curve.period != 0)
    ensures curve.Reciprocal? ==> (b <==> x + curve.xOffset != 0)
    ensures curve.Unknown? ==> b
  {
    match curve
    case LinearDecreasing(_, _, length) => length != 0
    case SteppedDecreasing(_, _, period, _) => period != 0
    case Reciprocal(_, xOffset, _) => x + xOffset != 0
    case Unknown(_) => true
  }

  /** No `BN.div` in `curveDelay(curve, y)` divides by zero. The linear and
      stepped branches only divide once `y` has passed their sentinel tests. */
  predicate DelayDefined(curve: Curve, y: int): (b: bool)
    ensures curve.LinearDecreasing? ==>
              (b <==> (curve.floor <= y <= curve.ceil ==> curve.ceil - curve.floor != 0))
    ensures curve.SteppedDecreasing? ==> (b <==> (y >= curve.end ==> curve.step != 0))
    ensures curve.Reciprocal? ==> (b <==> y - curve.yOffset != 0)
    ensures curve.Unknown? ==> b
  {
    match curve
    case LinearDecreasing(ceil, floor, _) => y < floor || y > ceil || ceil != floor
    case SteppedDecreasing(_, end, _, step) => y < end || step != 0
    case Reciprocal(_, _, yOffset) => y - yOffset != 0
    case Unknown(_) => true
  }

  /** What the truncated quotient of a non-negative `n` by a positive `d` is
      known to be when `n` is below `d` or equal to it. */
  lemma QuotientOfNonNegative(n: int, d: int)
    requires d > 0
    ensures n >= 0 ==> TruncDiv(n, d) == n / d >= 0
    ensures 0 <= n < d ==> TruncDiv(n, d) == 0
    ensures n == d ==> TruncDiv(n, d) == 1
  {
    if n >= 0 {
      TruncDivNonNegative(n, d);
      MulLeIffLeDiv(0, n, d);
      if n < d {
        FloorDivUnique(n, d, 0);
      } else if n == d {
        FloorDivUnique(n, d, 1);
      }
    }
  }

  /** Linear branch of `curveThreshold`. The quotient `min(x, length) / length`
      is truncated, so for a non-negative `x` it is 0 before `length` and 1
      from `length` on: the threshold is `ceil` and then drops to `floor` in
      one step, and every `x` past `length` gives what `length` gives. */
  function LinearThreshold(ceil: Perbill, floor: Perbill, length: Perbill, x: int): (r: int)
    requires length != 0
    ensures 0 <= x < length ==> r == ceil
    ensures x >= length ==> r == floor
  {
    var m := Min(x, length);
    QuotientOfNonNegative(m, length);
    ceil - TruncDiv(m, length) * (ceil - floor)
  }

  /** Stepped branch of `curveThreshold`. The inner `min(begin, ...)` keeps the
      subtraction from going below zero and the outer `max(end, ...)` floors the
      result at `end`. */
  function SteppedThreshold(begin: Perbill, end: Perbill, period: Perbill, step: Perbill, x: int): (r: int)
    requires period != 0
    ensures end <= r
    ensures 0 <= r
    ensures x >= 0 ==> r <= Max(begin, end)
    ensures 0 <= x < period ==> r == Max(begin, end)
  {
    QuotientOfNonNegative(x, period);
    Max(end, begin - Min(begin, step * TruncDiv(x, period)))
  }

  /** Reciprocal branch of `curveThreshold`: the quotient plus `yOffset`,
      clamped above at one billion and not clamped below. */
  function ReciprocalThreshold(factor: FixedI64, xOffset: FixedI64, yOffset: FixedI64, x: int): (r: int)
    requires x + xOffset != 0
    ensures r <= Billion
    ensures r < Billion ==> r == TruncDiv(factor, x + xOffset) + yOffset
    ensures TruncDiv(factor, x + xOffset) + yOffset >= Billion ==> r == Billion
  {
    Min(Billion, TruncDiv(factor, x + xOffset) + yOffset)
  }

  /** `curveThreshold`: fails only on a curve of an unknown variant; a linear
      or stepped threshold at a non-negative `x` is a proportion, a reciprocal
      one is at most one billion. */
  function CurveThreshold(curve: Curve, x: int): (r: Result<int>)
    requires ThresholdDefined(curve, x)
    ensures r.Err? <==> curve.Unknown?
    ensures curve.Unknown? ==> r == Err(UnknownCurveKind(curve.kind))
    ensures r.Ok? && !curve.Reciprocal? && x >= 0 ==> 0 <= r.value <= Billion
    ensures r.Ok? && curve.Reciprocal? ==> r.value <= Billion
  {
    match curve
    case LinearDecreasing(ceil, floor, length) =>
      Ok(LinearThreshold(ceil, floor, length, x))
    case SteppedDecreasing(begin, end, period, step) =>
      Ok(SteppedThreshold(begin, end, period, step, x))
    case Reciprocal(factor, xOffset, yOffset) =>
      Ok(ReciprocalThreshold(factor, xOffset, yOffset, x))
    case Unknown(kind) =>
      Err(UnknownCurveKind(kind))
  }

  /** Linear branch of `curveDelay`: the sentinel one billion below `floor`,
      zero above `ceil`, and otherwise `((ceil - y) / (ceil - floor)) * length`
      with a truncated quotient, which is 1 only at `y == floor`: the delay is
      `length` at the floor and zero everywhere above it. */
  function LinearDelay(ceil: Perbill, floor: Perbill, length: Perbill, y: int): (r: int)
    requires y < floor || y > ceil || ceil != floor
    ensures y < floor ==> r == Billion
    ensures y >= floor && y > ceil ==> r == 0
    ensures floor <= y <= ceil ==> r == (if y == floor then length else 0)
    ensures 0 <= r <= Billion
  {
    if y < floor then Billion
    else if y > ceil then 0
    else
      QuotientOfNonNegative(ceil - y, ceil - floor);
      TruncDiv(ceil - y, ceil - floor) * length
  }

  /** Stepped branch of `curveDelay`: the sentinel one billion below `end`,
      and otherwise `period` times the number of steps needed to come down
      from `begin` to `y`, a division rounded up by adding `step - 1` to the
      numerator (nothing when `step` is zero, which then divides by zero). */
  function SteppedDelay(begin: Perbill, end: Perbill, period: Perbill, step: Perbill, y: int): (r: int)
    requires y < end || step != 0
    ensures y < end ==> r == Billion
    ensures y >= end ==> r == period * CeilDiv(begin - Min(y, begin), step)
    ensures y >= end && y >= begin ==> r == 0
    ensures 0 <= r
  {
    if y < end then Billion
    else
      var numerator := begin - Min(y, begin) + (if step == 0 then step else step - 1);
      TruncDivNonNegative(numerator, step);
      period * TruncDiv(numerator, step)
  }

  /** Reciprocal branch of `curveDelay`: the quotient minus `xOffset`, clamped
      above at one billion and not clamped below. */
  function ReciprocalDelay(factor: FixedI64, xOffset: FixedI64, yOffset: FixedI64, y: int): (r: int)
    requires y - yOffset != 0
    ensures r <= Billion
    ensures r < Billion ==> r == TruncDiv(factor, y - yOffset) - xOffset
    ensures TruncDiv(factor, y - yOffset) - xOffset >= Billion ==> r == Billion
  {
    Min(Billion, TruncDiv(factor, y - yOffset) - xOffset)
  }

  /** `curveDelay`: fails only on a curve of an unknown variant; a linear delay
      is within `[0, Billion]`, a stepped one is non-negative (it is not
      clamped above) and a reciprocal one is at most one billion. */
  function CurveDelay(curve: Curve, y: int): (r: Result<int>)
    requires DelayDefined(curve, y)
    ensures r.Err? <==> curve.Unknown?
    ensures curve.Unknown? ==> r == Err(UnknownCurveKind(curve.kind))
    ensures r.Ok? && curve.LinearDecreasing? ==> 0 <= r.value <= Billion
    ensures r.Ok? && curve.SteppedDecreasing? ==> 0 <= r.value
    ensures r.Ok? && curve.Reciprocal? ==> r.value <= Billion
  {
    match curve
    case LinearDecreasing(ceil, floor, length) =>
      Ok(LinearDelay(ceil, floor, length, y))
    case SteppedDecreasing(begin, end, period, step) =>
      Ok(SteppedDelay(begin, end, period, step, y))
    case Reciprocal(factor, xOffset, yOffset) =>
      Ok(ReciprocalDelay(factor, xOffset, yOffset, y))
    case Unknown(kind) =>
      Err(UnknownCurveKind(kind))
  }
}
