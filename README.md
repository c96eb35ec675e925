# Referenda governance curves

A model of the two governance-curve transforms of the referenda page of the
Polkadot apps (`packages/page-referenda/src/util.ts`):

- `curveThreshold(curve, x)` maps an elapsed amount `x` to the approval or
  support proportion that a referendum needs at that point;
- `curveDelay(curve, y)` maps a proportion `y` back to the elapsed amount at
  which that level suffices, or to the sentinel `1_000_000_000` when it never
  does.

Proportions are Perbill values (integers scaled by one billion, `BN_BILLION`).
Both transforms dispatch over the three variants of a referenda curve,
`LinearDecreasing { ceil, floor, length }`,
`SteppedDecreasing { begin, end, period, step }` and
`Reciprocal { factor, xOffset, yOffset }`, and throw on any other variant.

The model follows the TypeScript as written, not the Rust reference that its
comments quote. Every `BN.div` truncates toward zero (`Bn.TruncDiv`); no
`Down`, `Up`, `Low` or `High` rounding is applied. Because of this the linear
branches collapse. `min(x, length) / length` is 0 or 1, so the linear
threshold is `ceil` until `length` and `floor` from then on. `(ceil - y) / (ceil - floor)`
is 1 only at `floor`, so the linear delay is `length` there and 0 above it.

Layout:

- `bn.dfy` (module `Bn`): the `BN` operations used. It gives truncating
  division with its defining remainder property and uniqueness, and
  ceiling division.
- `util.dfy` (module `Util`): the `Curve` datatype, the per-branch functions,
  `CurveThreshold` and `CurveDelay`.
- `threshold_properties.dfy`, `delay_properties.dfy`: monotonicity, bounds,
  the staircase shape of the stepped curve.
- `inverse_properties.dfy`: how the delay answers the threshold. On a
  stepped curve the delay of `y` is exactly the earliest `x` with
  threshold at most `y`. On a linear curve, as written, it is not.
- `intended_linear.dfy`: the linear curve with multiply-before-divide and a
  rounded-up delay, for which the same "earliest point" property holds (see
  Findings).
- `scenarios.dfy`: worked values on concrete curves.

Modelling decisions:

- Curve fields have their on-chain types. Linear and stepped fields are
  `Perbill` (`0 ..= 1_000_000_000`). Reciprocal fields are `FixedI64` raw
  values (signed 64-bit). `x` and `y` are unbounded signed integers, like
  `BN`. Lemmas assume `x >= 0` where the property needs it.
- A zero divisor makes `BN.div` throw, so it is a precondition.
  `Util.ThresholdDefined` requires `length != 0`, `period != 0` and
  `x + xOffset != 0`. `Util.DelayDefined` requires `ceil != floor` once
  `floor <= y <= ceil`, `step != 0` once `y >= end`, and `y - yOffset != 0`.
- A curve of any other variant is `Curve.Unknown(kind)`. Both transforms
  return `Err(UnknownCurveKind(kind))` for it.

## Model

| member | source | states |
|---|---|---|
| `Bn.Min` | packages/page-referenda/src/util.ts:57 | `bnMin`: the result is one of the two arguments and is at most both |
| `Bn.Max` | packages/page-referenda/src/util.ts:67 | `bnMax`: the result is one of the two arguments and is at least both |
| `Bn.TruncDiv` | packages/page-referenda/src/util.ts:56-58 | `BN.div`: the quotient is no larger than the dividend in magnitude, is 0 when the dividend is smaller than the divisor in magnitude, and is non-negative when the signs agree |
| `Bn.TruncDivRemainder` | packages/page-referenda/src/util.ts:87-89 | the remainder of `BN.div` is smaller than the divisor and never has the opposite sign of the dividend (rounding toward zero) |
| `Bn.TruncDivUnique` | packages/page-referenda/src/util.ts:87-89 | any quotient with that remainder property is `TruncDiv`, so it pins truncating division down completely |
| `Bn.TruncDivNonNegative` | packages/page-referenda/src/util.ts:72-74 | on a non-negative dividend and a positive divisor `BN.div` is floored division |
| `Bn.TruncDivAntitone` | packages/page-referenda/src/util.ts:87-89 | a larger positive divisor never gives a larger quotient of a non-negative dividend |
| `Bn.CeilDiv` | packages/page-referenda/src/util.ts:130-137 | the quotient with `step - 1` added to the numerator is non-negative, 0 for a zero numerator, and 1 for a numerator in `(0, step]`; `Bn.CeilDivBounds` pins it down |
| `Bn.CeilDivBounds` | packages/page-referenda/src/util.ts:130-137 | `(a + step - 1) / step` is the least `r` with `a <= r * step` |
| `Bn.CeilDivLeIff` | packages/page-referenda/src/util.ts:130-137 | the rounded-up quotient is at most `k` exactly when `a <= k * step` |
| `Bn.CeilDivMonotone` | packages/page-referenda/src/util.ts:130-137 | a larger numerator never gives a smaller rounded-up quotient |
| `Util.ThresholdDefined` | packages/page-referenda/src/util.ts:56-89 | `curveThreshold` divides by no zero: `length` for a linear curve, `period` for a stepped one, `x + xOffset` for a reciprocal one; an unknown variant divides by nothing |
| `Util.DelayDefined` | packages/page-referenda/src/util.ts:109-151 | `curveDelay` divides by no zero: `ceil - floor` once `floor <= y <= ceil` on a linear curve, `step` once `y >= end` on a stepped one, `y - yOffset` on a reciprocal one; an unknown variant divides by nothing |
| `Util.LinearThreshold` | packages/page-referenda/src/util.ts:52-62 | for `0 <= x < length` the threshold is `ceil`; for `x >= length` it is `floor` |
| `Util.SteppedThreshold` | packages/page-referenda/src/util.ts:63-77 | the threshold is at least `end` and at least 0; for `x >= 0` it is at most `max(begin, end)`; within the first period it equals `max(begin, end)` |
| `Util.ReciprocalThreshold` | packages/page-referenda/src/util.ts:78-92 | the threshold is at most one billion; below that it is the truncated `factor / (x + xOffset)` plus `yOffset`; at or above it, it is one billion; there is no lower clamp |
| `Util.CurveThreshold` | packages/page-referenda/src/util.ts:51-96 | it fails exactly on an unknown variant, with that variant's tag; a linear or stepped threshold at `x >= 0` lies in `[0, 1_000_000_000]`; a reciprocal one is at most one billion |
| `Util.LinearDelay` | packages/page-referenda/src/util.ts:99-118 | below `floor` the delay is the sentinel one billion; above `ceil` it is 0; between them it is `length` at `floor` and 0 elsewhere; it always lies in `[0, 1_000_000_000]` |
| `Util.SteppedDelay` | packages/page-referenda/src/util.ts:119-138 | below `end` the delay is the sentinel; from `end` up it is `period` times the rounded-up number of steps from `begin` down to `y`; it is 0 once `y >= begin`; it is never negative |
| `Util.ReciprocalDelay` | packages/page-referenda/src/util.ts:139-154 | the delay is at most one billion; below that it is the truncated `factor / (y - yOffset)` minus `xOffset`; at or above it, it is one billion |
| `Util.CurveDelay` | packages/page-referenda/src/util.ts:98-158 | it fails exactly on an unknown variant; a linear delay lies in `[0, 1_000_000_000]`; a stepped delay is non-negative and not bounded above; a reciprocal delay is at most one billion |
| `ThresholdProperties.ThresholdNonIncreasing` | packages/page-referenda/src/util.ts:51-92 | for `0 <= x1 <= x2` the threshold at `x2` is at most the threshold at `x1`: for linear with `floor <= ceil`, for every stepped curve, and for reciprocal with `factor >= 0` and `x1 + xOffset > 0` |
| `ThresholdProperties.LinearThresholdSaturates` | packages/page-referenda/src/util.ts:56-62 | the linear threshold at `length` is `floor`, and a non-negative `x` gives that same threshold exactly when `x >= length` or the curve is flat (`ceil == floor`) |
| `ThresholdProperties.ThresholdAtOrigin` | packages/page-referenda/src/util.ts:51-92 | at `x = 0` the threshold is `ceil`, `max(begin, end)`, or the clamped `factor / xOffset + yOffset` |
| `ThresholdProperties.SteppedThresholdNextPeriod` | packages/page-referenda/src/util.ts:67-77 | one more `period` lowers the stepped threshold by `step`, never below `end` |
| `ThresholdProperties.SteppedStaircase` | packages/page-referenda/src/util.ts:63-77 | the stepped curve defined period by period: `max(begin, end)` in the first period, then each period `step` lower, floored at `end`. It always stays between `end` and `max(begin, end)` |
| `ThresholdProperties.SteppedThresholdIsStaircase` | packages/page-referenda/src/util.ts:63-77 | for every `x >= 0` the closed-form stepped threshold the code computes equals that period-by-period staircase |
| `ThresholdProperties.SteppedThresholdFlatWithinPeriod` | packages/page-referenda/src/util.ts:72-74 | two points in the same period have the same stepped threshold |
| `DelayProperties.DelayNonIncreasing` | packages/page-referenda/src/util.ts:98-154 | a higher level never needs a longer delay: always for linear, from `end` up for stepped, and for reciprocal with `factor >= 0` and `y1 - yOffset > 0` |
| `DelayProperties.SteppedDelayFewestSteps` | packages/page-referenda/src/util.ts:127-138 | for `end <= y < begin` the stepped delay is a multiple `k` of `period`, where `k` is the fewest steps that cover `begin - y` |
| `DelayProperties.LinearDelayWaitsOnlyAtFloor` | packages/page-referenda/src/util.ts:109-118 | the linear delay is always 0, `length` or the sentinel, and it is positive only for levels at or below `floor` |
| `InverseProperties.SteppedDelayIsEarliest` | packages/page-referenda/src/util.ts:63-138 | for `x >= 0` and `y >= end`, the stepped threshold at `x` is at most `y` exactly when `x` is at least the delay of `y` |
| `InverseProperties.ThresholdReachesIff` | packages/page-referenda/src/util.ts:67-77 | the stepped threshold at `x` has reached `y` exactly when the `x / period` steps cover `begin - min(y, begin)` |
| `InverseProperties.DelayAtMostIff` | packages/page-referenda/src/util.ts:127-138 | the stepped delay of `y` is at most `x` exactly when the `x / period` steps cover `begin - min(y, begin)` |
| `InverseProperties.SteppedDelayOfThreshold` | packages/page-referenda/src/util.ts:63-138 | the stepped delay of the threshold at `x` is never later than `x` |
| `InverseProperties.SteppedThresholdOfDelay` | packages/page-referenda/src/util.ts:63-138 | at the stepped delay of a level `y >= end`, the threshold is at most `y` |
| `InverseProperties.SteppedUnreachable` | packages/page-referenda/src/util.ts:127-128 | a level below `end` gets the sentinel delay, and no `x` brings the stepped threshold down to it |
| `InverseProperties.LinearUnreachable` | packages/page-referenda/src/util.ts:109-110 | a level below `floor` gets the sentinel delay, and no `x >= 0` brings the linear threshold down to it |
| `InverseProperties.LinearDelayOfThreshold` | packages/page-referenda/src/util.ts:52-118 | with `floor < ceil`, the linear delay of the threshold at `x` is never later than `x` |
| `InverseProperties.LinearDelayTooEarly` | packages/page-referenda/src/util.ts:52-118 | as written, any level strictly between `floor` and `ceil` gets delay 0, but the threshold at 0 is `ceil`, which is above that level |
| `IntendedLinear.IntendedThreshold` | packages/page-referenda/src/util.ts:55-62 | the intended linear threshold stays within `[floor, ceil]`, is `ceil` at 0, and is `floor` from `length` on |
| `IntendedLinear.IntendedDelay` | packages/page-referenda/src/util.ts:102-118 | the intended linear delay is the sentinel below `floor` and 0 above `ceil`; on `[floor, ceil]` it lies within `[0, length]`, is `length` at `floor` and is 0 at `ceil` |
| `IntendedLinear.IntendedDelayIsEarliest` | packages/page-referenda/src/util.ts:55-118 | for a level `y` in `[floor, ceil]`, the intended threshold at `x` is at most `y` exactly when `x` is at least the intended delay of `y` |
| `IntendedLinear.IntendedAgreesAtEnds` | packages/page-referenda/src/util.ts:55-62 | the intended and the as-written linear thresholds agree at 0 and from `length` on |
| `Scenarios.LinearThresholdValues` | packages/page-referenda/src/util.ts:56-62 | on the curve (ceil 100%, floor 50%, length 100), the threshold is 100% at 50, and 50% at 100 and at 200 |
| `Scenarios.LinearDelayValues` | packages/page-referenda/src/util.ts:109-118 | on the same curve the delay is 0 for 60% and for 100%, 100 for 50%, and the sentinel for 40% |
| `Scenarios.IntendedLinearValues` | packages/page-referenda/src/util.ts:55-118 | on the same curve the intended threshold at 50 is 75%, and the intended delay of 60% is 80 |
| `Scenarios.SteppedCurveValues` | packages/page-referenda/src/util.ts:67-77 | on the curve (begin 100%, end 0%, period 10, step 10%), the threshold is 100% at 0, 90% at 10 and 0% at 100 |
| `Scenarios.SteppedDelayValues` | packages/page-referenda/src/util.ts:127-138 | on the same curve the delay is 100 for 0%, 10 for 90% and 20 for 85% |
| `Scenarios.SteppedDelayExceedsBillion` | packages/page-referenda/src/util.ts:129-138 | a stepped delay is not clamped: with period one billion and step 1 it is `10^18` |
| `Scenarios.ReciprocalNoLowerClamp` | packages/page-referenda/src/util.ts:85-92 | a reciprocal threshold can be negative (`-5`); it is clamped only above |
| `Scenarios.SteppedDelayDropsBelowEnd` | packages/page-referenda/src/util.ts:127-138 | on (begin 100%, end 10%, period 10^8, step 1%) the level just below `end` gets the sentinel one billion, while `end` itself gets `9 * 10^9` |
| `Scenarios.ReciprocalDelayNoLowerClamp` | packages/page-referenda/src/util.ts:147-154 | a reciprocal delay can be negative (`-5` with factor 0 and `xOffset` 5); it is clamped only above |
| `Scenarios.ReciprocalMissingScale` | packages/page-referenda/src/util.ts:85-92 | with factor and `xOffset` both the raw value of 1.0 (one billion), the reciprocal threshold at 0 is 1, not one billion; with factor 1.0 and `y` one billion the reciprocal delay is 1 |
| `Scenarios.UnknownCurveRejected` | packages/page-referenda/src/util.ts:95 | both transforms fail on an unknown variant with its tag and return no value |

## Where the code and the Rust reference in its comments differ

The model follows the code. The Rust reference quoted in the comments of
`util.ts` computes differently in these places:

- util.ts:55: the reference divides with `saturating_div` on Perbill values,
  which gives the share `min(x, length) / length` as a proportion. On
  (ceil 100%, floor 50%, length 100) at `x = 50` that share is one half and the
  threshold 75%. The code's integer quotient is 0, so it gives 100%
  (`Scenarios.LinearThresholdValues`).
- util.ts:107: the reference takes the Perbill share `(ceil - y) / (ceil - floor)`
  rounded `Up` and multiplies it by `length`. On the same curve the delay of
  60% is then 80. The code's integer quotient is 0, so it gives 0
  (`Scenarios.LinearDelayValues`).
- util.ts:125: in the reference, `period.int_mul(...)` multiplies a Perbill,
  which saturates at one. The code multiplies unbounded integers, so the
  stepped delay can exceed one billion (`Scenarios.SteppedDelayExceedsBillion`).
- util.ts:82 and util.ts:143: the reference divides with `checked_rounding_div`,
  a fixed-point division whose raw quotient is `factor * 10^9 / divisor`.
  The code divides the raw values with `BN.div` and leaves out that factor of
  one billion, so its quotient is about a billionth of the reference's. With
  factor 1.0 and `xOffset` 1.0 at `x = 0` the reference threshold is one
  (1_000_000_000); the code gives 1. The same holds for the delay
  (`Scenarios.ReciprocalMissingScale`).
- util.ts:83-84: the reference threshold rounds `Low` and clamps into a
  proportion with `into_clamped_perthing`, so it is never below 0. The code
  truncates and clamps only above (`Scenarios.ReciprocalNoLowerClamp`).
- util.ts:143-146: the reference delay rounds `High`, and a term outside
  `[0, 1]` after subtracting `xOffset` falls back to `Perbill::one`. The code
  truncates and clamps only above, so the delay can be negative
  (`Scenarios.ReciprocalDelayNoLowerClamp`).

## Left out

- `getTrackName` (util.ts:11-21) is left out. It is display formatting through `formatNumber` and `stringPascalCase`, whose code is not part of this model.
- `getTrackInfo` (util.ts:23-41) is left out. It looks up chain and configuration data (`ApiPromise`, `getGovernanceTracks`).
- `isConvictionTally` and `isConvictionVote` (util.ts:43-49) are left out. They test fields of codec objects and have no logic beyond that.
- `calcDecidingEnd` (util.ts:161-163) is left out. It is a stub that always returns `undefined`.
- The Perbill and FixedI64 rounding modes (`Down`, `Up`, `Low`, `High`) and `into_clamped_perthing` are left out. They appear only in comments, and the code does not apply them. The reference's fixed-point scaling of the reciprocal quotient by one billion is absent from the code (see the differences section), so it is not modelled.
- A zero divisor makes `BN.div` throw. The model does not carry this as an error value. It is a precondition (`ThresholdDefined`, `DelayDefined`).
- Where the unknown-variant error is thrown is not modelled. In polkadot-js the `asReciprocal` getter at util.ts:78 already throws for another variant, before line 95 is reached. Only the outcome is modelled: an error carrying the variant tag, and no value.
- The text of the thrown error messages is not modelled.
- The curve is a value type, so neither transform can change it. No separate statement is made about this.
- `Util.ReciprocalThreshold`: no inverse relation with `Util.ReciprocalDelay` is stated. Both truncate, and they mix plain integers with FixedI64 raw values, so neither one rounds the other's result back.
- `ThresholdProperties.ThresholdNonIncreasing`: for a reciprocal curve it assumes `factor >= 0` and `x1 + xOffset > 0`. A negative divisor can make the truncated quotient rise.

- `DelayProperties.DelayNonIncreasing`: on a stepped curve it assumes `y1 >= end`. The code forces this: a level below `end` gets the sentinel one billion, but the stepped delay has no upper clamp, so the reachable level `end` can need longer (`Scenarios.SteppedDelayDropsBelowEnd`). On a reciprocal curve it assumes `factor >= 0` and `y1 - yOffset > 0`, because a negative divisor can make the truncated quotient rise.
- `Util.Perbill` caps linear and stepped curve fields at one billion. The polkadot-js `Perbill` codec is an unsigned 32-bit integer and does not enforce this cap; the model relies on the runtime, whose `Perbill` decoding rejects values above one billion. The range results of `Util.CurveThreshold` and `Util.LinearDelay` depend on this cap.

## Findings

| source | as written | input that shows it | evidently intended | confidence | as-written member | corrected member |
|---|---|---|---|---|---|---|
| packages/page-referenda/src/util.ts:56-62 | `min(x, length).div(length)` runs before the multiplication. The share is 0 or 1, so the threshold jumps from `ceil` to `floor` at `length`. | LinearDecreasing(ceil 1_000_000_000, floor 500_000_000, length 100), x = 50: the code gives 1_000_000_000 | Multiply before dividing, as the Perbill share in the quoted Rust does: `ceil - min(x, length) * (ceil - floor) / length`, which gives 750_000_000 | high (not executed) | `Scenarios.LinearThresholdValues` | `IntendedLinear.IntendedThreshold` |
| packages/page-referenda/src/util.ts:113-118 | `(ceil - y).div(ceil - floor)` truncates to 0 for every `y` above `floor`. The delay of such a level is 0, but at 0 the threshold is still `ceil`. | The same curve with y = 600_000_000: the delay is 0, and the threshold at 0 is 1_000_000_000 | The share of `length`, rounded up (`Up` in the quoted Rust): `ceil((ceil - y) * length / (ceil - floor))`, which gives 80. With it, the delay is the earliest point at which the level suffices | high (not executed) | `InverseProperties.LinearDelayTooEarly` | `IntendedLinear.IntendedDelayIsEarliest` |

`Util.CurveThreshold` and `Util.CurveDelay` keep the behaviour as written,
because they model the code. The corrected linear curve is
`IntendedLinear.IntendedThreshold` with `IntendedLinear.IntendedDelay`.
