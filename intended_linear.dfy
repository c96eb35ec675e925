/** The linear curve as the Rust reference quoted in the source's comments
    computes it: the elapsed share `min(x, length) / length` is a fraction, so
    the code must multiply before it divides, and the delay rounds up (`Up`).
    As written, the TypeScript divides first and gets a quotient of 0 or 1
    (see `InverseProperties.LinearDelayTooEarly`). */
module IntendedLinear {
  import opened Bn
  import opened Util

  /** `ceil - min(x, length) * (ceil - floor) / length`: a straight line from
      `ceil` at zero to `floor` at `length`, rounded toward `ceil`. */
  function IntendedThreshold(ceil: Perbill, floor: Perbill, length: Perbill, x: int): (r: int)
    requires length != 0
    requires floor <= ceil && x >= 0
    ensures floor <= r <= ceil
    ensures x == 0 ==> r == ceil
    ensures x >= length ==> r == floor
  {
    var m := Min(x, length);
    ShareOfSpan(m, ceil - floor, length);
    ceil - TruncDiv(m * (ceil - floor), length)
  }

  /** The share `m / len` of a span `d`, rounded down, lies within the span. */
  lemma ShareOfSpan(m: int, d: int, len: int)
    requires len > 0 && d >= 0 && 0 <= m <= len
    ensures m * d >= 0
    ensures TruncDiv(m * d, len) == (m * d) / len
    ensures 0 <= (m * d) / len <= d
    ensures m == 0 ==> (m * d) / len == 0
    ensures m == len ==> (m * d) / len == d
  {
    var p := m * d;
    MulMonotone(d, 0, m);
    MulMonotone(d, m, len);
    assert p <= len * d;
    TruncDivNonNegative(p, len);
    MulLeIffLeDiv(0, p, len);
    MulLeIffLeDiv(d + 1, p, len);
    assert (d + 1) * len == d * len + len;
    if m == len {
      FloorDivUnique(p, len, d);
    }
  }

  /** The inverse: the sentinel below `floor`, zero above `ceil`, and in
      between the share `(ceil - y) / (ceil - floor)` of `length`, rounded up. */
  function IntendedDelay(ceil: Perbill, floor: Perbill, length: Perbill, y: int): (r: int)
    requires floor < ceil
    ensures y < floor ==> r == Billion
    ensures y > ceil ==> r == 0
    ensures floor <= y <= ceil ==> 0 <= r <= length
    ensures y == floor ==> r == length
    ensures y == ceil ==> r == 0
  {
    if y < floor then Billion
    else if y > ceil then 0
    else
      RoundedUpShare(ceil - y, ceil - floor, length);
      CeilDiv((ceil - y) * length, ceil - floor)
  }

  /** The share `e / d` of `len`, rounded up, is between zero and `len`. */
  lemma RoundedUpShare(e: int, d: int, len: int)
    requires d > 0 && len >= 0 && 0 <= e <= d
    ensures e * len >= 0
    ensures 0 <= CeilDiv(e * len, d) <= len
    ensures e == 0 ==> CeilDiv(e * len, d) == 0
    ensures e == d ==> CeilDiv(e * len, d) == len
  {
    var a := e * len;
    MulMonotone(len, 0, e);
    MulMonotone(len, e, d);
    assert a <= len * d;
    CeilDivLeIff(a, d, len);
    CeilDivLeIff(a, d, 0);
    if e == d {
      CeilDivLeIff(a, d, len - 1);
      assert (len - 1) * d == len * d - d;
    }
  }

  /** With the intended definitions the delay of a level `y` between `floor`
      and `ceil` is exactly the earliest point at which the threshold has come
      down to `y`. */
  lemma {:induction false} IntendedDelayIsEarliest(ceil: Perbill, floor: Perbill, length: Perbill, x: int, y: int)
    requires length != 0 && floor < ceil
    requires x >= 0 && floor <= y <= ceil
    ensures IntendedThreshold(ceil, floor, length, x) <= y <==> IntendedDelay(ceil, floor, length, y) <= x
  {
    var d, e, m := ceil - floor, ceil - y, Min(x, length);
    ShareOfSpan(m, d, length);
    RoundedUpShare(e, d, length);
    ShareCoversIff(e, d, length, m, x);
  }

  /** The arithmetic core of `IntendedDelayIsEarliest`: with `m = min(x, len)`,
      `e <= (m * d) / len` exactly when `ceil(e * len / d) <= x`. */
  lemma {:induction false} ShareCoversIff(e: int, d: int, len: int, m: int, x: int)
    requires d > 0 && len > 0 && 0 <= e <= d && x >= 0
    requires m == Min(x, len) && m * d >= 0 && e * len >= 0
    ensures e <= (m * d) / len <==> CeilDiv(e * len, d) <= x
  {
    // e <= (m * d) / len  <==>  e * len <= m * d
    MulLeIffLeDiv(e, m * d, len);
    assert e * len == len * e;
    // CeilDiv(e * len, d) <= x  <==>  e * len <= x * d
    CeilDivLeIff(e * len, d, x);
    // e * len <= len * d, so comparing with x * d or with m * d is the same
    MulMonotone(len, e, d);
    if x >= len {
      MulMonotone(d, len, x);
      assert m * d == len * d;
    }
  }

  /** The intended line meets the code as written at both ends: they agree at
      zero and from `length` on, and differ only strictly inside the period. */
  lemma IntendedAgreesAtEnds(ceil: Perbill, floor: Perbill, length: Perbill, x: int)
    requires length != 0 && floor <= ceil
    requires x == 0 || x >= length
    ensures IntendedThreshold(ceil, floor, length, x) == LinearThreshold(ceil, floor, length, x)
  {
  }
}
