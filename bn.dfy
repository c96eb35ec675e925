/** The slice of `BN` (arbitrary-precision signed integers from @polkadot/util)
    that the curve transforms use: `BN_BILLION`, `bnMin`, `bnMax` and the
    truncating `div`. `sub`, `add` and `mul` are exact on unbounded integers
    and are written as Dafny's `-`, `+` and `*`. */
module Bn {

  /** `BN_BILLION`: the denominator of a Perbill, and the "full proportion". */
  const Billion: int := 1_000_000_000

  function Abs(a: int): (r: int)
    ensures r >= 0 && (r == a || r == -a)
  {
    if a < 0 then -a else a
  }

  /** `bnMin` */
  function Min(a: int, b: int): (r: int)
    ensures r <= a && r <= b && (r == a || r == b)
  {
    if a < b then a else b
  }

  /** `bnMax` */
  function Max(a: int, b: int): (r: int)
    ensures r >= a && r >= b && (r == a || r == b)
  {
    if a < b then b else a
  }

  /** `BN.div`: the quotient rounded toward zero. It fails on a zero divisor,
      which is therefore a precondition. The quotient is never larger than the
      dividend in magnitude and is zero for a dividend smaller than the
      divisor; `TruncDivRemainder` and `TruncDivUnique` state that it is
      exactly the quotient of truncating division. */
  function TruncDiv(a: int, b: int): (q: int)
    requires b != 0
    ensures Abs(q) <= Abs(a)
    ensures Abs(a) < Abs(b) ==> q == 0
    ensures (a >= 0) == (b > 0) ==> q >= 0
  {
    var m := Abs(a) / Abs(b);
    MulLeIffLeDiv(m, Abs(a), Abs(b));
    MulLeIffLeDiv(1, Abs(a), Abs(b));
    MulMonotone(m, 1, Abs(b));
    if (a < 0) == (b < 0) then m else -m
  }

  /** The remainder `a - q * b` of `TruncDiv` is smaller than the divisor in
      magnitude and never has the opposite sign of the dividend. */
  lemma TruncDivRemainder(a: int, b: int)
    requires b != 0
    ensures a >= 0 ==> 0 <= a - TruncDiv(a, b) * b < Abs(b)
    ensures a < 0 ==> -Abs(b) < a - TruncDiv(a, b) * b <= 0
  {
    var m := Abs(a) / Abs(b);
    RemainderFromMagnitudes(a, b, m, TruncDiv(a, b));
  }

  /** The remainder of a signed division is the remainder of the magnitudes,
      carrying the sign of the dividend. */
  lemma RemainderFromMagnitudes(a: int, b: int, m: int, q: int)
    requires b != 0
    requires m == Abs(a) / Abs(b)
    requires q == if (a < 0) == (b < 0) then m else -m
    ensures a - q * b == if a < 0 then -(Abs(a) - m * Abs(b)) else Abs(a) - m * Abs(b)
    ensures 0 <= Abs(a) - m * Abs(b) < Abs(b)
  {
    if a < 0 && b < 0 {
      assert q * b == -(m * Abs(b));
    } else if a < 0 {
      assert q * b == -(m * Abs(b));
    } else if b < 0 {
      assert q * b == m * Abs(b);
    }
  }

  /** Floored division of a non-negative dividend by a positive divisor is the
      only quotient leaving a remainder in `[0, d)`. */
  lemma FloorDivUnique(n: int, d: int, q: int)
    requires d > 0 && 0 <= n - q * d < d
    ensures q == n / d
  {
    MulLeIffLeDiv(q, n, d);
    MulLeIffLeDiv(q + 1, n, d);
  }

  /** Truncation is the only rounding with that property: any quotient whose
      remainder is smaller than the divisor and has the sign of the dividend
      is `TruncDiv`. */
  lemma {:induction false} TruncDivUnique(a: int, b: int, q: int)
    requires b != 0
    requires a >= 0 ==> 0 <= a - q * b < Abs(b)
    requires a < 0 ==> -Abs(b) < a - q * b <= 0
    ensures q == TruncDiv(a, b)
  {
    // Reduce to magnitudes: q' is the quotient of |a| by |b|.
    var q' := if (a < 0) == (b < 0) then q else -q;
    if a < 0 && b < 0 {
      assert q' * Abs(b) == -(q * b);
    } else if a < 0 {
      assert q' * Abs(b) == -(q * b);
    } else if b < 0 {
      assert q' * Abs(b) == q * b;
    }
    FloorDivUnique(Abs(a), Abs(b), q');
  }

  /** On a non-negative dividend and a positive divisor `BN.div` is Dafny's `/`. */
  lemma TruncDivNonNegative(a: int, b: int)
    requires a >= 0 && b > 0
    ensures TruncDiv(a, b) == a / b
  {
    TruncDivUnique(a, b, a / b);
  }

  /** A larger positive divisor never gives a larger truncated quotient of a
      non-negative dividend. */
  lemma {:induction false} TruncDivAntitone(a: int, b1: int, b2: int)
    requires a >= 0 && 0 < b1 <= b2
    ensures TruncDiv(a, b2) <= TruncDiv(a, b1)
  {
    TruncDivNonNegative(a, b1);
    TruncDivNonNegative(a, b2);
    DivAntitone(a, b1, b2);
  }

  lemma DivAntitone(a: int, b1: int, b2: int)
    requires a >= 0 && 0 < b1 <= b2
    ensures a / b2 <= a / b1
  {
    var q2 := a / b2;
    assert q2 >= 0;
    MulMonotone(q2, b1, b2);
    MulLeIffLeDiv(q2, a, b1);
  }

  lemma MulSucc(a: int, k: int)
    ensures a * (k + 1) == a * k + a
  {
  }

  lemma MulMonotone(k: int, b1: int, b2: int)
    requires k >= 0 && b1 <= b2
    ensures k * b1 <= k * b2
  {
  }

  /** `c * p <= x` exactly when `c` is at most the floored quotient `x / p`. */
  lemma {:induction false} MulLeIffLeDiv(c: int, x: int, p: int)
    requires p > 0
    ensures c * p <= x <==> c <= x / p
  {
    var q := x / p;
    assert q * p <= x < (q + 1) * p;
    if c <= q {
      assert c * p <= q * p;
    } else {
      assert c >= q + 1;
      assert c * p >= (q + 1) * p;
    }
  }

  /** Division rounded up, written the way the stepped branch of `curveDelay`
      folds it into the numerator (`(a + d - 1) / d`). `CeilDivBounds` says the
      result is the least `r` with `a <= r * d`. */
  function CeilDiv(a: int, d: int): (r: int)
    requires a >= 0 && d > 0
    ensures r >= 0
    ensures a == 0 ==> r == 0
    ensures 0 < a <= d ==> r == 1
  {
    CeilDivSmall(a, d);
    (a + d - 1) / d
  }

  lemma CeilDivSmall(a: int, d: int)
    requires a >= 0 && d > 0
    ensures (a + d - 1) / d >= 0
    ensures a == 0 ==> (a + d - 1) / d == 0
    ensures 0 < a <= d ==> (a + d - 1) / d == 1
  {
    MulLeIffLeDiv(0, a + d - 1, d);
    if a == 0 {
      FloorDivUnique(d - 1, d, 0);
    } else if a <= d {
      FloorDivUnique(a + d - 1, d, 1);
    }
  }

  lemma CeilDivBounds(a: int, d: int)
    requires a >= 0 && d > 0
    ensures (CeilDiv(a, d) - 1) * d < a <= CeilDiv(a, d) * d
  {
    var r := (a + d - 1) / d;
    assert r * d <= a + d - 1 < (r + 1) * d;
  }

  /** `CeilDiv(a, d)` is at most `k` exactly when `a <= k * d`. */
  lemma {:induction false} CeilDivLeIff(a: int, d: int, k: int)
    requires a >= 0 && d > 0
    ensures CeilDiv(a, d) <= k <==> a <= k * d
  {
    var r := CeilDiv(a, d);
    CeilDivBounds(a, d);
    if r <= k {
      assert r * d <= k * d;
    } else {
      assert r - 1 >= k;
      assert (r - 1) * d >= k * d;
    }
  }

  /** A larger numerator never gives a smaller rounded-up quotient. */
  lemma {:induction false} CeilDivMonotone(a1: int, a2: int, d: int)
    requires 0 <= a1 <= a2 && d > 0
    ensures CeilDiv(a1, d) <= CeilDiv(a2, d)
  {
    CeilDivLeIff(a1, d, CeilDiv(a2, d));
  }
}
