/** The estimate of the decimal exponent: its documented contract holds for every float. */
module PowerEstimates {
  import opened Arith
  import opened Machine
  import opened DecimalOrder
  import opened StartValues
  import opened Ieee

  // ---- Powers of two between powers of ten ----

  /** Comparing n2 / n10 with the exponents compares the powers. */
  lemma RootOrder(a: nat, b: nat, n: nat)
    requires n > 0 && Pow(a, n) <= Pow(b, n)
    ensures a <= b
  {
    if b < a {
      PowStrict(b, a, n);
    }
  }

  lemma {:induction false} PowStrict(a: nat, b: nat, n: nat)
    requires a < b && n > 0
    ensures Pow(a, n) < Pow(b, n)
  {
    if n > 1 {
      PowStrict(a, b, n - 1);
      MulMonotone(a, b, Pow(a, n - 1));
      MulStrict(Pow(a, n - 1), Pow(b, n - 1), b);
    }
  }

  /** From one pair of powers of x and y to all exponents with the same ratio. */
  lemma ScaleOrder(x: nat, p: nat, y: nat, q: nat, m: nat, n: nat)
    requires x > 0 && y > 0 && q > 0 && Pow(x, p) <= Pow(y, q)
    requires m * q <= n * p
    ensures Pow(x, m) <= Pow(y, n)
  {
    hide Pow;
    MulMonotone(0, m, q);
    MulMonotone(0, n, p);
    PowTimes(x, m, q);
    PowMonotone(x, m * q, n * p);
    PowTimes(x, p, n);
    assert n * p == p * n;
    PowBaseMonotone(Pow(x, p), Pow(y, q), n);
    PowTimes(y, q, n);
    PowTimes(y, n, q);
    assert n * q == q * n;
    RootOrder(Pow(x, m), Pow(y, n), q);
  }

  /** a * 10^j <= 2^n, and the same for twice the exponent after dropping s digits. */
  ghost predicate AtMost(n: nat, a: nat, j: nat)
  {
    a * Pow(10, j) <= Pow(2, n)
  }

  lemma LowSquare(n: nat, a: nat, j: nat, b: nat, s: nat)
    requires AtMost(n, a, j) && b * Pow(10, s) <= a * a
    ensures AtMost(2 * n, b, 2 * j + s)
  {
    PowAdd(2, n, n);
    PowAdd(10, j, j);
    PowAdd(10, s, 2 * j);
    MulMonotone(0, a, Pow(10, j));
    var x, t := a * Pow(10, j), Pow(10, j);
    MulMonotone(x, Pow(2, n), x);
    MulMonotone(x, Pow(2, n), Pow(2, n));
    assert x * x == (a * a) * (t * t) by {
      MulRegroup(a, t, a, t);
    }
    MulMonotone(b * Pow(10, s), a * a, t * t);
    MulAssoc(b, Pow(10, s), t * t);
  }

  lemma LowDouble(n: nat, a: nat, j: nat, b: nat, s: nat)
    requires AtMost(n, a, j) && b * Pow(10, s) <= 2 * a
    ensures AtMost(n + 1, b, j + s)
  {
    PowAdd(10, s, j);
    assert Pow(2, n + 1) == 2 * Pow(2, n);
    MulMonotone(b * Pow(10, s), 2 * a, Pow(10, j));
    MulAssoc(b, Pow(10, s), Pow(10, j));
    MulAssoc(2, a, Pow(10, j));
  }

  ghost predicate AtLeast(n: nat, a: nat, j: nat)
  {
    Pow(2, n) <= a * Pow(10, j)
  }

  lemma HighSquare(n: nat, a: nat, j: nat, b: nat, s: nat)
    requires AtLeast(n, a, j) && a * a <= b * Pow(10, s)
    ensures AtLeast(2 * n, b, 2 * j + s)
  {
    PowAdd(2, n, n);
    PowAdd(10, j, j);
    PowAdd(10, s, 2 * j);
    MulMonotone(0, a, Pow(10, j));
    var x, t := a * Pow(10, j), Pow(10, j);
    MulMonotone(Pow(2, n), x, x);
    MulMonotone(Pow(2, n), x, Pow(2, n));
    assert x * x == (a * a) * (t * t) by {
      MulRegroup(a, t, a, t);
    }
    MulMonotone(a * a, b * Pow(10, s), t * t);
    MulAssoc(b, Pow(10, s), t * t);
  }

  lemma HighDouble(n: nat, a: nat, j: nat, b: nat, s: nat)
    requires AtLeast(n, a, j) && 2 * a <= b * Pow(10, s)
    ensures AtLeast(n + 1, b, j + s)
  {
    PowAdd(10, s, j);
    assert Pow(2, n + 1) == 2 * Pow(2, n);
    MulMonotone(2 * a, b * Pow(10, s), Pow(10, j));
    MulAssoc(b, Pow(10, s), Pow(10, j));
    MulAssoc(2, a, Pow(10, j));
  }

  lemma SmallTens()
    ensures Pow(10, 0) == 1 && Pow(10, 1) == 10 && Pow(10, 2) == 100 && Pow(10, 3) == 1000 && Pow(10, 4) == 10000
    ensures Pow(10, 5) == 100000 && Pow(10, 6) == 1000000 && Pow(10, 7) == 10000000 && Pow(2, 1) == 2
  {
    PowAdd(10, 3, 3);
    PowAdd(10, 3, 4);
    PowAdd(10, 2, 3);
  }

  /** log10(2) > 643 / 2136 */
  lemma TwosAbove()
    ensures Pow(10, 643) <= Pow(2, 2136)
  {
    SmallTens();
    hide Pow;
    assert AtMost(1, 2, 0);
    hide AtMost;
    LowSquare(1, 2, 0, 4, 0);
    LowSquare(2, 4, 0, 16, 0);
    LowSquare(4, 16, 0, 256, 0);
    LowSquare(8, 256, 0, 65536, 0);
    LowSquare(16, 65536, 0, 4294967, 3);
    LowDouble(32, 4294967, 3, 8589934, 0);
    LowSquare(33, 8589934, 3, 7378696, 7);
    LowSquare(66, 7378696, 13, 5444515, 7);
    LowDouble(132, 5444515, 33, 1088903, 1);
    LowSquare(133, 1088903, 34, 1185709, 6);
    LowDouble(266, 1185709, 74, 2371418, 0);
    LowSquare(267, 2371418, 74, 5623623, 6);
    LowSquare(534, 5623623, 154, 3162513, 7);
    LowSquare(1068, 3162513, 315, 1000148, 7);
    TwosAboveEnd();
  }

  lemma TwosAboveEnd()
    requires AtMost(2136, 1000148, 637)
    ensures Pow(10, 643) <= Pow(2, 2136)
  {
    SmallTens();
    PowAdd(10, 6, 637);
    PowPositive(10, 637);
    hide Pow;
    MulMonotone(Pow(10, 6), 1000148, Pow(10, 637));
  }

  /** log10(2) < 146 / 485 */
  lemma TwosBelow()
    ensures Pow(2, 485) <= Pow(10, 146)
  {
    SmallTens();
    hide Pow;
    assert AtLeast(1, 2, 0);
    hide AtLeast;
    HighSquare(1, 2, 0, 4, 0);
    HighDouble(2, 4, 0, 8, 0);
    HighSquare(3, 8, 0, 64, 0);
    HighDouble(6, 64, 0, 128, 0);
    HighSquare(7, 128, 0, 16384, 0);
    HighDouble(14, 16384, 0, 32768, 0);
    HighSquare(15, 32768, 0, 1073742, 3);
    HighSquare(30, 1073742, 3, 1152922, 6);
    HighSquare(60, 1152922, 12, 1329230, 6);
    HighDouble(120, 1329230, 30, 2658460, 0);
    HighSquare(121, 2658460, 30, 7067410, 6);
    HighSquare(242, 7067410, 66, 4994829, 7);
    HighDouble(484, 4994829, 139, 9989658, 0);
    TwosBelowEnd();
  }

  lemma TwosBelowEnd()
    requires AtLeast(485, 9989658, 139)
    ensures Pow(2, 485) <= Pow(10, 146)
  {
    SmallTens();
    PowAdd(10, 7, 139);
    PowPositive(10, 139);
    hide Pow;
    MulMonotone(9989658, Pow(10, 7), Pow(10, 139));
  }

  // ---- The contract ----

  /** 10^m <= 2^n, for exponents of either sign. */
  ghost predicate TenBelowTwo(m: int, n: int)
  {
    Pow(10, Max(m, 0)) * Pow(2, Max(-n, 0)) <= Pow(2, Max(n, 0)) * Pow(10, Max(-m, 0))
  }

  /** 2^n <= 10^m, for exponents of either sign. */
  ghost predicate TwoBelowTen(n: int, m: int)
  {
    Pow(2, Max(n, 0)) * Pow(10, Max(-m, 0)) <= Pow(10, Max(m, 0)) * Pow(2, Max(-n, 0))
  }

  lemma ProductOrder(a: nat, b: nat, c: nat, d: nat)
    requires a <= c && b <= d
    ensures a * b <= c * d
  {
    MulMonotone(a, c, b);
    MulMonotone(b, d, c);
  }

  lemma NoPower()
    ensures Pow(10, 0) == 1 && Pow(2, 0) == 1
  {
  }

  lemma TenBelow(m: int, n: int)
    requires if n >= 0 then 2136 * m <= 643 * n else 485 * m <= 146 * n
    ensures TenBelowTwo(m, n)
  {
    TwosAbove();
    TwosBelow();
    NoPower();
    hide Pow;
    PowPositive(10, Max(-m, 0));
    PowPositive(2, Max(n, 0));
    if n >= 0 {
      ScaleOrder(10, 643, 2, 2136, Max(m, 0), n);
      ProductOrder(Pow(10, Max(m, 0)), 1, Pow(2, n), Pow(10, Max(-m, 0)));
    } else {
      ScaleOrder(2, 485, 10, 146, -n, -m);
    }
  }

  lemma TwoBelow(n: int, m: int)
    requires if n >= 0 then 146 * n <= 485 * m else 643 * n <= 2136 * m
    ensures TwoBelowTen(n, m)
  {
    TwosAbove();
    TwosBelow();
    NoPower();
    hide Pow;
    PowPositive(10, Max(m, 0));
    PowPositive(2, Max(-n, 0));
    if n >= 0 {
      ScaleOrder(2, 485, 10, 146, n, m);
    } else {
      ScaleOrder(10, 643, 2, 2136, Max(-m, 0), -n);
      ProductOrder(1, Pow(10, Max(-m, 0)), Pow(10, Max(m, 0)), Pow(2, -n));
    }
  }

  /** The comparison on the scale of DecimalOrder. */
  lemma TenBelowGap(m: int, n: int, x: nat)
    requires -1074 <= n && TenBelowTwo(m, n) && x >= Pow(2, n + SCALE)
    ensures Gap(1, m, x) <= 0
  {
    var a, b, s := Pow(2, Max(-n, 0)), Pow(2, Max(n, 0)), Pow(2, SCALE);
    PowAdd(2, n + SCALE, Max(-n, 0));
    PowAdd(2, SCALE, Max(n, 0));
    assert n + SCALE + Max(-n, 0) == SCALE + Max(n, 0);
    PowPositive(2, Max(-n, 0));
    var u, v, y := TenUp(m), TenDown(m), Pow(2, n + SCALE);
    hide Pow;
    ScaledBelow(u, a, b, v, s, y, x);
  }

  lemma ScaledBelow(u: nat, a: nat, b: nat, v: nat, s: nat, y: nat, x: nat)
    requires u * a <= b * v && y * a == s * b && a > 0 && y <= x
    ensures s * u <= x * v
  {
    assert (s * u) * a <= (y * v) * a by {
      MulAssoc(s, u, a);
      MulMonotone(u * a, b * v, s);
      MulAssoc(s, b, v);
      MulAssoc(y, a, v);
      MulAssoc(y, v, a);
      assert a * v == v * a;
    }
    MulCancel(s * u, y * v, a);
    MulMonotone(y, x, v);
  }

  lemma TwoBelowGap(n: int, m: int, x: nat)
    requires -1074 <= n && TwoBelowTen(n, m) && x < Pow(2, n + SCALE)
    ensures Gap(1, m, x) > 0
  {
    var a, b, s := Pow(2, Max(-n, 0)), Pow(2, Max(n, 0)), Pow(2, SCALE);
    PowAdd(2, n + SCALE, Max(-n, 0));
    PowAdd(2, SCALE, Max(n, 0));
    assert n + SCALE + Max(-n, 0) == SCALE + Max(n, 0);
    PowPositive(2, Max(-n, 0));
    PowPositive(10, Max(-m, 0));
    var u, v, y := TenUp(m), TenDown(m), Pow(2, n + SCALE);
    hide Pow;
    ScaledAbove(u, a, b, v, s, y, x);
  }

  lemma ScaledAbove(u: nat, a: nat, b: nat, v: nat, s: nat, y: nat, x: nat)
    requires b * v <= u * a && y * a == s * b && a > 0 && x < y && v > 0
    ensures s * u > x * v
  {
    assert (y * v) * a <= (s * u) * a by {
      MulAssoc(s, u, a);
      MulMonotone(b * v, u * a, s);
      MulAssoc(s, b, v);
      MulAssoc(y, a, v);
      MulAssoc(y, v, a);
      assert a * v == v * a;
    }
    MulCancel(y * v, s * u, a);
    MulStrict(x, y, v);
  }

  /** Shifting the significand up to 53 bits tells how large the number is. */
  lemma Magnitude(f: nat, e: int, closer: bool, ne: int)
    requires FloatParts(f, e, closer) && ne <= e && Pow(2, 52) <= f * Pow(2, e - ne) < Pow(2, 53)
    ensures e <= ne + 52 <= 1023
    ensures Pow(2, ne + 52 + SCALE) <= Scaled2(f, e) && Scaled2(f, e) + UpperGap(e) < Pow(2, ne + 54 + SCALE)
  {
    var k := e - ne;
    PowPositive(2, k);
    MulMonotone(1, f, Pow(2, k));
    PowOrder(2, k, 53);
    var a, b := Pow(2, e + SCALE), Pow(2, k);
    PowAdd(2, 52, e + SCALE);
    PowAdd(2, 53, e + SCALE);
    PowAdd(2, ne + 52 + SCALE, k);
    PowAdd(2, ne + 53 + SCALE, k);
    assert Pow(2, ne + 54 + SCALE) == 2 * Pow(2, ne + 53 + SCALE);
    assert Pow(2, e + SCALE) == 2 * Pow(2, e + SCALE - 1);
    PowPositive(2, e + SCALE);
    hide Pow;
    ShiftedSize(f, a, b, Pow(2, 52), Pow(2, 53), Pow(2, ne + 52 + SCALE), Pow(2, ne + 53 + SCALE));
    MulMonotone(1, f, a);
  }

  lemma ShiftedSize(f: nat, a: nat, b: nat, low: nat, high: nat, y: nat, z: nat)
    requires b > 0 && a > 0 && low <= f * b < high && low * a == y * b && high * a == z * b
    ensures y <= f * a < z
  {
    assert (f * b) * a == (f * a) * b by {
      MulAssoc(f, b, a);
      MulAssoc(f, a, b);
      assert b * a == a * b;
    }
    MulMonotone(low, f * b, a);
    MulStrict(f * b, high, a);
    MulCancel(y, f * a, b);
    MulCancelStrict(f * a, z, b);
  }

  // ---- The computation ----

  /** Shifts the significand up to its hidden bit. */
  method NormalizedExponent(f: uint64, e: int) returns (exponent: int)
    requires 0 < f < Pow(2, 53)
    ensures exponent <= e && Pow(2, 52) <= f * Pow(2, e - exponent) < Pow(2, 53)
  {
    HiddenBit();
    NoPower();
    hide Pow;
    var significand: uint64 := f;
    exponent := e;
    while (significand / HIDDEN_BIT) % 2 == 0
      invariant exponent <= e && 0 < significand < 2 * HIDDEN_BIT
      invariant significand == f * Pow(2, e - exponent)
      decreases 2 * HIDDEN_BIT - significand
    {
      OneShift(f, e - exponent);
      significand := significand * 2;
      exponent := exponent - 1;
    }
  }

  lemma OneShift(f: nat, k: nat)
    ensures f * Pow(2, k + 1) == (f * Pow(2, k)) * 2
  {
    assert Pow(2, k + 1) == 2 * Pow(2, k);
    hide Pow;
    MulAssoc(f, Pow(2, k), 2);
  }

  function Ceil(x: real): (k: int)
    ensures (k - 1) as real < x <= k as real
  {
    -((-x).Floor)
  }

  const ONE_LOG_10: real := 0.30102999566398114

  /** The rounding errors of the multiplication and the subtraction, taken together. */
  predicate SmallError(x: real)
  {
    -0.00000000001 <= x <= 0.00000000001
  }

  /** An estimation of the decimal exponent from the binary one. */
  method EstimatePower(exponent: int, rounding: real) returns (k: int)
    requires -1126 <= exponent <= 971 && SmallError(rounding)
    ensures TenBelowTwo(k - 1, exponent + 52) && TwoBelowTen(exponent + 54, k + 1)
  {
    var estimate := (exponent + 53 - 1) as real * ONE_LOG_10 - 0.0000000001 + rounding;
    k := Ceil(estimate);
    Bounds(exponent + 52, k, rounding);
    TenBelow(k - 1, exponent + 52);
    TwoBelow(exponent + 54, k + 1);
  }

  lemma Bounds(n: int, k: int, rounding: real)
    requires -1074 <= n <= 1023 && SmallError(rounding)
    requires (k - 1) as real < n as real * ONE_LOG_10 - 0.0000000001 + rounding <= k as real
    ensures if n >= 0 then 2136 * (k - 1) <= 643 * n else 485 * (k - 1) <= 146 * n
    ensures if n + 2 >= 0 then 146 * (n + 2) <= 485 * (k + 1) else 643 * (n + 2) <= 2136 * (k + 1)
  {
    var x, y := n as real, k as real;
    assert y - 1.0 < x * ONE_LOG_10;
    assert x * ONE_LOG_10 - 0.001 < y;
    if n >= 0 {
      assert 2136.0 * (y - 1.0) < 643.0 * x + 1.0;
      assert (2136 * (k - 1)) as real < (643 * n + 1) as real;
    } else {
      assert 485.0 * (y - 1.0) < 146.0 * x + 1.0;
      assert (485 * (k - 1)) as real < (146 * n + 1) as real;
    }
    if n + 2 >= 0 {
      assert 146.0 * (x + 2.0) - 1.0 < 485.0 * (y + 1.0);
      assert (146 * (n + 2) - 1) as real < (485 * (k + 1)) as real;
    } else {
      assert 643.0 * (x + 2.0) - 1.0 < 2136.0 * (y + 1.0);
      assert (643 * (n + 2) - 1) as real < (2136 * (k + 1)) as real;
    }
  }

  /** The documented contract of the estimate, for every float and every estimate that can be computed. */
  lemma EstimateIsRight(f: nat, e: int, closer: bool, ne: int, k: int)
    requires FloatParts(f, e, closer) && ne <= e && Pow(2, 52) <= f * Pow(2, e - ne) < Pow(2, 53)
    requires TenBelowTwo(k - 1, ne + 52) && TwoBelowTen(ne + 54, k + 1)
    ensures PowerEstimate(f, e, k)
  {
    Magnitude(f, e, closer, ne);
    hide Pow, TenBelowTwo, TwoBelowTen, Scaled2, UpperGap;
    TenBelowGap(k - 1, ne + 52, Scaled2(f, e));
    TwoBelowGap(ne + 54, k + 1, Scaled2(f, e) + UpperGap(e));
  }
}
