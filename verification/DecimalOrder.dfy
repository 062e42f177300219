/**
 Exact comparison of decimal numbers c * 10^k with binary ones x / 2^SCALE, where k may be negative.
 Every finite double and every boundary between two neighbouring doubles is such an x / 2^SCALE.
*/
module DecimalOrder {
  import opened Arith
  import opened DtoaSpec

  const SCALE: nat := 1076

  /** 10^k as a fraction. */
  ghost function TenUp(k: int): nat { Pow(10, Max(k, 0)) }

  ghost function TenDown(k: int): nat { Pow(10, Max(-k, 0)) }

  /** Has the sign of c * 10^k - x / 2^SCALE, and for fixed k is proportional to it. */
  ghost function Gap(c: int, k: int, x: int): int
  {
    c * (Pow(2, SCALE) * TenUp(k)) - x * TenDown(k)
  }

  /** n / d == (x / 2^SCALE) / 10^p */
  ghost predicate Ratio(n: int, d: int, x: int, p: int)
  {
    n * (Pow(2, SCALE) * TenUp(p)) == d * (x * TenDown(p))
  }

  lemma TensPositive(k: int)
    ensures TenUp(k) > 0 && TenDown(k) > 0 && Pow(2, SCALE) > 0 && Pow(2, SCALE) * TenUp(k) > 0
  {
    PowPositive(10, Max(k, 0));
    PowPositive(10, Max(-k, 0));
    PowPositive(2, SCALE);
    MulPositive(Pow(2, SCALE), TenUp(k));
  }

  /** Moving the exponent down by j moves powers of ten between the two sides. */
  lemma TenShift(p: int, j: nat) returns (m: nat)
    ensures m > 0
    ensures TenUp(p) == TenUp(p - j) * m && TenDown(p) * Pow(10, j) == TenDown(p - j) * m
  {
    var i := Max(p, 0) - Max(p - j, 0);
    m := Pow(10, i);
    PowPositive(10, i);
    PowAdd(10, Max(p - j, 0), i);
    PowAdd(10, Max(-p, 0), j);
    PowAdd(10, Max(j - p, 0), i);
    assert Max(-p, 0) + j == Max(j - p, 0) + i;
  }

  /** Differences measured in units of the fraction and on the absolute scale are proportional. */
  lemma Transfer(n: int, d: nat, x: int, p: int, j: nat) returns (a: nat, b: nat)
    requires Ratio(n, d, x, p) && d > 0
    ensures a > 0 && b > 0
    ensures forall c: int :: (c * d - n * Pow(10, j)) * a == Gap(c, p - j, x) * b
  {
    var m := TenShift(p, j);
    TensPositive(p);
    a := Pow(2, SCALE) * TenUp(p);
    MulPositive(d, m);
    b := d * m;
    forall c: int
      ensures (c * d - n * Pow(10, j)) * a == Gap(c, p - j, x) * b
    {
      TransferArithmetic(c, n, d, x, Pow(10, j), Pow(2, SCALE), TenUp(p), TenDown(p), TenUp(p - j), TenDown(p - j), m);
    }
  }

  lemma TransferArithmetic(c: int, n: int, d: int, x: int, s: int, two: int, u: int, v: int, u': int, v': int, m: int)
    requires n * (two * u) == d * (x * v)
    requires u == u' * m && v * s == v' * m
    ensures (c * d - n * s) * (two * u) == (c * (two * u') - x * v') * (d * m)
  {
    var a := two * u;
    calc {
      (c * d) * a;
      { MulAssoc(c, d, a); MulAssoc(c, a, d); assert d * a == a * d; }
      (c * a) * d;
      { assert a == (two * u') * m by { MulAssoc(two, u', m); } MulAssoc(c, two * u', m); }
      ((c * (two * u')) * m) * d;
      { MulAssoc(c * (two * u'), m, d); assert m * d == d * m; }
      (c * (two * u')) * (d * m);
    }
    calc {
      (n * s) * a;
      { MulAssoc(n, s, a); MulAssoc(n, a, s); assert s * a == a * s; }
      (n * a) * s;
      (d * (x * v)) * s;
      { MulAssoc(d, x * v, s); MulAssoc(x, v, s); }
      d * (x * (v' * m));
      { MulAssoc(x, v', m); }
      d * ((x * v') * m);
      { MulAssoc(x * v', m, d); assert d * ((x * v') * m) == ((x * v') * m) * d; assert m * d == d * m; }
      (x * v') * (d * m);
    }
    hide *;
    Subtract(c * d, n * s, a, c * (two * u'), x * v', d * m);
  }

  lemma Subtract(p: int, q: int, a: int, r: int, t: int, b: int)
    requires p * a == r * b && q * a == t * b
    ensures (p - q) * a == (r - t) * b
  {
  }

  lemma SignTransfer(x: int, a: int, y: int, b: int)
    requires a > 0 && b > 0 && x * a == y * b
    ensures (x < 0 <==> y < 0) && (x == 0 <==> y == 0) && (x > 0 <==> y > 0)
  {
    if x > 0 { MulPositive(x, a); }
    if y > 0 { MulPositive(y, b); }
    if x < 0 { MulPositive(-x, a); }
    if y < 0 { MulPositive(-y, b); }
  }

  lemma AbsTransfer(x: int, a: int, y: int, b: int)
    requires a > 0 && b > 0 && x * a == y * b
    ensures Abs(x) * a == Abs(y) * b
  {
    SignTransfer(x, a, y, b);
  }

  lemma RatioSum(n: int, n': int, d: int, x: int, x': int, p: int)
    requires Ratio(n, d, x, p) && Ratio(n', d, x', p)
    ensures Ratio(n + n', d, x + x', p)
    ensures Ratio(n - n', d, x - x', p)
  {
    RatioSumArithmetic(n, n', d, x, x', Pow(2, SCALE) * TenUp(p), TenDown(p));
  }

  lemma RatioSumArithmetic(n: int, n': int, d: int, x: int, x': int, a: int, v: int)
    requires n * a == d * (x * v) && n' * a == d * (x' * v)
    ensures (n + n') * a == d * ((x + x') * v)
    ensures (n - n') * a == d * ((x - x') * v)
  {
    assert (x + x') * v == x * v + x' * v;
    assert (x - x') * v == x * v - x' * v;
  }

  /** Fractions with the same denominator are ordered like what they stand for. */
  lemma RatioOrder(n: int, n': int, d: int, x: int, x': int, p: int)
    requires Ratio(n, d, x, p) && Ratio(n', d, x', p) && d > 0
    ensures n < n' <==> x < x'
    ensures n <= n' <==> x <= x'
  {
    RatioSum(n', n, d, x', x, p);
    TensPositive(p);
    MulPositive(d, TenDown(p));
    var a, v := Pow(2, SCALE) * TenUp(p), TenDown(p);
    assert (n' - n) * a == (x' - x) * (d * v) by {
      hide *;
      MulAssoc(d, x' - x, v);
      MulAssoc(x' - x, d, v);
    }
    SignTransfer(n' - n, a, x' - x, d * v);
  }

  /** Ten times the numerator belongs to the next lower power. */
  lemma RatioTimesTen(n: int, d: int, x: int, p: int)
    requires Ratio(n, d, x, p)
    ensures Ratio(10 * n, d, x, p - 1)
  {
    var m := TenShift(p, 1);
    assert Pow(10, 1) == 10 * Pow(10, 0);
    TimesTenArithmetic(n, d, x, Pow(2, SCALE), TenUp(p), TenDown(p), TenUp(p - 1), TenDown(p - 1), m);
  }

  lemma TimesTenArithmetic(n: int, d: int, x: int, two: int, u: int, v: int, u': int, v': int, m: int)
    requires m > 0
    requires n * (two * u) == d * (x * v) && u == u' * m && v * 10 == v' * m
    ensures (10 * n) * (two * u') == d * (x * v')
  {
    TransferArithmetic(0, n, d, x, 10, two, u, v, u', v', m);
    var a', y := two * u', x * v';
    assert two * u == a' * m by {
      MulAssoc(two, u', m);
    }
    assert (n * 10) * (a' * m) == y * (d * m);
    assert ((10 * n) * a') * m == (d * y) * m by {
      MulAssoc(10 * n, a', m);
      MulAssoc(d, y, m);
      MulAssoc(y, d, m);
    }
    CancelFactor((10 * n) * a', d * y, m);
  }

  lemma CancelFactor(x: int, y: int, m: int)
    requires m > 0 && x * m == y * m
    ensures x == y
  {
  }

  /** A tenfold denominator belongs to the next higher power. */
  lemma RatioTenthOf(n: int, d: int, x: int, p: int)
    requires Ratio(n, d, x, p)
    ensures Ratio(n, 10 * d, x, p + 1)
  {
    var m := TenShift(p + 1, 1);
    assert Pow(10, 1) == 10 * Pow(10, 0);
    assert p + 1 - 1 == p;
    TenthArithmetic(n, d, x, Pow(2, SCALE), TenUp(p), TenDown(p), TenUp(p + 1), TenDown(p + 1), m);
  }

  lemma TenthArithmetic(n: int, d: int, x: int, two: int, u: int, v: int, u': int, v': int, m: int)
    requires n * (two * u) == d * (x * v) && u' == u * m && v' * 10 == v * m
    ensures n * (two * u') == (10 * d) * (x * v')
  {
    calc {
      n * (two * u');
      { MulAssoc(two, u, m); MulAssoc(n, two * u, m); }
      (n * (two * u)) * m;
      (d * (x * v)) * m;
      { MulAssoc(d, x * v, m); MulAssoc(x, v, m); }
      d * (x * (v' * 10));
      { MulAssoc(x, v', 10); }
      d * ((x * v') * 10);
      { MulAssoc(d, x * v', 10); MulAssoc(10, d, x * v'); }
      (10 * d) * (x * v');
    }
  }

  /** A coarser decimal is the same as ten to some power times a finer one. */
  lemma GapShift(c: int, k: int, x: int, j: nat)
    ensures Gap(c, k, x) < 0 <==> Gap(c * Pow(10, j), k - j, x) < 0
    ensures Gap(c, k, x) == 0 <==> Gap(c * Pow(10, j), k - j, x) == 0
    ensures Gap(c, k, x) > 0 <==> Gap(c * Pow(10, j), k - j, x) > 0
  {
    var m := TenShift(k, j);
    PowPositive(10, j);
    GapShiftArithmetic(c, x, Pow(10, j), Pow(2, SCALE), TenUp(k), TenDown(k), TenUp(k - j), TenDown(k - j), m);
    SignTransfer(Gap(c, k, x), Pow(10, j), Gap(c * Pow(10, j), k - j, x), m);
  }

  lemma GapShiftArithmetic(c: int, x: int, s: int, two: int, u: int, v: int, u': int, v': int, m: int)
    requires u == u' * m && v * s == v' * m
    ensures (c * (two * u) - x * v) * s == ((c * s) * (two * u') - x * v') * m
  {
    assert (c * (two * u)) * s == ((c * s) * (two * u')) * m by {
      MulAssoc(two, u', m);
      MulAssoc(c, two * u', m);
      MulAssoc(c * (two * u'), m, s);
      MulAssoc(c * (two * u'), s, m);
      MulAssoc(c, two * u', s);
      MulAssoc(c, s, two * u');
      assert m * s == s * m && (two * u') * s == s * (two * u');
    }
    assert (x * v) * s == (x * v') * m by {
      MulAssoc(x, v, s);
      MulAssoc(x, v', m);
    }
  }

  /** The larger the binary number, the smaller the gap. */
  lemma GapAntitone(c: int, k: int, x: int, y: int)
    requires x < y
    ensures Gap(c, k, y) < Gap(c, k, x)
  {
    TensPositive(k);
    MulStrict(x, y, TenDown(k));
  }

  lemma GapStrict(c: int, c': int, k: int, x: int)
    requires c < c'
    ensures Gap(c, k, x) < Gap(c', k, x)
  {
    TensPositive(k);
    MulStrict(c, c', Pow(2, SCALE) * TenUp(k));
  }
}
