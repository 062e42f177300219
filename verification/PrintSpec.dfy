/** What the printers promise about the number that is printed, on the scale of DecimalOrder. */
module PrintSpec {
  import opened Arith
  import opened Digits
  import opened DtoaSpec
  import opened DecimalOrder

  /** c * 10^k lies between (v - low) / 2^SCALE and (v + high) / 2^SCALE, the ends included exactly when `even`. */
  ghost predicate InInterval(v: int, low: int, high: int, even: bool, c: int, k: int)
  {
    if even then Gap(c, k, v - low) >= 0 && Gap(c, k, v + high) <= 0
    else Gap(c, k, v - low) > 0 && Gap(c, k, v + high) < 0
  }

  /** d * 10^k is at least as close to x / 2^SCALE as c * 10^k; if both are equally close, d is even. */
  ghost predicate AtLeastAsClose(x: int, k: int, d: int, c: int)
  {
    Nearer(0, Gap(c, k, x), Gap(d, k, x), c == d, d % 2 == 0)
  }

  /** The digits s, with the decimal point after the first `point` of them, are the shortest decimal
      number between v - low and v + high, and the closest to v among those of the same length. */
  ghost predicate ShortestDecimal(v: int, low: int, high: int, even: bool, s: string, point: int)
  {
    && AllDigits(s) && s != [] && s[0] != '0'
    && InInterval(v, low, high, even, Decimal(s), point - |s|)
    && (forall c: nat, k: int :: point - |s| < k < point ==> !InInterval(v, low, high, even, c, k))
    && (var last := point - |s|;
        forall c: nat :: InInterval(v, low, high, even, c, last) ==> AtLeastAsClose(v, last, Decimal(s), c))
  }

  /** d * 10^k is v rounded to a multiple of 10^k, halves upwards. */
  ghost predicate RoundedHalfUp(v: int, d: int, k: int)
  {
    Gap(2 * d - 1, k, 2 * v) <= 0 < Gap(2 * d + 1, k, 2 * v)
  }

  /** The digits s are v rounded to |s| significant digits, halves upwards. The last clause fixes the decimal
      point: below 10^(point - 1) the number may only be if one more digit would round it up to there. */
  ghost predicate SignificantDigits(v: int, s: string, point: int)
  {
    && AllDigits(s) && s != [] && s[0] != '0'
    && RoundedHalfUp(v, Decimal(s), point - |s|)
    && (Gap(1, point - 1, v) <= 0 || RoundedHalfUp(v, 10 * Decimal(s), point - |s| - 1))
  }

  /** The rounded number is determined. */
  lemma RoundedUnique(v: int, d: int, d': int, k: int)
    requires RoundedHalfUp(v, d, k) && RoundedHalfUp(v, d', k)
    ensures d == d'
  {
    TensPositive(k);
    if d < d' {
      GapMonotone(2 * d + 1, 2 * d' - 1, k, 2 * v);
    } else if d' < d {
      GapMonotone(2 * d' + 1, 2 * d - 1, k, 2 * v);
    }
  }

  lemma GapMonotone(c: int, c': int, k: int, x: int)
    requires c <= c'
    ensures Gap(c, k, x) <= Gap(c', k, x)
  {
    TensPositive(k);
    MulMonotone(c, c', Pow(2, SCALE) * TenUp(k));
  }

  lemma InsideTransfers(num: nat, den: nat, dm: nat, dp: nat, even: bool, c: nat, j: nat, v: int, low: int, high: int,
                        p: int)
    requires den > 0 && Ratio(num, den, v, p) && Ratio(dm, den, low, p) && Ratio(dp, den, high, p)
    ensures Inside(num, den, dm, dp, even, c, j) <==> InInterval(v, low, high, even, c, p - j)
  {
    RatioSum(num, dm, den, v, low, p);
    RatioSum(num, dp, den, v, high, p);
    var s := Pow(10, j);
    PowPositive(10, j);
    hide Ratio, Gap, Pow;
    BoundTransfers(num - dm, den, v - low, p, j, c);
    BoundTransfers(num + dp, den, v + high, p, j, c);
    DtoaSpec.Distribute(num, dp, s);
    assert (num - dm) * s == num * s - dm * s;
  }

  lemma BoundTransfers(num: int, den: nat, x: int, p: int, j: nat, c: int)
    requires den > 0 && Ratio(num, den, x, p)
    ensures c * den < num * Pow(10, j) <==> Gap(c, p - j, x) < 0
    ensures c * den == num * Pow(10, j) <==> Gap(c, p - j, x) == 0
  {
    var a, b := Transfer(num, den, x, p, j);
    SignTransfer(c * den - num * Pow(10, j), a, Gap(c, p - j, x), b);
  }

  lemma ClosestTransfers(num: nat, den: nat, c: nat, d: nat, j: nat, v: int, p: int)
    requires den > 0 && Ratio(num, den, v, p)
    ensures Closest(num, den, c, d, j) <==> AtLeastAsClose(v, p - j, d, c)
  {
    var a, b := Transfer(num, den, v, p, j);
    var x, y := c * den - num * Pow(10, j), d * den - num * Pow(10, j);
    var x', y' := Gap(c, p - j, v), Gap(d, p - j, v);
    hide Ratio, Gap, Pow;
    AbsTransfer(x, a, x', b);
    AbsTransfer(y, a, y', b);
    OrderTransfer(Abs(x), Abs(y), a, Abs(x'), Abs(y'), b);
  }

  lemma OrderTransfer(x: int, y: int, a: int, x': int, y': int, b: int)
    requires a > 0 && b > 0 && x * a == x' * b && y * a == y' * b
    ensures (x <= y <==> x' <= y') && (x == y <==> x' == y')
  {
    assert (x - y) * a == (x' - y') * b;
    SignTransfer(x - y, a, x' - y', b);
  }

  lemma ShortestTransfers(num: nat, den: nat, dm: nat, dp: nat, even: bool, s: string, v: int, low: int, high: int,
                          point: int)
    requires Shortest(num, den, dm, dp, even, s)
    requires den > 0 && Ratio(num, den, v, point - 1) && Ratio(dm, den, low, point - 1)
      && Ratio(dp, den, high, point - 1)
    ensures ShortestDecimal(v, low, high, even, s, point)
  {
    var p := point - 1;
    hide Ratio, Gap, Inside, Closest, InInterval, AtLeastAsClose;
    InsideTransfers(num, den, dm, dp, even, Decimal(s), |s| - 1, v, low, high, p);
    forall c: nat, k: int | point - |s| < k < point
      ensures !InInterval(v, low, high, even, c, k)
    {
      var j: nat := p - k;
      InsideTransfers(num, den, dm, dp, even, c, j, v, low, high, p);
      assert p - j == k;
    }
    var last := point - |s|;
    forall c: nat | InInterval(v, low, high, even, c, last)
      ensures AtLeastAsClose(v, last, Decimal(s), c)
    {
      var j := |s| - 1;
      assert p - j == last;
      InsideTransfers(num, den, dm, dp, even, c, j, v, low, high, p);
      ClosestTransfers(num, den, c, Decimal(s), j, v, p);
    }
  }

  /** Rounding the fraction num * 10^j / den half up is rounding the number it stands for. */
  lemma RoundingTransfers(num: nat, den: nat, d: nat, j: nat, v: int, p: int)
    requires den > 0 && Ratio(num, den, v, p)
    requires 2 * d * den <= 2 * (num * Pow(10, j)) + den < 2 * d * den + 2 * den
    ensures RoundedHalfUp(v, d, p - j)
  {
    RatioSum(num, num, den, v, v, p);
    var a, b := Transfer(2 * num, den, 2 * v, p, j);
    var s := Pow(10, j);
    hide Ratio, Gap, Pow;
    SignTransfer((2 * d - 1) * den - (2 * num) * s, a, Gap(2 * d - 1, p - j, 2 * v), b);
    SignTransfer((2 * d + 1) * den - (2 * num) * s, a, Gap(2 * d + 1, p - j, 2 * v), b);
    MulAssoc(2, num, s);
    MulAssoc(2, d, den);
  }

  /** What rounds to a multiple of ten at one place rounds the same way at the place above. */
  lemma RoundedCoarser(v: int, d: int, k: int)
    requires RoundedHalfUp(v, 10 * d, k - 1)
    ensures RoundedHalfUp(v, d, k)
  {
    assert Pow(10, 1) == 10;
    GapShift(2 * d - 1, k, 2 * v, 1);
    GapShift(2 * d + 1, k, 2 * v, 1);
    hide Gap, Pow;
    GapMonotone((2 * d - 1) * 10, 2 * (10 * d) - 1, k - 1, 2 * v);
    GapMonotone(2 * (10 * d) + 1, (2 * d + 1) * 10, k - 1, 2 * v);
  }

  /** A number below 10^k rounds to zero at every place from k + 1 on. */
  lemma RoundsToZero(v: nat, k: int, place: int)
    requires Gap(1, k, v) > 0 && k < place
    ensures RoundedHalfUp(v, 0, place)
  {
    var j := place - k;
    GapShift(1, place, 2 * v, j);
    PowMonotone(10, 1, j);
    assert Pow(10, 1) == 10;
    assert Gap(2, k, 2 * v) > 0 by {
      GapDouble(1, k, v);
    }
    GapMonotone(2, 1 * Pow(10, j), k, 2 * v);
    assert Gap(-1, place, 2 * v) <= 0 by {
      TensPositive(place);
      MulMonotone(0, 2 * v, TenDown(place));
    }
  }

  lemma GapDouble(c: int, k: int, x: int)
    ensures Gap(2 * c, k, 2 * x) == 2 * Gap(c, k, x)
  {
    var a, v := Pow(2, SCALE) * TenUp(k), TenDown(k);
    MulAssoc(2, c, a);
    MulAssoc(2, x, v);
  }
}
