/** Printing and reading undo each other, and no shorter string could replace the printed one. */
module RoundTrip {
  import opened Arith
  import opened Digits
  import opened DecimalOrder
  import opened PrintSpec
  import opened StartValues
  import opened Ieee
  import opened BignumDtoa

  /** The interval of the printer is the set of numbers that are read as the double. */
  lemma IntervalIsReads(d: Bits, c: nat, k: int)
    requires 0 < d < INFINITY
    ensures InInterval(ValueOf(d), LowerGap(Exponent(d), LowerBoundaryIsCloser(d)), UpperGap(Exponent(d)),
                       Significand(d) % 2 == 0, c, k)
            <==> ReadsAs(c, k, d)
  {
    hide Gap, Scaled2, LowerGap, UpperGap;
  }

  /** The shortest digits of a double are read back as that double, and as no other. */
  lemma PrintedIsReadBack(d: Bits, s: string, point: int, d': Bits)
    requires 0 < d < INFINITY
    requires Printed(Significand(d), Exponent(d), LowerBoundaryIsCloser(d), ShortestMode, 0, s, point)
    ensures AllDigits(s)
    ensures ReadsAs(Decimal(s), point - |s|, d') <==> d' == d
  {
    hide Gap, ReadsAs, InInterval, AtLeastAsClose;
    IntervalIsReads(d, Decimal(s), point - |s|);
    if ReadsAs(Decimal(s), point - |s|, d') {
      ReadsAsUnique(Decimal(s), point - |s|, d, d');
    }
  }

  lemma LowerPositive(d: Bits)
    requires 0 < d
    ensures Lower(d) > 0
  {
    var e := Exponent(d);
    HalfUnit(e);
    MulMonotone(1, Significand(d), Pow(2, e + SCALE));
  }

  /** No string with fewer digits, wherever its decimal point stands, is read as the same double. */
  lemma NoShorterString(d: Bits, s: string, point: int, t: string, k: int)
    requires 0 < d < INFINITY
    requires Printed(Significand(d), Exponent(d), LowerBoundaryIsCloser(d), ShortestMode, 0, s, point)
    requires AllDigits(t) && |t| < |s|
    ensures !ReadsAs(Decimal(t), k, d)
  {
    LowerPositive(d);
    if Decimal(t) == 0 {
      ZeroIsBelow(k, Lower(d));
    } else if k >= point {
      AboveInterval(d, Decimal(t), k, point);
    } else if k > point - |s| {
      assert !InInterval(ValueOf(d), LowerGap(Exponent(d), LowerBoundaryIsCloser(d)), UpperGap(Exponent(d)),
                         Significand(d) % 2 == 0, Decimal(t), k);
      IntervalIsReads(d, Decimal(t), k);
    } else {
      BelowInterval(d, s, point, t, k);
    }
  }

  lemma ZeroIsBelow(k: int, b: int)
    requires b > 0
    ensures Gap(0, k, b) < 0
  {
    TensPositive(k);
    MulPositive(b, TenDown(k));
  }

  lemma AboveInterval(d: Bits, c: nat, k: int, point: int)
    requires d < INFINITY && c > 0 && k >= point
    requires if d % 2 == 0 then Gap(1, point, Upper(d)) > 0 else Gap(1, point, Upper(d)) >= 0
    ensures !ReadsAs(c, k, d)
  {
    var b, j := Upper(d), k - point;
    PowPositive(10, j);
    GapShift(1, k, b, j);
    GapMonotone(1, 1 * Pow(10, j), point, b);
    GapMonotone(1, c, k, b);
    hide Gap, Upper, Lower;
  }

  lemma BelowInterval(d: Bits, s: string, point: int, t: string, k: int)
    requires 0 < d < INFINITY
    requires Printed(Significand(d), Exponent(d), LowerBoundaryIsCloser(d), ShortestMode, 0, s, point)
    requires AllDigits(t) && 0 < |t| < |s| && k <= point - |s|
    ensures !ReadsAs(Decimal(t), k, d)
  {
    LeadingPowerBelow(d, s, point);
    var b, m := Lower(d), point - 1 - k;
    DecimalBound(t);
    PowMonotone(10, |t|, m);
    GapShift(1, point - 1, b, m);
    assert point - 1 - m == k;
    GapStrict(Decimal(t), 1 * Pow(10, m), k, b);
    hide Gap, Upper, Lower;
  }

  /** With two or more digits the power of ten at the first digit lies below the interval. */
  lemma LeadingPowerBelow(d: Bits, s: string, point: int)
    requires 0 < d < INFINITY && |s| >= 2
    requires Printed(Significand(d), Exponent(d), LowerBoundaryIsCloser(d), ShortestMode, 0, s, point)
    ensures Gap(1, point - 1, Lower(d)) <= 0
  {
    var j := |s| - 1;
    WideIsDecimal(s);
    WideLead(s);
    PowPositive(10, j);
    MulMonotone(1, s[0] as int - '0' as int, Pow(10, j));
    GapShift(1, point - 1, Upper(d), j);
    assert point - 1 - j == point - |s|;
    GapMonotone(1 * Pow(10, j), Decimal(s), point - |s|, Upper(d));
    assert !InInterval(ValueOf(d), LowerGap(Exponent(d), LowerBoundaryIsCloser(d)), UpperGap(Exponent(d)),
                       Significand(d) % 2 == 0, 1, point - 1);
    hide Gap;
  }
}
