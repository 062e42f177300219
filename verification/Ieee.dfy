/** Non-negative doubles as their bit patterns, and the boundaries between neighbouring ones. */
module Ieee {
  import opened Arith
  import opened DecimalOrder
  import opened StartValues

  const HIDDEN_BIT: nat := 0x0010_0000_0000_0000
  const INFINITY: nat := 0x7FF0_0000_0000_0000
  const EXPONENT_BIAS: nat := 0x3FF + 52
  const DENORMAL_EXPONENT: int := 1 - EXPONENT_BIAS

  /** A bit pattern without sign that is not a NaN. */
  type Bits = d: nat | d <= INFINITY

  predicate IsDenormal(d: Bits)
  {
    d / HIDDEN_BIT == 0
  }

  function Exponent(d: Bits): (e: int)
    ensures -1074 <= e <= 972
    ensures d < INFINITY ==> e <= 971
  {
    if IsDenormal(d) then DENORMAL_EXPONENT else d / HIDDEN_BIT - EXPONENT_BIAS
  }

  function Significand(d: Bits): (f: nat)
    ensures f < 2 * HIDDEN_BIT
    ensures f % 2 == d % 2
    ensures d > 0 ==> f > 0
  {
    if IsDenormal(d) then d % HIDDEN_BIT else d % HIDDEN_BIT + HIDDEN_BIT
  }

  predicate LowerBoundaryIsCloser(d: Bits)
  {
    d % HIDDEN_BIT == 0 && Exponent(d) != DENORMAL_EXPONENT
  }

  lemma HiddenBit()
    ensures HIDDEN_BIT == Pow(2, 52) && 2 * HIDDEN_BIT == Pow(2, 53)
  {
    assert Pow(2, 13) == 8192;
    PowAdd(2, 13, 13);
    PowAdd(2, 26, 26);
  }

  /** The number, and the boundary above it, on the scale of DecimalOrder. */
  ghost function ValueOf(d: Bits): nat
  {
    Scaled2(Significand(d), Exponent(d))
  }

  ghost function Upper(d: Bits): nat
  {
    ValueOf(d) + UpperGap(Exponent(d))
  }

  ghost function Lower(d: Bits): int
  {
    ValueOf(d) - LowerGap(Exponent(d), LowerBoundaryIsCloser(d))
  }

  /** Every positive finite double has the parts that the printers ask for. */
  lemma PartsOfDouble(d: Bits)
    requires 0 < d < INFINITY
    ensures FloatParts(Significand(d), Exponent(d), LowerBoundaryIsCloser(d))
    ensures Significand(d) >= Pow(2, 52) || Exponent(d) == -1074
  {
    HiddenBit();
  }

  /** Neighbouring doubles share a boundary; for the largest finite one it is where infinity begins. */
  lemma SharedBoundary(d: Bits)
    requires d < INFINITY
    ensures Upper(d) == Lower(d + 1)
  {
    HiddenBit();
    var f, e, f', e' := Significand(d), Exponent(d), Significand(d + 1), Exponent(d + 1);
    HalfUnit(e);
    if d % HIDDEN_BIT + 1 < HIDDEN_BIT {
      assert d / HIDDEN_BIT == (d + 1) / HIDDEN_BIT && (d + 1) % HIDDEN_BIT == d % HIDDEN_BIT + 1;
      OneMoreUnit(f, Pow(2, e + SCALE));
    } else {
      assert (d + 1) / HIDDEN_BIT == d / HIDDEN_BIT + 1 && (d + 1) % HIDDEN_BIT == 0;
      if IsDenormal(d) {
        OneMoreUnit(f, Pow(2, e + SCALE));
      } else {
        HalfUnit(e');
        Renormalized(f, e);
      }
    }
  }

  lemma OneMoreUnit(f: int, p: int)
    ensures (f + 1) * p == f * p + p
  {
  }

  /** Past the last significand of an exponent comes the first one of the next exponent. */
  lemma Renormalized(f: nat, e: int)
    requires e >= -1074 && f + 1 == 2 * HIDDEN_BIT
    ensures Scaled2(f, e) + UpperGap(e) == Scaled2(HIDDEN_BIT, e + 1) - LowerGap(e + 1, true)
  {
    HalfUnit(e);
    HalfUnit(e + 1);
    var p := Pow(2, e + SCALE);
    assert Pow(2, e + 1 + SCALE) == 2 * p;
    assert Scaled2(HIDDEN_BIT, e + 1) == (f + 1) * p by {
      MulAssoc(HIDDEN_BIT, 2, p);
    }
    OneMoreUnit(f, p);
  }

  /** c * 10^k is read as the double d when it lies between the boundaries of d, which belong to d
      exactly when d is even. */
  ghost predicate ReadsAs(c: nat, k: int, d: Bits)
  {
    && (d > 0 ==> if d % 2 == 0 then Gap(c, k, Lower(d)) >= 0 else Gap(c, k, Lower(d)) > 0)
    && (d < INFINITY ==> if d % 2 == 0 then Gap(c, k, Upper(d)) <= 0 else Gap(c, k, Upper(d)) < 0)
  }

  lemma {:induction false} UpperMonotone(d: Bits, d': Bits)
    requires d <= d' < INFINITY
    ensures Upper(d) <= Upper(d')
    decreases d' - d
  {
    if d < d' {
      SharedBoundary(d);
      HalfUnit(Exponent(d + 1));
      UpperMonotone(d + 1, d');
    }
  }

  /** No decimal number is read as two doubles. */
  lemma ReadsAsUnique(c: nat, k: int, d: Bits, d': Bits)
    requires ReadsAs(c, k, d) && ReadsAs(c, k, d')
    ensures d == d'
  {
    if d < d' {
      ReadsAsOrdered(c, k, d, d');
    } else if d' < d {
      ReadsAsOrdered(c, k, d', d);
    }
  }

  lemma ReadsAsOrdered(c: nat, k: int, d: Bits, d': Bits)
    requires d < d' && ReadsAs(c, k, d)
    ensures !ReadsAs(c, k, d')
  {
    var x, y := Gap(c, k, Upper(d)), Gap(c, k, Lower(d'));
    assert (d % 2 == 0 ==> x <= 0) && (d % 2 != 0 ==> x < 0);
    GapsOrdered(c, k, d, d');
  }

  lemma GapsOrdered(c: nat, k: int, d: Bits, d': Bits)
    requires d < d'
    ensures Gap(c, k, Lower(d')) <= Gap(c, k, Upper(d))
    ensures Gap(c, k, Lower(d')) == Gap(c, k, Upper(d)) ==> d % 2 != d' % 2
  {
    hide Gap, Upper, Lower;
    SharedBoundary(d' - 1);
    if d < d' - 1 {
      UpperStrict(d, d' - 1);
      GapAntitone(c, k, Upper(d), Upper(d' - 1));
    } else {
      assert d' == d + 1;
    }
  }

  lemma UpperStrict(d: Bits, d': Bits)
    requires d < d' < INFINITY
    ensures Upper(d) < Upper(d')
  {
    SharedBoundary(d);
    HalfUnit(Exponent(d + 1));
    UpperMonotone(d + 1, d');
    hide ValueOf, Scaled2;
    assert Lower(d + 1) < Upper(d + 1);
  }
}
