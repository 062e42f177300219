/** The double that an integer with a power-of-two radix is read as. */
module RadixDoubles {
  import opened Arith
  import opened DecimalOrder
  import opened StartValues
  import opened Ieee
  import opened RadixStrings

  /** f without its k lowest bits. */
  function Leading(f: nat, k: nat): nat
  {
    f / Pow2(k)
  }

  /** The bits of f * 2^e; bits of f that do not fit are dropped. */
  method DiyFpToUint64(f: nat, e: int) returns (d: Bits, ghost k: nat)
    ensures Leading(f, k) < 2 * HIDDEN_BIT && (k > 0 ==> Leading(f, k) >= HIDDEN_BIT)
    ensures if e + k >= 972 then d == INFINITY
            else if e + k < -1074 then d == 0
            else d < INFINITY && ValueOf(d) == Scaled2(Leading(f, k), e + k)
  {
    hide Leading, Pow, Scaled2, Exponent, Significand, ValueOf;
    var significand, exponent := f, e;
    k := 0;
    NothingDropped(f);
    while significand >= 2 * HIDDEN_BIT
      invariant significand == Leading(f, k) && exponent == e + k && (k > 0 ==> significand >= HIDDEN_BIT)
      decreases significand
    {
      DropOne(f, k);
      significand := significand / 2;
      exponent := exponent + 1;
      k := k + 1;
    }
    if exponent >= 972 {
      return INFINITY, k;
    }
    if exponent < DENORMAL_EXPONENT {
      return 0, k;
    }
    while exponent > DENORMAL_EXPONENT && significand < HIDDEN_BIT
      invariant DENORMAL_EXPONENT <= exponent <= 971 && 0 <= significand < 2 * HIDDEN_BIT
      invariant Scaled2(significand, exponent) == Scaled2(Leading(f, k), e + k)
      decreases exponent + 1074
    {
      ShiftOne(significand, exponent);
      significand := significand * 2;
      exponent := exponent - 1;
    }
    var biasedExponent := if exponent == DENORMAL_EXPONENT && significand < HIDDEN_BIT then 0
      else exponent + EXPONENT_BIAS;
    PackedParts(significand, exponent, biasedExponent);
    d := significand % HIDDEN_BIT + biasedExponent * HIDDEN_BIT;
  }

  lemma NothingDropped(f: nat)
    ensures Leading(f, 0) == f
  {
    assert Pow2(0) == 1;
  }

  lemma DropOne(f: nat, k: nat)
    ensures Leading(f, k) / 2 == Leading(f, k + 1)
  {
    DivByProduct(f, Pow2(k), 2);
    assert Pow2(k + 1) == Pow2(k) * 2;
  }

  lemma ShiftOne(f: nat, e: int)
    requires e > -1074
    ensures Scaled2(2 * f, e - 1) == Scaled2(f, e)
  {
    assert Pow(2, e + SCALE) == 2 * Pow(2, e - 1 + SCALE);
    MulAssoc(f, 2, Pow(2, e - 1 + SCALE));
  }

  lemma PackedParts(f: nat, e: int, biased: int)
    requires f < 2 * HIDDEN_BIT && -1074 <= e <= 971 && (f >= HIDDEN_BIT || e == -1074)
    requires biased == if e == DENORMAL_EXPONENT && f < HIDDEN_BIT then 0 else e + EXPONENT_BIAS
    ensures var d := f % HIDDEN_BIT + biased * HIDDEN_BIT;
            0 <= d < INFINITY && ValueOf(d) == Scaled2(f, e)
  {
    var d := f % HIDDEN_BIT + biased * HIDDEN_BIT;
    assert d / HIDDEN_BIT == biased && d % HIDDEN_BIT == f % HIDDEN_BIT;
  }

  // ---- The nearest double ----

  /** n lies at most half a unit away from the rounded number, and only at half a unit if that is even. */
  lemma RoundingError(n: nat, d: nat)
    requires d > 0
    ensures var q := RoundHalfEven(n, d);
            && 2 * (q * d) - d <= 2 * n <= 2 * (q * d) + d
            && (2 * n == 2 * (q * d) - d || 2 * n == 2 * (q * d) + d ==> q % 2 == 0)
    ensures n / d <= RoundHalfEven(n, d) <= n / d + 1
  {
    var q, r := n / d, n % d;
    SplitNumber(n, d);
    assert (q + 1) * d == q * d + d;
  }

  /** The same on the scale of the boundaries. */
  lemma ScaledError(n: nat, q: nat, e: nat)
    requires 2 * (q * Pow(2, e)) - Pow(2, e) <= 2 * n <= 2 * (q * Pow(2, e)) + Pow(2, e)
    requires 2 * n == 2 * (q * Pow(2, e)) - Pow(2, e) || 2 * n == 2 * (q * Pow(2, e)) + Pow(2, e) ==> q % 2 == 0
    ensures var x, v, half := n * Pow(2, SCALE), Scaled2(q, e), UpperGap(e);
            v - half <= x <= v + half && (x == v - half || x == v + half ==> q % 2 == 0)
  {
    PowAdd(2, e, SCALE);
    PowPositive(2, SCALE);
    assert Pow(2, e + SCALE) == 2 * UpperGap(e);
    MulAssoc(q, Pow(2, e), Pow(2, SCALE));
    HalfScaled(n, q * Pow(2, e), Pow(2, e), Pow(2, SCALE), UpperGap(e), q % 2 == 0);
  }

  lemma HalfScaled(n: int, v: int, p: int, s: nat, half: int, even: bool)
    requires s > 0 && p * s == 2 * half && 2 * v - p <= 2 * n <= 2 * v + p
    requires 2 * n == 2 * v - p || 2 * n == 2 * v + p ==> even
    ensures v * s - half <= n * s <= v * s + half
    ensures n * s == v * s - half || n * s == v * s + half ==> even
  {
    ScaleUp(2 * v - p, 2 * n, s);
    ScaleUp(2 * n, 2 * v + p, s);
    assert (2 * n) * s == 2 * (n * s);
    assert (2 * v + p) * s == 2 * (v * s) + p * s;
    assert (2 * v - p) * s == 2 * (v * s) - p * s;
  }

  lemma ScaleUp(a: int, b: int, s: nat)
    requires a <= b && s > 0
    ensures a * s <= b * s && (a * s == b * s ==> a == b)
  {
    if a < b {
      MulStrict(a, b, s);
    }
  }

  /** What is needed to be read as a double: not below its lower and not above its upper boundary. */
  lemma IntegerGap(n: nat, x: int)
    ensures Gap(n, 0, x) == n * Pow(2, SCALE) - x
  {
    assert TenUp(0) == 1 && TenDown(0) == 1;
  }

  /** A number with 53 bits has its exponent in the double. */
  lemma NormalParts(d: Bits, f: nat, e: int)
    requires d < INFINITY && HIDDEN_BIT <= f < 2 * HIDDEN_BIT && -1074 <= e <= 971 && ValueOf(d) == Scaled2(f, e)
    ensures Significand(d) == f && Exponent(d) == e
  {
    var g, h := Significand(d), Exponent(d);
    if h < e {
      BiggerExponent(g, h, f, e);
    } else if e < h {
      NormalOrDenormal(d);
      BiggerExponent(f, e, g, h);
    } else {
      PowPositive(2, e + SCALE);
      hide Pow;
      MulCancel(f, g, Pow(2, e + SCALE));
      MulCancel(g, f, Pow(2, e + SCALE));
    }
  }

  lemma NormalOrDenormal(d: Bits)
    requires d < INFINITY && Exponent(d) > -1074
    ensures Significand(d) >= HIDDEN_BIT
  {
  }

  lemma BiggerExponent(g: nat, h: int, f: nat, e: int)
    requires -1074 <= h < e && g < 2 * HIDDEN_BIT && f >= HIDDEN_BIT
    ensures Scaled2(g, h) < Scaled2(f, e)
  {
    var p := Pow(2, h + SCALE);
    PowPositive(2, h + SCALE);
    PowMonotone(2, h + 1 + SCALE, e + SCALE);
    assert Pow(2, h + 1 + SCALE) == 2 * p;
    hide Pow;
    MulStrict(g, 2 * HIDDEN_BIT, p);
    MulAssoc(HIDDEN_BIT, 2, p);
    MulMonotone(2 * p, Pow(2, e + SCALE), HIDDEN_BIT);
    MulMonotone(HIDDEN_BIT, f, Pow(2, e + SCALE));
  }

  /** A number that fits is read exactly. */
  lemma ExactIsRead(n: nat, q: nat, number: nat, exponent: nat, d: Bits)
    requires q == RoundHalfEven(n, Pow2(0)) && exponent <= 1 && d < INFINITY
    requires ValueOf(d) == Scaled2(number, exponent) == Scaled2(q, 0)
    ensures ReadsAs(n, 0, d)
  {
    assert Pow(2, 0) == 1 && RoundHalfEven(n, 1) == n;
    HalfUnit(Exponent(d));
    IntegerGap(n, Lower(d));
    IntegerGap(n, Upper(d));
    hide Gap;
  }

  /** Past the largest double. */
  lemma TooLarge(n: nat, q: nat, number: nat, exponent: nat, e: nat)
    requires RoundedToBits(n, 53, number, exponent, e) && e > 0 && q == RoundHalfEven(n, Pow2(e)) && exponent >= 972
    requires n * Pow(2, SCALE) >= Scaled2(q, e) - UpperGap(e)
    ensures ReadsAs(n, 0, INFINITY)
  {
    HiddenBit();
    IntegerGap(n, Lower(INFINITY));
    var x, top := n * Pow(2, SCALE), e;
    InfinityBegins();
    if exponent == e {
      FloorBelow(n, e);
      PowMonotone(2, 972 + SCALE, e + SCALE);
      MulMonotone(Pow(2, 972 + SCALE), Pow(2, e + SCALE), HIDDEN_BIT);
    } else {
      CarriedOut(q, e, number);
      PowMonotone(2, 970 + SCALE, e + SCALE - 1);
      assert Scaled2(q, e) - UpperGap(e) == (4 * HIDDEN_BIT - 1) * Pow(2, e + SCALE - 1) by {
        TwiceUnit(e);
      }
      hide Pow;
      MulMonotone(Pow(2, 970 + SCALE), Pow(2, e + SCALE - 1), 4 * HIDDEN_BIT - 1);
    }
    hide Gap;
  }

  lemma TwiceUnit(e: nat)
    ensures Scaled2(2 * HIDDEN_BIT, e) - UpperGap(e) == (4 * HIDDEN_BIT - 1) * Pow(2, e + SCALE - 1)
  {
    var p := Pow(2, e + SCALE - 1);
    assert Pow(2, e + SCALE) == 2 * p;
    hide Pow;
    MulAssoc(2 * HIDDEN_BIT, 2, p);
  }

  lemma InfinityBegins()
    ensures Lower(INFINITY) == (4 * HIDDEN_BIT - 1) * Pow(2, 970 + SCALE) <= Scaled2(HIDDEN_BIT, 972)
  {
    var p := Pow(2, 970 + SCALE);
    assert Pow(2, 972 + SCALE) == 4 * p;
    PowPositive(2, 970 + SCALE);
    assert INFINITY / HIDDEN_BIT == 2047 && INFINITY % HIDDEN_BIT == 0;
    assert ValueOf(INFINITY) == Scaled2(HIDDEN_BIT, 972) && LowerGap(972, true) == p;
    assert Lower(INFINITY) == Scaled2(HIDDEN_BIT, 972) - p;
    hide Pow;
    MulAssoc(HIDDEN_BIT, 4, p);
  }

  /** 53 bits are not less than their lowest possible value. */
  lemma FloorBelow(n: nat, e: nat)
    requires n / Pow2(e) >= HIDDEN_BIT
    ensures n * Pow(2, SCALE) >= Scaled2(HIDDEN_BIT, e)
  {
    Below(n, Pow2(e));
    PowAdd(2, e, SCALE);
    PowPositive(2, SCALE);
    hide Pow;
    MulMonotone(HIDDEN_BIT, n / Pow2(e), Pow2(e));
    MulMonotone(HIDDEN_BIT * Pow2(e), n, Pow(2, SCALE));
    MulAssoc(HIDDEN_BIT, Pow2(e), Pow(2, SCALE));
  }

  /** The carry has made the number a power of two. */
  lemma CarriedOut(q: nat, e: nat, number: nat)
    requires number == HIDDEN_BIT && number * Pow(2, e + 1) == q * Pow(2, e)
    ensures q == 2 * HIDDEN_BIT
  {
    PowPositive(2, e);
    assert Pow(2, e + 1) == 2 * Pow(2, e);
    hide Pow;
    MulAssoc(HIDDEN_BIT, 2, Pow(2, e));
    MulCancel(q, 2 * HIDDEN_BIT, Pow(2, e));
    MulCancel(2 * HIDDEN_BIT, q, Pow(2, e));
  }

  /** An integer between the boundaries, and on one of them only if the double is even. */
  lemma BetweenIsRead(n: nat, d: Bits)
    requires d < INFINITY && Lower(d) <= n * Pow(2, SCALE) <= Upper(d)
    requires n * Pow(2, SCALE) == Lower(d) || n * Pow(2, SCALE) == Upper(d) ==> d % 2 == 0
    ensures ReadsAs(n, 0, d)
  {
    hide Gap, Lower, Upper, Pow;
    IntegerGap(n, Lower(d));
    IntegerGap(n, Upper(d));
  }

  /** At most half a unit away from q * 2^e, and at half a unit only if q is even. */
  ghost predicate NearScaled(n: nat, q: nat, e: nat)
  {
    var x, v, half := n * Pow(2, SCALE), Scaled2(q, e), UpperGap(e);
    v - half <= x <= v + half && (x == v - half || x == v + half ==> q % 2 == 0)
  }

  lemma NormalIsRead(n: nat, q: nat, number: nat, exponent: nat, e: nat, d: Bits)
    requires RoundedToBits(n, 53, number, exponent, e) && e > 0 && q == RoundHalfEven(n, Pow2(e)) && exponent < 972
    requires d < INFINITY && ValueOf(d) == Scaled2(number, exponent) == Scaled2(q, e) && NearScaled(n, q, e)
    ensures ReadsAs(n, 0, d)
  {
    hide Gap, Pow, RoundHalfEven, ReadsAs, NearScaled, Lower, Upper, ValueOf, Scaled2, Exponent, Significand;
    HiddenBit();
    if exponent == e {
      OneFactor(q, number, e);
      RoundingError(n, Pow2(e));
      NormalParts(d, q, e);
      FloorBelow(n, e);
      SameExponent(n, q, e, d);
    } else {
      NormalParts(d, number, exponent);
      NextExponent(n, q, e, d);
    }
    BetweenIsRead(n, d);
  }

  lemma SameExponent(n: nat, q: nat, e: nat, d: Bits)
    requires d < INFINITY && Significand(d) == q && Exponent(d) == e && NearScaled(n, q, e)
    requires n * Pow(2, SCALE) >= Scaled2(HIDDEN_BIT, e)
    ensures var x := n * Pow(2, SCALE);
            Lower(d) <= x <= Upper(d) && (x == Lower(d) || x == Upper(d) ==> d % 2 == 0)
  {
    hide Pow, Scaled2, UpperGap, LowerGap;
    HalfUnit(e);
    if LowerBoundaryIsCloser(d) {
      CloserIsHidden(d);
    }
  }

  lemma CloserIsHidden(d: Bits)
    requires LowerBoundaryIsCloser(d) && d < INFINITY
    ensures Significand(d) == HIDDEN_BIT
  {
  }

  lemma NextExponent(n: nat, q: nat, e: nat, d: Bits)
    requires d < INFINITY && Significand(d) == HIDDEN_BIT && Exponent(d) == e + 1 && NearScaled(n, q, e)
    requires ValueOf(d) == Scaled2(q, e)
    ensures var x := n * Pow(2, SCALE);
            Lower(d) <= x <= Upper(d) && (x == Lower(d) || x == Upper(d) ==> d % 2 == 0)
  {
    hide Pow, Scaled2, Exponent, ValueOf;
    TwiceGap(e);
  }

  lemma TwiceGap(e: nat)
    ensures UpperGap(e + 1) == 2 * UpperGap(e) && LowerGap(e + 1, true) == UpperGap(e) > 0
    ensures LowerGap(e + 1, false) == 2 * UpperGap(e)
  {
    HalfUnit(e);
    PowPositive(2, e + SCALE - 1);
  }

  lemma OneFactor(q: nat, number: nat, e: nat)
    requires number * Pow(2, e) == q * Pow(2, e)
    ensures q == number
  {
    PowPositive(2, e);
    hide Pow;
    MulCancel(q, number, Pow(2, e));
    MulCancel(number, q, Pow(2, e));
  }

  /** The double that holds the rounded number is the one that the number is read as. */
  lemma RoundedIsNearest(n: nat, number: nat, exponent: nat, e: nat, d: Bits)
    requires RoundedToBits(n, 53, number, exponent, e)
    requires if exponent >= 972 then d == INFINITY else d < INFINITY && ValueOf(d) == Scaled2(number, exponent)
    ensures ReadsAs(n, 0, d)
  {
    HiddenBit();
    var q := RoundHalfEven(n, Pow2(e));
    RoundingError(n, Pow2(e));
    ScaledError(n, q, e);
    SameValue(q, e, number, exponent);
    hide Pow, RoundHalfEven, Gap, Scaled2, UpperGap, Exponent, Significand;
    if e == 0 {
      ExactIsRead(n, q, number, exponent, d);
    } else if d == INFINITY {
      TooLarge(n, q, number, exponent, e);
    } else {
      NormalIsRead(n, q, number, exponent, e, d);
    }
  }

  lemma SameValue(q: nat, e: nat, number: nat, exponent: nat)
    requires number * Pow(2, exponent) == q * Pow(2, e)
    ensures Scaled2(number, exponent) == Scaled2(q, e)
  {
    PowAdd(2, e, SCALE);
    PowAdd(2, exponent, SCALE);
    hide Pow;
    MulAssoc(q, Pow(2, e), Pow(2, SCALE));
    MulAssoc(number, Pow(2, exponent), Pow(2, SCALE));
  }

  /** What digits with a power-of-two radix are read as: the nearest double, ties to even, infinity included. It is
      negated only if no bit had to be dropped. */
  method RadixStringToDouble(s: string, radixLog2: nat, sign: bool, allowTrailingJunk: bool)
    returns (junk: bool, negative: bool, d: Bits, trailing: nat)
    requires s != [] && 1 <= radixLog2 <= 5
    ensures var m := DigitsEnd(s, Radix(radixLog2), 0);
            && (junk <==> !allowTrailingJunk && !OnlySpaces(s[m..]))
            && (!junk ==> trailing == if allowTrailingJunk then m else |s|)
            && (!junk ==> ReadsAs(RadixValue(s[..m], Radix(radixLog2)), 0, d))
            && (!junk ==> (negative <==> sign && RadixValue(s[..m], Radix(radixLog2)) < 0x20_0000_0000_0000))
  {
    hide Pow, DigitsEnd, RadixValue, OnlySpaces, ReadsAs, Scaled2, RoundHalfEven;
    var r;
    ghost var dropped, k;
    r, trailing, dropped := RadixStringToIeee(s, radixLog2, sign, allowTrailingJunk, 53);
    if r.Junk? {
      return true, false, 0, 0;
    }
    HiddenBit();
    negative := r.negative;
    d, k := DiyFpToUint64(r.number, r.exponent);
    NothingLost(r.number, k);
    RoundedIsNearest(RadixValue(s[..DigitsEnd(s, Radix(radixLog2), 0)], Radix(radixLog2)), r.number, r.exponent,
                     dropped, d);
    junk := false;
  }

  lemma NothingLost(f: nat, k: nat)
    requires f < 2 * HIDDEN_BIT && (k > 0 ==> Leading(f, k) >= HIDDEN_BIT)
    ensures k == 0 && Leading(f, k) == f
  {
    NothingDropped(f);
    if k > 0 {
      PowMonotone(2, 1, k);
      assert Pow(2, 1) == 2;
      Below(f, Pow2(k));
      MulMonotone(HIDDEN_BIT, f / Pow2(k), Pow2(k));
      MulMonotone(2, Pow2(k), HIDDEN_BIT);
    }
  }

  // ---- Huge integers ----

  lemma HugeIsInfinite(n: nat)
    requires n >= Pow(2, 1024)
    ensures ReadsAs(n, 0, INFINITY)
  {
    InfinityBegins();
    HiddenBit();
    IntegerGap(n, Lower(INFINITY));
    PowAdd(2, 52, 972 + SCALE);
    PowAdd(2, 1024, SCALE);
    PowPositive(2, SCALE);
    hide Pow, Gap;
    MulMonotone(Pow(2, 1024), n, Pow(2, SCALE));
    BelowWhole();
  }

  lemma BelowWhole()
    ensures Lower(INFINITY) < Scaled2(HIDDEN_BIT, 972)
  {
    InfinityBegins();
    var p := Pow(2, 970 + SCALE);
    assert Pow(2, 972 + SCALE) == 4 * p;
    PowPositive(2, 970 + SCALE);
    hide Pow, Lower;
    MulAssoc(HIDDEN_BIT, 4, p);
    MulStrict(4 * HIDDEN_BIT - 1, 4 * HIDDEN_BIT, p);
  }

  /** A number with a nonzero first digit. */
  lemma {:induction false} RadixAtLeast(s: string, radix: nat)
    requires 2 <= radix <= 32 && AllRadixDigits(s, radix) && s != [] && s[0] != '0'
    ensures RadixValue(s, radix) >= Pow(radix, |s| - 1)
  {
    if |s| == 1 {
      ZeroDigit(s[0], radix);
      assert s[..0] == [];
    } else {
      RadixAtLeast(s[..|s| - 1], radix);
      MulMonotone(Pow(radix, |s| - 2), RadixValue(s[..|s| - 1], radix), radix);
      assert Pow(radix, |s| - 1) == radix * Pow(radix, |s| - 2);
    }
  }

  lemma ManyOctalDigits(s: string)
    requires AllRadixDigits(s, 8) && |s| >= 772 && s[0] != '0'
    ensures RadixValue(s, 8) >= Pow(2, 1024)
  {
    RadixAtLeast(s, 8);
    assert Pow(2, 3) == 8;
    PowTimes(2, 3, |s| - 1);
    PowMonotone(2, 1024, 3 * (|s| - 1));
  }

  /** Octal digits that are too many for the buffer do not matter: the number is infinite without them. */
  lemma CutOctal(d: string, c: string, x: Bits)
    requires AllRadixDigits(d, 8) && d != [] && d[0] != '0' && c == d[..if |d| < 772 then |d| else 772]
    ensures AllRadixDigits(c, 8)
    ensures ReadsAs(RadixValue(c, 8), 0, x) ==> ReadsAs(RadixValue(d, 8), 0, x)
    ensures RadixValue(c, 8) < 0x20_0000_0000_0000 <==> RadixValue(d, 8) < 0x20_0000_0000_0000
  {
    if |d| <= 772 {
      assert c == d;
    } else {
      ManyOctalDigits(d);
      ManyOctalDigits(c);
      HugeIsInfinite(RadixValue(d, 8));
      HugeIsInfinite(RadixValue(c, 8));
      SizeFits(53);
      PowMonotone(2, 53, 1024);
      hide Pow, ReadsAs, RadixValue, AllRadixDigits;
      if ReadsAs(RadixValue(c, 8), 0, x) {
        ReadsAsUnique(RadixValue(c, 8), 0, x, INFINITY);
      }
    }
  }
}
