/** A positive binary floating-point number as a fraction of two big integers, and its boundaries. */
module StartValues {
  import opened Arith
  import opened Machine
  import opened Bigits
  import opened Bignums
  import opened DecimalOrder

  /** The number f * 2^e on the scale of DecimalOrder, and the distances to its two boundaries. */
  ghost function Scaled2(f: nat, e: int): nat
    requires e >= -1074
  {
    f * Pow(2, e + SCALE)
  }

  ghost function UpperGap(e: int): nat
    requires e >= -1074
  {
    Pow(2, e + SCALE - 1)
  }

  ghost function LowerGap(e: int, lowerBoundaryIsCloser: bool): nat
    requires e >= -1074
  {
    if lowerBoundaryIsCloser then Pow(2, e + SCALE - 2) else Pow(2, e + SCALE - 1)
  }

  /** The contract of the power estimate: 10^(k-1) <= v, and the upper boundary of v is below 10^(k+1). */
  ghost predicate PowerEstimate(f: nat, e: int, k: int)
    requires e >= -1074
  {
    Gap(1, k - 1, Scaled2(f, e)) <= 0 && Gap(1, k + 1, Scaled2(f, e) + UpperGap(e)) > 0
  }

  /** The parts of a positive finite double, or float. */
  ghost predicate FloatParts(f: nat, e: int, lowerBoundaryIsCloser: bool)
  {
    && 0 < f < Pow(2, 53) && -1074 <= e <= 971
    && (lowerBoundaryIsCloser ==> f <= Pow(2, 52))
  }

  lemma BitsBelow(x: nat, y: nat, m: nat, n: nat)
    requires x < Pow(2, m) && y <= Pow(2, n)
    ensures x * y < Pow(2, m + n)
  {
    PowAdd(2, m, n);
    PowPositive(2, n);
    MulMonotone(y, Pow(2, n), x);
    MulStrict(x, Pow(2, m), Pow(2, n));
  }

  lemma TenBelowSixteen(n: nat)
    ensures Pow(10, n) <= Pow(2, 4 * n) && Pow(2, 3 * n) <= Pow(10, n)
  {
    PowTimes(2, 4, n);
    PowTimes(2, 3, n);
    assert Pow(2, 4) == 16 && Pow(2, 3) == 8;
    PowBaseMonotone(10, 16, n);
    PowBaseMonotone(8, 10, n);
  }

  /** The estimate stays in a range for which the big integers have ample room. */
  lemma EstimateRange(f: nat, e: int, k: int)
    requires 0 < f < Pow(2, 53) && -1074 <= e <= 971 && PowerEstimate(f, e, k)
    ensures -360 <= k <= 360
    ensures e >= 0 ==> k >= 0
  {
    if k > 360 {
      EstimateNotHigh(f, e, k);
    } else if k < -360 || (e >= 0 && k < 0) {
      EstimateNotLow(f, e, k);
    }
  }

  lemma EstimateNotHigh(f: nat, e: int, k: int)
    requires 0 < f < Pow(2, 53) && -1074 <= e <= 971 && k > 360
    ensures Gap(1, k - 1, Scaled2(f, e)) > 0
  {
    TenBelowSixteen(k - 1);
    BitsBelow(f, Pow(2, e + SCALE), 53, e + SCALE);
    PowMonotone(2, 53 + e + SCALE, SCALE + 3 * (k - 1));
    PowAdd(2, SCALE, 3 * (k - 1));
    PowPositive(2, SCALE);
    assert TenUp(k - 1) == Pow(10, k - 1) && TenDown(k - 1) == 1;
    hide Pow;
    MulMonotone(Pow(2, 3 * (k - 1)), Pow(10, k - 1), Pow(2, SCALE));
  }

  lemma EstimateNotLow(f: nat, e: int, k: int)
    requires 0 < f && -1074 <= e
    requires k < -360 || (e >= 0 && k < 0)
    ensures Gap(1, k + 1, Scaled2(f, e) + UpperGap(e)) <= 0
  {
    var m := -(k + 1);
    TenBelowSixteen(m);
    assert TenUp(k + 1) == 1 && TenDown(k + 1) == Pow(10, m);
    PowPositive(2, e + SCALE);
    PowPositive(2, e + SCALE - 1);
    if e >= 0 {
      PowMonotone(2, SCALE, e + SCALE);
      PowPositive(10, m);
    } else {
      PowMonotone(2, SCALE, e + SCALE + 3 * m);
      PowAdd(2, e + SCALE, 3 * m);
    }
    hide Pow;
    MulMonotone(1, f, Pow(2, e + SCALE));
    MulMonotone(Pow(2, e + SCALE), Scaled2(f, e) + UpperGap(e), Pow(10, m));
    if e >= 0 {
      MulMonotone(1, Pow(10, m), Pow(2, e + SCALE));
    } else {
      MulMonotone(Pow(2, 3 * m), Pow(10, m), Pow(2, e + SCALE));
    }
  }

  /** Everything the start values need stays below 2^2600. */
  ghost predicate Roomy(b: Bignum)
    reads b, b.bigits
  {
    b.Valid() && b.Value() < Pow(2, 2600)
  }

  lemma RoomySmall(b: Bignum)
    requires Roomy(b)
    ensures b.Small() && b.usedDigits < CAPACITY && b.BigitLength() < CAPACITY
    ensures 100 * b.Value() < Pow(BASE, CAPACITY - 8)
  {
    PowTwoBase(CAPACITY - 8);
    PowMonotone(2, 2607, BIGIT_SIZE * (CAPACITY - 8));
    PowAdd(2, 2600, 7);
    assert Pow(2, 7) == 128;
    b.LengthFromValue(CAPACITY - 8);
  }

  /** Shifts a roomy number. */
  method Shift(b: Bignum, amount: nat, ghost bits: nat)
    requires b.Valid() && b.Value() < Pow(2, bits) && bits <= 2600
    modifies b, b.bigits
    ensures b.Valid() && b.Value() == old(b.Value()) * Pow(2, amount)
    ensures b.Value() < Pow(2, bits + amount)
  {
    PowMonotone(2, bits, 2600);
    RoomySmall(b);
    hide Pow;
    BitsBelow(b.Value(), Pow(2, amount), bits, amount);
    b.ShiftLeft(amount);
  }

  /** Assigns a power of ten. */
  method AssignPowerOfTen(b: Bignum, k: nat)
    requires b.Valid() && k <= 360
    modifies b, b.bigits
    ensures b.Valid() && b.Value() == Pow(10, k) && b.Value() < Pow(2, 4 * k + 1) && b.Value() > 0
  {
    assert OddPart(10) == 5 && BitSize(5) == 3;
    TenBelowSixteen(k);
    PowPositive(10, k);
    PowPositive(2, 4 * k);
    b.AssignPowerUInt16(10, k);
  }

  function Common(needBoundaryDeltas: bool): nat
  {
    if needBoundaryDeltas then 1 else 0
  }

  method PositiveExponent(significand: uint64, exponent: int, estimatedPower: int, needBoundaryDeltas: bool,
                          numerator: Bignum, denominator: Bignum, deltaMinus: Bignum, deltaPlus: Bignum)
    requires 0 < significand < Pow(2, 53) && 0 <= exponent <= 971 && 0 <= estimatedPower <= 360
    requires AllApart(numerator, denominator, deltaMinus, deltaPlus)
    requires numerator.Valid() && denominator.Valid() && deltaMinus.Valid() && deltaPlus.Valid()
    modifies numerator, numerator.bigits, denominator, denominator.bigits, deltaMinus, deltaMinus.bigits, deltaPlus,
      deltaPlus.bigits
    ensures numerator.Valid() && denominator.Valid() && deltaMinus.Valid() && deltaPlus.Valid()
    ensures numerator.Value() < Pow(2, 2599) && denominator.Value() < Pow(2, 2599)
    ensures numerator.Value() == significand * Pow(2, exponent) * Pow(2, Common(needBoundaryDeltas))
    ensures denominator.Value() == Pow(10, estimatedPower) * Pow(2, Common(needBoundaryDeltas))
    ensures needBoundaryDeltas ==> deltaPlus.Value() == deltaMinus.Value() == Pow(2, exponent) < Pow(2, 2599)
    ensures !needBoundaryDeltas
      ==> deltaPlus.Value() == old(deltaPlus.Value()) && deltaMinus.Value() == old(deltaMinus.Value())
  {
    hide Pow, Val, Scaled;
    Sizes();
    AssignShifted(numerator, significand, exponent);
    AssignPowerOfTen(denominator, estimatedPower);
    Limits(53 + exponent, 4 * estimatedPower + 1, 1 + exponent);
    if needBoundaryDeltas {
      DoubleBoth(denominator, numerator);
      AssignPowersOfTwo(deltaPlus, deltaMinus, exponent);
    }
  }

  method AssignShifted(b: Bignum, significand: uint64, amount: nat)
    requires b.Valid() && significand < Pow(2, 53)
    modifies b, b.bigits
    ensures b.Valid() && b.Value() == significand * Pow(2, amount) < Pow(2, 53 + amount)
  {
    hide Pow, Val, Scaled;
    b.AssignUInt64(significand);
    Shift(b, amount, 53);
  }

  /** Introduces a factor of two, so that the distances to the boundaries are integers. */
  method DoubleBoth(a: Bignum, b: Bignum)
    requires a.Apart(b) && a.Valid() && b.Valid()
    requires a.Value() < Pow(2, 2598) && b.Value() < Pow(2, 2598)
    modifies a, a.bigits, b, b.bigits
    ensures a.Valid() && b.Valid()
    ensures a.Value() == old(a.Value()) * Pow(2, 1) < Pow(2, 2599)
    ensures b.Value() == old(b.Value()) * Pow(2, 1) < Pow(2, 2599)
  {
    hide Pow, Val, Scaled;
    Shift(a, 1, 2598);
    Shift(b, 1, 2598);
  }

  lemma Limits(a: nat, b: nat, c: nat)
    requires a <= 2598 && b <= 2598 && c <= 2598
    ensures Pow(2, a) <= Pow(2, 2598) && Pow(2, b) <= Pow(2, 2598) && Pow(2, c) <= Pow(2, 2598)
    ensures Pow(2, 2598) <= Pow(2, 2599) <= Pow(2, 2600)
  {
    hide Pow;
    PowMonotone(2, a, 2598);
    PowMonotone(2, b, 2598);
    PowMonotone(2, c, 2598);
    PowMonotone(2, 2598, 2599);
    PowMonotone(2, 2599, 2600);
  }

  lemma Sizes()
    ensures Pow(2, 0) == 1 && Pow(2, 1) == 2 && Pow(2, 2) == 4
  {
  }

  /** 2^amount, as the distance to a boundary. */
  method AssignPowerOfTwo(b: Bignum, amount: nat)
    requires b.Valid()
    modifies b, b.bigits
    ensures b.Valid() && b.Value() == Pow(2, amount) < Pow(2, amount + 1) && b.Value() > 0
  {
    Sizes();
    PowPositive(2, amount);
    b.AssignUInt16(1);
    Shift(b, amount, 1);
  }

  /** The distances to both boundaries. */
  method AssignPowersOfTwo(deltaPlus: Bignum, deltaMinus: Bignum, amount: nat)
    requires deltaMinus.Apart(deltaPlus) && deltaPlus.Valid() && deltaMinus.Valid()
    modifies deltaPlus, deltaPlus.bigits, deltaMinus, deltaMinus.bigits
    ensures deltaPlus.Valid() && deltaMinus.Valid()
    ensures deltaPlus.Value() == deltaMinus.Value() == Pow(2, amount) < Pow(2, amount + 1)
  {
    hide Pow, Val, Scaled;
    AssignPowerOfTwo(deltaPlus, amount);
    AssignPowerOfTwo(deltaMinus, amount);
  }

  method NegativeExponentPositivePower(significand: uint64, exponent: int, estimatedPower: int,
                                       needBoundaryDeltas: bool,
                                       numerator: Bignum, denominator: Bignum, deltaMinus: Bignum, deltaPlus: Bignum)
    requires 0 < significand < Pow(2, 53) && -1074 <= exponent < 0 && 0 <= estimatedPower <= 360
    requires AllApart(numerator, denominator, deltaMinus, deltaPlus)
    requires numerator.Valid() && denominator.Valid() && deltaMinus.Valid() && deltaPlus.Valid()
    modifies numerator, numerator.bigits, denominator, denominator.bigits, deltaMinus, deltaMinus.bigits, deltaPlus,
      deltaPlus.bigits
    ensures numerator.Valid() && denominator.Valid() && deltaMinus.Valid() && deltaPlus.Valid()
    ensures numerator.Value() < Pow(2, 2599) && denominator.Value() < Pow(2, 2599)
    ensures numerator.Value() == significand * Pow(2, Common(needBoundaryDeltas))
    ensures denominator.Value() == Pow(10, estimatedPower) * Pow(2, -exponent) * Pow(2, Common(needBoundaryDeltas))
    ensures needBoundaryDeltas ==> deltaPlus.Value() == deltaMinus.Value() == 1 < Pow(2, 2599)
    ensures !needBoundaryDeltas
      ==> deltaPlus.Value() == old(deltaPlus.Value()) && deltaMinus.Value() == old(deltaMinus.Value())
  {
    Sizes();
    hide Pow, Val, Scaled;
    numerator.AssignUInt64(significand);
    AssignPowerOfTen(denominator, estimatedPower);
    Shift(denominator, -exponent, 4 * estimatedPower + 1);
    Limits(53, 4 * estimatedPower + 1 - exponent, 1);
    if needBoundaryDeltas {
      DoubleBoth(denominator, numerator);
      deltaPlus.AssignUInt16(1);
      deltaMinus.AssignUInt16(1);
    }
  }

  method NegativeExponentNegativePower(significand: uint64, exponent: int, estimatedPower: int,
                                       needBoundaryDeltas: bool,
                                       numerator: Bignum, denominator: Bignum, deltaMinus: Bignum, deltaPlus: Bignum)
    requires 0 < significand < Pow(2, 53) && -1074 <= exponent < 0 && -360 <= estimatedPower < 0
    requires AllApart(numerator, denominator, deltaMinus, deltaPlus)
    requires numerator.Valid() && denominator.Valid() && deltaMinus.Valid() && deltaPlus.Valid()
    modifies numerator, numerator.bigits, denominator, denominator.bigits, deltaMinus, deltaMinus.bigits, deltaPlus,
      deltaPlus.bigits
    ensures numerator.Valid() && denominator.Valid() && deltaMinus.Valid() && deltaPlus.Valid()
    ensures numerator.Value() < Pow(2, 2599) && denominator.Value() < Pow(2, 2599)
    ensures numerator.Value() == Pow(10, -estimatedPower) * significand * Pow(2, Common(needBoundaryDeltas))
    ensures denominator.Value() == Pow(2, -exponent) * Pow(2, Common(needBoundaryDeltas))
    ensures needBoundaryDeltas ==> deltaPlus.Value() == deltaMinus.Value() == Pow(10, -estimatedPower) < Pow(2, 2599)
    ensures !needBoundaryDeltas
      ==> deltaPlus.Value() == old(deltaPlus.Value()) && deltaMinus.Value() == old(deltaMinus.Value())
  {
    Sizes();
    hide Pow, Val, Scaled;
    PowMonotone(2, 4 * -estimatedPower + 1, 2000);
    Limits(2000, 2053, -exponent + 1);
    // The numerator serves as the container of the power of ten first.
    CopyPowerOfTen(numerator, -estimatedPower, needBoundaryDeltas, deltaMinus, deltaPlus);
    BitsBelow(numerator.Value(), significand, 2000, 53);
    MultiplySignificand(numerator, significand, 2000);
    AssignPowerOfTwo(denominator, -exponent);
    if needBoundaryDeltas {
      DoubleBoth(numerator, denominator);
    }
  }

  /** The power of ten, and the distances that equal it. */
  method CopyPowerOfTen(powerTen: Bignum, k: nat, needBoundaryDeltas: bool, deltaMinus: Bignum, deltaPlus: Bignum)
    requires powerTen.Apart(deltaMinus) && powerTen.Apart(deltaPlus) && deltaMinus.Apart(deltaPlus)
    requires powerTen.Valid() && deltaMinus.Valid() && deltaPlus.Valid() && k <= 360
    modifies powerTen, powerTen.bigits, deltaMinus, deltaMinus.bigits, deltaPlus, deltaPlus.bigits
    ensures powerTen.Valid() && deltaMinus.Valid() && deltaPlus.Valid()
    ensures powerTen.Value() == Pow(10, k) < Pow(2, 4 * k + 1) && powerTen.Value() > 0
    ensures needBoundaryDeltas ==> deltaPlus.Value() == deltaMinus.Value() == Pow(10, k)
    ensures !needBoundaryDeltas
      ==> deltaPlus.Value() == old(deltaPlus.Value()) && deltaMinus.Value() == old(deltaMinus.Value())
  {
    hide Pow, Val, Scaled;
    AssignPowerOfTen(powerTen, k);
    if needBoundaryDeltas {
      deltaPlus.AssignBignum(powerTen);
      deltaMinus.AssignBignum(powerTen);
    }
  }

  method MultiplySignificand(b: Bignum, significand: uint64, ghost bits: nat)
    requires b.Valid() && b.Value() * significand < Pow(2, bits + 53) && bits <= 2000 && significand > 0
    modifies b, b.bigits
    ensures b.Valid() && b.Value() == old(b.Value()) * significand
  {
    b.MantissaBelowValue();
    PowTwoBase(CAPACITY);
    PowMonotone(2, bits + 53, BIGIT_SIZE * CAPACITY);
    hide Pow, Val, Scaled;
    MulMonotone(b.Mantissa(), b.Value(), significand);
    b.MultiplyByUInt64(significand);
  }

  ghost predicate AllApart(a: Bignum, b: Bignum, c: Bignum, d: Bignum)
  {
    && a.Apart(b) && a.Apart(c) && a.Apart(d)
    && b.Apart(c) && b.Apart(d) && c.Apart(d)
  }

  // ---- The fraction and its meaning ----

  /** m / m' and the scale: x * 2^b against d * 2^b. */
  lemma RatioPositive(f: nat, e: nat, k: nat, b: nat)
    ensures Ratio(f * Pow(2, e) * Pow(2, b), Pow(10, k) * Pow(2, b), Scaled2(f, e), k)
  {
    PowAdd(2, e, SCALE);
    assert TenUp(k) == Pow(10, k) && TenDown(k) == 1;
    RegroupPositive(f, Pow(2, e), Pow(2, b), Pow(10, k), Pow(2, SCALE), Pow(2, e + SCALE));
  }

  lemma RegroupPositive(f: int, x: int, y: int, t: int, s: int, xs: int)
    requires xs == x * s
    ensures ((f * x) * y) * (s * t) == (t * y) * ((f * xs) * 1)
  {
    MulRegroup(f * x, y, s, t);
    MulAssoc(f, x, s);
    assert y * t == t * y;
  }

  lemma RatioNegativePositive(f: nat, e: int, k: nat, b: nat)
    requires -1074 <= e < 0
    ensures Ratio(f * Pow(2, b), Pow(10, k) * Pow(2, -e) * Pow(2, b), Scaled2(f, e), k)
  {
    PowAdd(2, -e, e + SCALE);
    assert TenUp(k) == Pow(10, k) && TenDown(k) == 1;
    RegroupNegative(f, Pow(2, b), Pow(10, k), Pow(2, -e), Pow(2, e + SCALE), Pow(2, SCALE));
  }

  lemma RegroupNegative(f: int, y: int, t: int, x: int, z: int, s: int)
    requires s == x * z
    ensures (f * y) * (s * t) == ((t * x) * y) * ((f * z) * 1)
  {
    calc {
      ((t * x) * y) * (f * z);
      { MulAssoc(t * x, y, f * z); MulAssoc(y, f, z); assert y * f == f * y; }
      (t * x) * ((f * y) * z);
      { MulRegroup(t, x, f * y, z); }
      (t * (f * y)) * (x * z);
      { MulAssoc(f * y, s, t); assert s * t == t * s; MulAssoc(f * y, t, s); assert t * (f * y) == (f * y) * t; }
      (f * y) * (s * t);
    }
  }

  lemma RatioNegativeNegative(f: nat, e: int, k: int, b: nat)
    requires -1074 <= e < 0 && k < 0
    ensures Ratio(Pow(10, -k) * f * Pow(2, b), Pow(2, -e) * Pow(2, b), Scaled2(f, e), k)
  {
    PowAdd(2, -e, e + SCALE);
    assert TenUp(k) == 1 && TenDown(k) == Pow(10, -k);
    RegroupBothNegative(f, Pow(2, b), Pow(10, -k), Pow(2, -e), Pow(2, e + SCALE), Pow(2, SCALE));
  }

  lemma RegroupBothNegative(f: int, y: int, t: int, x: int, z: int, s: int)
    requires s == x * z
    ensures ((t * f) * y) * (s * 1) == (x * y) * ((f * z) * t)
  {
    calc {
      (x * y) * ((f * z) * t);
      { MulAssoc(f, z, t); assert z * t == t * z; MulAssoc(f, t, z); assert f * t == t * f; }
      (x * y) * ((t * f) * z);
      { assert x * y == y * x; MulRegroup(y, x, t * f, z); assert y * (t * f) == (t * f) * y; }
      ((t * f) * y) * (x * z);
    }
  }

  /** Doubling numerator and denominator changes nothing; doubling only the denominator halves the number. */
  lemma RatioDouble(n: int, d: int, x: int, p: int)
    requires Ratio(n, d, x, p)
    ensures Ratio(n * 2, d * 2, x, p)
  {
    var a, y := Pow(2, SCALE) * TenUp(p), x * TenDown(p);
    assert (n * 2) * a == (n * a) * 2;
    assert (d * 2) * y == (d * y) * 2;
  }

  lemma RatioHalve(n: int, d: int, x: int, p: int)
    requires Ratio(n, d, 2 * x, p)
    ensures Ratio(n, d * 2, x, p)
  {
    var v := TenDown(p);
    assert (d * 2) * (x * v) == d * ((2 * x) * v) by {
      MulAssoc(2, x, v);
      MulAssoc(d, 2, x * v);
    }
  }

  /** The distance to the boundary is half a unit of the last place: numerator 1 at exponent e - 1. */
  lemma HalfUnit(e: int)
    requires e >= -1074
    ensures Scaled2(1, e) == 2 * UpperGap(e) && UpperGap(e) == LowerGap(e, false)
    ensures UpperGap(e) == 2 * LowerGap(e, true)
    ensures LowerGap(e, true) > 0
  {
    PowPositive(2, e + SCALE - 2);
  }

  lemma RatioDeltaPositive(e: nat, k: nat)
    ensures Ratio(Pow(2, e), Pow(10, k) * Pow(2, 1), UpperGap(e), k)
  {
    assert Pow(2, 0) == 1 && Pow(2, 1) == 2;
    RatioPositive(1, e, k, 0);
    HalfUnit(e);
    RatioHalve(Pow(2, e), Pow(10, k), UpperGap(e), k);
  }

  lemma RatioDeltaNegativePositive(e: int, k: nat)
    requires -1074 <= e < 0
    ensures Ratio(1, Pow(10, k) * Pow(2, -e) * Pow(2, 1), UpperGap(e), k)
  {
    assert Pow(2, 0) == 1 && Pow(2, 1) == 2;
    RatioNegativePositive(1, e, k, 0);
    HalfUnit(e);
    RatioHalve(1, Pow(10, k) * Pow(2, -e), UpperGap(e), k);
  }

  lemma RatioDeltaNegativeNegative(e: int, k: int)
    requires -1074 <= e < 0 && k < 0
    ensures Ratio(Pow(10, -k), Pow(2, -e) * Pow(2, 1), UpperGap(e), k)
  {
    assert Pow(2, 0) == 1 && Pow(2, 1) == 2;
    RatioNegativeNegative(1, e, k, 0);
    HalfUnit(e);
    RatioHalve(Pow(10, -k), Pow(2, -e), UpperGap(e), k);
  }

  /** The start values stand for v / 10^estimatedPower and, if asked for, for the distances to its boundaries. */
  ghost predicate Represents(num: nat, den: nat, dm: nat, dp: nat, f: nat, e: int, closer: bool, needDeltas: bool,
                             p: int)
    requires e >= -1074
  {
    && den > 0
    && Ratio(num, den, Scaled2(f, e), p)
    && (needDeltas ==> Ratio(dm, den, LowerGap(e, closer), p) && Ratio(dp, den, UpperGap(e), p))
  }

  method UnadjustedStartValues(significand: uint64, exponent: int, estimatedPower: int, needBoundaryDeltas: bool,
                               numerator: Bignum, denominator: Bignum, deltaMinus: Bignum, deltaPlus: Bignum)
    requires 0 < significand < Pow(2, 53) && -1074 <= exponent <= 971
      && PowerEstimate(significand, exponent, estimatedPower)
    requires AllApart(numerator, denominator, deltaMinus, deltaPlus)
    requires numerator.Valid() && denominator.Valid() && deltaMinus.Valid() && deltaPlus.Valid()
    modifies numerator, numerator.bigits, denominator, denominator.bigits, deltaMinus, deltaMinus.bigits, deltaPlus,
      deltaPlus.bigits
    ensures numerator.Valid() && denominator.Valid() && deltaMinus.Valid() && deltaPlus.Valid()
    ensures numerator.Value() < Pow(2, 2599) && denominator.Value() < Pow(2, 2599)
    ensures needBoundaryDeltas ==> deltaPlus.Value() == deltaMinus.Value() < Pow(2, 2599)
    ensures !needBoundaryDeltas
      ==> deltaPlus.Value() == old(deltaPlus.Value()) && deltaMinus.Value() == old(deltaMinus.Value())
    ensures Represents(numerator.Value(), denominator.Value(), deltaMinus.Value(), deltaPlus.Value(),
                       significand, exponent, false, needBoundaryDeltas, estimatedPower)
  {
    EstimateRange(significand, exponent, estimatedPower);
    HalfUnit(exponent);
    hide Pow, Val, Scaled, Ratio, Scaled2, UpperGap, LowerGap, PowerEstimate;
    ghost var b := Common(needBoundaryDeltas);
    PowPositive(2, b);
    if exponent >= 0 {
      PositiveExponent(significand, exponent, estimatedPower, needBoundaryDeltas, numerator, denominator, deltaMinus,
                       deltaPlus);
      RatioPositive(significand, exponent, estimatedPower, b);
      RatioDeltaPositive(exponent, estimatedPower);
      PowPositive(10, estimatedPower);
      MulPositive(Pow(10, estimatedPower), Pow(2, b));
    } else if estimatedPower >= 0 {
      NegativeExponentPositivePower(significand, exponent, estimatedPower, needBoundaryDeltas, numerator, denominator,
                                    deltaMinus, deltaPlus);
      RatioNegativePositive(significand, exponent, estimatedPower, b);
      RatioDeltaNegativePositive(exponent, estimatedPower);
      PowPositive(10, estimatedPower);
      PowPositive(2, -exponent);
      MulPositive(Pow(10, estimatedPower), Pow(2, -exponent));
      MulPositive(Pow(10, estimatedPower) * Pow(2, -exponent), Pow(2, b));
    } else {
      NegativeExponentNegativePower(significand, exponent, estimatedPower, needBoundaryDeltas, numerator, denominator,
                                    deltaMinus, deltaPlus);
      RatioNegativeNegative(significand, exponent, estimatedPower, b);
      RatioDeltaNegativeNegative(exponent, estimatedPower);
      PowPositive(2, -exponent);
      MulPositive(Pow(2, -exponent), Pow(2, b));
    }
  }

  method DoubleAll(a: Bignum, b: Bignum, c: Bignum)
    requires a.Apart(b) && a.Apart(c) && b.Apart(c) && a.Valid() && b.Valid() && c.Valid()
    requires a.Value() < Pow(2, 2599) && b.Value() < Pow(2, 2599) && c.Value() < Pow(2, 2599)
    modifies a, a.bigits, b, b.bigits, c, c.bigits
    ensures Roomy(a) && Roomy(b) && Roomy(c)
    ensures a.Value() == old(a.Value()) * 2 && b.Value() == old(b.Value()) * 2 && c.Value() == old(c.Value()) * 2
  {
    Sizes();
    hide Pow, Val, Scaled;
    Shift(a, 1, 2599);
    Shift(b, 1, 2599);
    Shift(c, 1, 2599);
  }

  /** Computes v / 10^estimatedPower as a fraction, together with the distances of v to its boundaries. */
  method InitialScaledStartValues(significand: uint64, exponent: int, lowerBoundaryIsCloser: bool, estimatedPower: int,
                                  needBoundaryDeltas: bool,
                                  numerator: Bignum, denominator: Bignum, deltaMinus: Bignum, deltaPlus: Bignum)
    requires FloatParts(significand, exponent, lowerBoundaryIsCloser)
      && PowerEstimate(significand, exponent, estimatedPower)
    requires AllApart(numerator, denominator, deltaMinus, deltaPlus)
    requires numerator.Valid() && denominator.Valid() && deltaMinus.Valid() && deltaPlus.Valid()
    modifies numerator, numerator.bigits, denominator, denominator.bigits, deltaMinus, deltaMinus.bigits, deltaPlus,
      deltaPlus.bigits
    ensures Roomy(numerator) && Roomy(denominator) && deltaMinus.Valid() && deltaPlus.Valid()
    ensures needBoundaryDeltas ==> Roomy(deltaMinus) && Roomy(deltaPlus)
    ensures !needBoundaryDeltas
      ==> deltaPlus.Value() == old(deltaPlus.Value()) && deltaMinus.Value() == old(deltaMinus.Value())
    ensures Represents(numerator.Value(), denominator.Value(), deltaMinus.Value(), deltaPlus.Value(),
                       significand, exponent, lowerBoundaryIsCloser, needBoundaryDeltas, estimatedPower)
  {
    HalfUnit(exponent);
    Sizes();
    PowMonotone(2, 2599, 2600);
    hide Pow, Val, Scaled, Ratio, Scaled2, UpperGap, LowerGap, PowerEstimate;
    UnadjustedStartValues(significand, exponent, estimatedPower, needBoundaryDeltas, numerator, denominator, deltaMinus,
                          deltaPlus);
    if needBoundaryDeltas && lowerBoundaryIsCloser {
      ghost var n, d, m := numerator.Value(), denominator.Value(), deltaMinus.Value();
      RatioDouble(n, d, Scaled2(significand, exponent), estimatedPower);
      RatioDouble(m, d, UpperGap(exponent), estimatedPower);
      RatioHalve(m, d, LowerGap(exponent, true), estimatedPower);
      // The lower boundary is at half the distance: everything but that distance is doubled.
      DoubleAll(denominator, numerator, deltaPlus);
    }
  }
}
