/** Grisu3: the fast printer of shortest digits, from the parts of a double to digits and decimal point. */
module Grisu {
  import opened Arith
  import opened Machine
  import opened Digits
  import opened DecimalOrder
  import opened PrintSpec
  import opened StartValues
  import opened Ieee
  import opened BignumDtoa
  import opened DiyFps
  import opened DigitGeneration = FastDtoa
  import opened FastCounted
  import opened GrisuTheory

  // ---- Normalised numbers and boundaries ----

  /** x * 2^-(sh) is the scaled number of significand x and exponent e - sh. */
  ghost predicate StandsFor(x: nat, sh: nat, e: int, v: int)
    requires e >= -1074
  {
    x * Pow(2, e + SCALE) == v * Pow(2, sh)
  }

  /** The significand of a positive double, and its exponent, with the leading bit in front. */
  method AsNormalizedDiyFp(significand: uint64, exponent: int) returns (w: DiyFp)
    requires 0 < significand < Pow(2, 53)
    ensures fresh(w) && w.e + 11 <= exponent
    ensures w.f == significand * Pow(2, exponent - w.e) && Fills(significand, exponent - w.e)
  {
    HiddenBit();
    assert Pow(2, 0) == 1;
    hide Pow;
    var f: uint64 := significand;
    var e := exponent;
    while f < HIDDEN_BIT
      invariant 0 < f < 2 * HIDDEN_BIT && e <= exponent && f == significand * Pow(2, exponent - e)
      decreases HIDDEN_BIT - f
    {
      ShiftMore(significand, exponent - e, 1, 2);
      f := f * 2;
      e := e - 1;
      assert exponent - e == exponent - (e + 1) + 1;
    }
    ShiftMore(significand, exponent - e, 10, 1024);
    ShiftMore(significand, exponent - e + 10, 1, 2);
    f := f * 2048;
    e := e - 11;
    assert exponent - e == exponent - (e + 11) + 10 + 1;
    w := new DiyFp(f, e);
  }

  /** Doubling and halving around the significand. */
  lemma BoundaryShifts(f: nat, sh: nat)
    requires f > 0 && sh >= 11 && Fills(f, sh)
    ensures Pow(2, sh) == 4 * Pow(2, sh - 2) && Pow(2, sh - 1) == 2 * Pow(2, sh - 2) && Pow(2, sh - 2) >= 512
    ensures (2 * f + 1) * Pow(2, sh - 1) == f * Pow(2, sh) + Pow(2, sh - 1)
    ensures (2 * f - 1) * Pow(2, sh - 1) == f * Pow(2, sh) - Pow(2, sh - 1)
    ensures (4 * f - 1) * Pow(2, sh - 2) == f * Pow(2, sh) - Pow(2, sh - 2)
    ensures f * Pow(2, sh) + Pow(2, sh) <= TWO_64
  {
    PowMonotone(2, 9, sh - 2);
    assert Pow(2, 9) == 512;
    var p := Pow(2, sh - 2);
    assert Pow(2, sh) == 4 * p && Pow(2, sh - 1) == 2 * p;
    FillsRoom(f, sh);
    hide *;
    BoundaryProducts(f, p);
  }

  lemma BoundaryProducts(f: int, p: int)
    ensures (2 * f + 1) * (2 * p) == f * (4 * p) + 2 * p && (2 * f - 1) * (2 * p) == f * (4 * p) - 2 * p
    ensures (4 * f - 1) * p == f * (4 * p) - p && (f + 1) * (4 * p) == f * (4 * p) + 4 * p
  {
  }

  /** Even the next significand does not overflow past the top. */
  lemma FillsRoom(f: nat, sh: nat)
    requires Fills(f, sh)
    ensures sh <= 64 && (f + 1) * Pow(2, sh) <= TWO_64
  {
    LargePowers();
    if sh > 64 {
      PowMonotone(2, 64, sh);
      MulMonotone(1, f, Pow(2, sh));
    }
    PowAdd(2, 64 - sh, sh);
    PowPositive(2, sh);
    hide Pow;
    if f + 1 > Pow(2, 64 - sh) {
      MulMonotone(Pow(2, 64 - sh), f, Pow(2, sh));
    }
    MulMonotone(f + 1, Pow(2, 64 - sh), Pow(2, sh));
  }

  /** The boundaries of a double, with the same exponent as the normalised double. */
  method NormalizedBoundaries(significand: uint64, exponent: int, lowerBoundaryIsCloser: bool, ghost sh: nat)
    returns (mMinus: DiyFp, mPlus: DiyFp)
    requires 0 < significand < Pow(2, 53) && sh >= 11 && Fills(significand, sh)
    ensures fresh(mMinus) && fresh(mPlus) && mMinus.e == mPlus.e == exponent - sh
    ensures mPlus.f == significand * Pow(2, sh) + Pow(2, sh - 1)
    ensures mMinus.f == significand * Pow(2, sh) - Pow(2, if lowerBoundaryIsCloser then sh - 2 else sh - 1)
  {
    BoundaryShifts(significand, sh);
    HiddenBit();
    hide Pow;
    mPlus := new DiyFp(significand * 2 + 1, exponent - 1);
    mPlus.Normalize();
    FillsOnce(2 * significand + 1, sh - 1, exponent - 1 - mPlus.e);
    if lowerBoundaryIsCloser {
      mMinus := new DiyFp(significand * 4 - 1, exponent - 2);
    } else {
      mMinus := new DiyFp(significand * 2 - 1, exponent - 1);
    }
    mMinus.f := mMinus.f * Pow(2, mMinus.e - mPlus.e);
    mMinus.e := mPlus.e;
  }

  // ---- The scaled numbers are right up to one unit ----

  /** The significand c at exponent e is 10^mk, rounded to 64 bits. */
  ghost predicate CachedPower(c: nat, e: int, mk: int)
  {
    && TWO_63 <= c < TWO_64 && -1220 <= e <= 1066
    && var p, t := Pow(2, Max(e, 0)) * TenDown(mk), TenUp(mk) * Pow(2, Max(-e, 0));
       -p <= 2 * (c * p) - 2 * t <= p
  }

  /** The exponent of the product is in the range that the digit generation needs. */
  predicate InTargetRange(e: int)
  {
    -60 <= e <= -32
  }

  /** Rounding the power and rounding the product cost less than one unit together. */
  lemma ErrorSum(x: nat, y: int, c: nat, p: nat, t: nat, m1: nat, m2: nat)
    requires p > 0 && m2 > 0 && x < TWO_64 && 0 - p <= 2 * (c * p) - 2 * t <= p
    requires m1 * (TWO_64 * p) == t * m2 && y * TWO_64 <= x * c + TWO_63 < (y + 1) * TWO_64
    ensures (y - 1) * m2 < x * m1 < (y + 1) * m2
  {
    PowerError(x, c, p, t);
    assert (x * m1) * (TWO_64 * p) == (x * t) * m2 by {
      MulAssoc(x, m1, TWO_64 * p);
      MulAssoc(x, t, m2);
    }
    hide *;
    UpperBound(x * m1, x * t, 2 * (x * c) + x, y + 1, p, m2);
    LowerBound(x * m1, x * t, 2 * (x * c) - x, y - 1, p, m2);
  }

  lemma PowerError(x: int, c: int, p: int, t: int)
    requires x >= 0 && -p <= 2 * (c * p) - 2 * t <= p
    ensures (2 * (x * c) - x) * p <= 2 * (x * t) <= (2 * (x * c) + x) * p
  {
    MulMonotone(2 * t, 2 * (c * p) + p, x);
    MulMonotone(2 * (c * p) - p, 2 * t, x);
    MulAssoc(x, c, p);
    assert x * (2 * (c * p) + p) == 2 * (x * (c * p)) + x * p;
    assert x * (2 * (c * p) - p) == 2 * (x * (c * p)) - x * p;
    assert (2 * (x * c) + x) * p == 2 * ((x * c) * p) + x * p;
    assert (2 * (x * c) - x) * p == 2 * ((x * c) * p) - x * p;
  }

  lemma UpperBound(z: int, s: int, r: int, y: int, p: int, m: int)
    requires p > 0 && m > 0 && z * (TWO_64 * p) == s * m && 2 * s <= r * p && r < 2 * TWO_64 * y
    ensures z < y * m
  {
    MulMonotone(2 * s, r * p, m);
    MulPositive(p, m);
    MulStrict(r, 2 * TWO_64 * y, p * m);
    MulAssoc(r, p, m);
    assert (2 * TWO_64 * y) * (p * m) == 2 * ((y * m) * (TWO_64 * p)) by {
      UnitRegroup(y, p, m);
    }
    MulCancelStrict(z, y * m, TWO_64 * p);
  }

  lemma LowerBound(z: int, s: int, r: int, y: int, p: int, m: int)
    requires p > 0 && m > 0 && z * (TWO_64 * p) == s * m && 2 * s >= r * p && r > 2 * TWO_64 * y
    ensures z > y * m
  {
    MulMonotone(r * p, 2 * s, m);
    MulPositive(p, m);
    MulStrict(2 * TWO_64 * y, r, p * m);
    MulAssoc(r, p, m);
    assert (2 * TWO_64 * y) * (p * m) == 2 * ((y * m) * (TWO_64 * p)) by {
      UnitRegroup(y, p, m);
    }
    MulCancelStrict(y * m, z, TWO_64 * p);
  }

  lemma UnitRegroup(y: int, p: int, m: int)
    ensures (2 * TWO_64 * y) * (p * m) == 2 * ((y * m) * (TWO_64 * p))
  {
    MulRegroup(y, m, TWO_64, p);
    MulAssoc(TWO_64, y, p * m);
    assert (y * TWO_64) * (m * p) == (TWO_64 * y) * (p * m);
  }

  /** The powers of two of both sides cancel. */
  lemma TwosRegroup(e: int, sh: nat, ce: int, q: nat)
    requires e >= -1074 && q == 0 - (e - sh + ce + 64)
    ensures e + SCALE + q >= 0
    ensures Pow(2, e + SCALE + q) * (TWO_64 * Pow(2, Max(ce, 0))) == Pow(2, Max(-ce, 0)) * Pow(2, SCALE + sh)
  {
    LargePowers();
    PowAdd(2, 64, Max(ce, 0));
    PowAdd(2, e + SCALE + q, 64 + Max(ce, 0));
    PowAdd(2, Max(-ce, 0), SCALE + sh);
    assert e + SCALE + q + 64 + Max(ce, 0) == Max(-ce, 0) + (SCALE + sh);
  }

  lemma KeyRatio(u: nat, d: nat, two1: nat, two2: nat, up: nat, down: nat)
    requires two1 * (TWO_64 * up) == down * two2
    ensures (two1 * u) * (TWO_64 * (up * d)) == (u * down) * (two2 * d)
  {
    MulAssoc(TWO_64, up, d);
    MulRegroup(two1, u, TWO_64 * up, d);
    MulRegroup(u, down, d, two2);
    assert (two1 * (TWO_64 * up)) * (u * d) == (u * d) * (down * two2);
  }

  /** A significand times a cached power, rounded, is the scaled number up to one unit. */
  lemma ProductWithin(x: nat, sh: nat, e: int, v: int, c: nat, ce: int, mk: int, y: nat, q: nat)
    requires e >= -1074 && x < TWO_64 && StandsFor(x, sh, e, v) && CachedPower(c, ce, mk)
    requires RoundedProduct(x, c, y) && q == 0 - (e - sh + ce + 64)
    ensures Within(v, y, 1, mk, q)
  {
    TwosRegroup(e, sh, ce, q);
    TensPositive(mk);
    var p, t := Pow(2, Max(ce, 0)) * TenDown(mk), TenUp(mk) * Pow(2, Max(-ce, 0));
    var m1, m2 := Pow(2, e + SCALE + q) * TenUp(mk), Pow(2, SCALE + sh) * TenDown(mk);
    PowPositive(2, Max(ce, 0));
    PowPositive(2, SCALE + sh);
    PowPositive(2, sh);
    PowAdd(2, e + SCALE, q);
    PowAdd(2, SCALE, sh);
    hide Pow, TenUp, TenDown;
    MulPositive(Pow(2, Max(ce, 0)), TenDown(mk));
    MulPositive(Pow(2, SCALE + sh), TenDown(mk));
    KeyRatio(TenUp(mk), TenDown(mk), Pow(2, e + SCALE + q), Pow(2, SCALE + sh), Pow(2, Max(ce, 0)),
             Pow(2, Max(-ce, 0)));
    ErrorSum(x, y, c, p, t, m1, m2);
    Unshift(x, v, y, Pow(2, e + SCALE), Pow(2, q), Pow(2, SCALE), Pow(2, sh), TenUp(mk), TenDown(mk));
  }

  lemma Unshift(x: nat, v: int, y: int, two: nat, twoQ: nat, scale: nat, shift: nat, up: nat, down: nat)
    requires shift > 0 && x * two == v * shift
    requires (y - 1) * ((scale * shift) * down) < x * ((two * twoQ) * up) < (y + 1) * ((scale * shift) * down)
    ensures (y - 1) * (scale * down) < v * (up * twoQ) < (y + 1) * (scale * down)
  {
    assert x * ((two * twoQ) * up) == (v * (up * twoQ)) * shift by {
      MulAssoc(two, twoQ, up);
      MulAssoc(x, two, twoQ * up);
      MulAssoc(v, shift, twoQ * up);
      MulAssoc(v, twoQ * up, shift);
    }
    assert (scale * shift) * down == (scale * down) * shift by {
      MulAssoc(scale, shift, down);
      MulAssoc(scale, down, shift);
    }
    MulAssoc(y - 1, scale * down, shift);
    MulAssoc(y + 1, scale * down, shift);
    MulCancelStrict((y - 1) * (scale * down), v * (up * twoQ), shift);
    MulCancelStrict(v * (up * twoQ), (y + 1) * (scale * down), shift);
  }

  /** The normalised double and its boundaries on the scale of DecimalOrder. */
  lemma NormalizedStandFor(f: nat, e: int, closer: bool, sh: nat)
    requires e >= -1074 && sh >= 2
    ensures var p := Pow(2, sh);
            && StandsFor(f * p, sh, e, Scaled2(f, e))
            && (f * p + Pow(2, sh - 1) >= 0 ==> StandsFor(f * p + Pow(2, sh - 1), sh, e, Scaled2(f, e) + UpperGap(e)))
            && (f * p - Pow(2, if closer then sh - 2 else sh - 1) >= 0 ==>
                  StandsFor(f * p - Pow(2, if closer then sh - 2 else sh - 1), sh, e,
                            Scaled2(f, e) - LowerGap(e, closer)))
  {
    var d, g := Pow(2, sh - 2), Pow(2, e + SCALE - 2);
    assert Pow(2, sh) == 4 * d && Pow(2, sh - 1) == 2 * d;
    assert Pow(2, e + SCALE) == 4 * g && Pow(2, e + SCALE - 1) == 2 * g;
    hide Pow;
    Quarters(f, 2, d, g);
    Quarters(f, -1, d, g);
    Quarters(f, -2, d, g);
    Quarters(f, 0, d, g);
  }

  /** f and n quarters, times either power. */
  lemma Quarters(f: int, n: int, d: int, g: int)
    ensures (f * (4 * d) + n * d) * (4 * g) == (f * (4 * g) + n * g) * (4 * d)
  {
    assert f * (4 * d) + n * d == (4 * f + n) * d && f * (4 * g) + n * g == (4 * f + n) * g;
    MulAssoc(4 * f + n, d, 4 * g);
    MulAssoc(4 * f + n, g, 4 * d);
  }

  /** Products of significands at least four apart are themselves apart. */
  lemma ProductsApart(x: nat, x': nat, c: nat, y: nat, y': nat)
    requires x + 4 <= x' && TWO_63 <= c && RoundedProduct(x, c, y) && RoundedProduct(x', c, y')
    ensures y < y'
  {
    MulMonotone(x + 4, x', c);
    assert (x + 4) * c == x * c + 4 * c;
  }

  lemma ProductLarge(x: nat, c: nat, y: nat)
    requires TWO_63 <= x && TWO_63 <= c && RoundedProduct(x, c, y)
    ensures y >= 0x4000_0000_0000_0000
  {
    MulMonotone(TWO_63, x, c);
  }

  const NINE_DIGITS_TWICE: nat := 0x20_0000_0000_0000

  /** The interval is at least 2^-53 of its upper end, so seventeen digits suffice. */
  lemma RoomForSeventeen(xl: nat, xh: nat, c: nat, low: nat, high: nat)
    requires RoundedProduct(xl, c, low) && RoundedProduct(xh, c, high)
    requires xl <= xh <= NINE_DIGITS_TWICE * (xh - xl) && low <= high
    ensures EnoughRoom(low, high, 17)
  {
    var n := NINE_DIGITS_TWICE;
    assert (high - low + 1) * TWO_64 >= (xh - xl) * c;
    MulMonotone(xh, n * (xh - xl), c);
    MulAssoc(n, xh - xl, c);
    assert n * (high - low + 1) >= high;
    assert Pow(10, 16) == 10000000000000000 by {
      assert Pow(10, 4) == 10000;
      PowAdd(10, 4, 4);
      PowAdd(10, 8, 8);
    }
  }

  /** The boundaries lie far enough apart. */
  lemma WideInterval(f: nat, closer: bool, sh: nat, xl: nat, xh: nat)
    requires 0 < f < Pow(2, 53) && (closer ==> f <= Pow(2, 52)) && sh >= 11 && Fills(f, sh)
    requires xh == f * Pow(2, sh) + Pow(2, sh - 1)
    requires xl == f * Pow(2, sh) - Pow(2, if closer then sh - 2 else sh - 1)
    ensures xl <= xh <= NINE_DIGITS_TWICE * (xh - xl)
  {
    BoundaryShifts(f, sh);
    HiddenBit();
    var d := Pow(2, sh - 2);
    hide Pow;
    assert xh == (4 * f + 2) * d;
    if closer {
      assert xh - xl == 3 * d;
      MulMonotone(4 * f + 2, 3 * NINE_DIGITS_TWICE, d);
    } else {
      assert xh - xl == 4 * d;
      MulMonotone(4 * f + 2, 4 * NINE_DIGITS_TWICE, d);
    }
  }

  // ---- The printer ----

  /** The scaled double and its scaled boundaries are what the digit generation asks for. */
  lemma Prepared(f: nat, e: int, closer: bool, sh: nat, c: nat, ce: int, mk: int, xl: nat, x: nat, xh: nat,
                 low: nat, w: nat, high: nat, q: nat)
    requires FloatParts(f, e, closer) && sh >= 11 && Fills(f, sh) && CachedPower(c, ce, mk)
    requires x == f * Pow(2, sh) && xh == x + Pow(2, sh - 1) && xl == x - Pow(2, if closer then sh - 2 else sh - 1)
    requires RoundedProduct(xl, c, low) && RoundedProduct(x, c, w) && RoundedProduct(xh, c, high)
    requires q == 0 - (e - sh + ce + 64) && 32 <= q <= 60 && xh < TWO_64
    ensures GenInputs(low, w, high, q) && EnoughRoom(low, high, 17)
    ensures GrisuTheory.Scaled(low, w, high, Scaled2(f, e), LowerGap(e, closer), UpperGap(e), mk, q)
  {
    NormalizedStandFor(f, e, closer, sh);
    ProductWithin(xl, sh, e, Scaled2(f, e) - LowerGap(e, closer), c, ce, mk, low, q);
    ProductWithin(x, sh, e, Scaled2(f, e), c, ce, mk, w, q);
    ProductWithin(xh, sh, e, Scaled2(f, e) + UpperGap(e), c, ce, mk, high, q);
    BoundaryShifts(f, sh);
    WideInterval(f, closer, sh, xl, xh);
    assert TWO_63 <= c < TWO_64 && x >= TWO_63 && xl >= TWO_63 / 2;
    hide Pow, Within, StandsFor, EnoughRoom, CachedPower;
    ProductsApart(xl, x, c, low, w);
    ProductsApart(x, xh, c, w, high);
    ProductLarge(xh, c, high);
    ProductPositive(xl, c, low);
    ProductFits(xh, c, high);
    RoomForSeventeen(xl, xh, c, low, high);
  }

  lemma ProductPositive(x: nat, c: nat, y: nat)
    requires TWO_63 / 2 <= x && TWO_63 <= c && RoundedProduct(x, c, y)
    ensures y > 0
  {
    MulMonotone(TWO_63 / 2, x, c);
  }

  /** A kept result has no more than seventeen digits. */
  lemma SeventeenAtMost(low: nat, w: nat, high: nat, q: nat, s: string, kappa: int)
    requires 0 < low <= high && EnoughRoom(low, high, 17) && GrisuResult(low, w, high, q, s, kappa)
    ensures |s| <= 17
  {
    if |s| > 17 {
      var unit, ten, D := TenDown(kappa), TenUp(kappa) * Pow(2, q), Decimal(s);
      var h, l := (high + 1) * unit, (low - 1) * unit;
      TensPositive(kappa);
      PowPositive(2, q);
      MulPositive(TenUp(kappa), Pow(2, q));
      NoLeadingPower(s);
      PowMonotone(10, 17, |s| - 1);
      assert Pow(10, 17) == Pow(10, 16) * 10;
      hide Pow, TenUp, TenDown, Decimal, Weeded, GrisuResult;
      TooLong(low, high, unit, ten, D, Pow(10, 16));
    }
  }

  lemma TooLong(low: nat, high: nat, unit: nat, ten: nat, d: nat, p: nat)
    requires 0 < low <= high && unit > 0 && ten > 0 && high + 1 < (high - low + 2) * p
    requires NoMultiple((low - 1) * unit, (high + 1) * unit, 10 * ten) && d * ten <= (high + 1) * unit
    ensures d < p * 10
  {
    var h, l, g := (high + 1) * unit, (low - 1) * unit, (high - low + 2) * unit;
    assert g == h - l;
    assert g <= 10 * ten;
    MulStrict(high + 1, (high - low + 2) * p, unit);
    assert ((high - low + 2) * p) * unit == g * p by {
      MulAssoc(high - low + 2, p, unit);
      MulAssoc(high - low + 2, unit, p);
    }
    assert (p * 10) * ten == (10 * ten) * p;
    MulMonotone(g, 10 * ten, p);
    if p * 10 <= d {
      MulMonotone(p * 10, d, ten);
    }
  }

  lemma RoomMonotone(low: nat, high: nat, m: nat, n: nat)
    requires low <= high && m <= n && EnoughRoom(low, high, m)
    ensures EnoughRoom(low, high, n)
  {
    PowMonotone(10, m - 1, n - 1);
    MulMonotone(Pow(10, m - 1), Pow(10, n - 1), high - low + 2);
  }

  /** What the digit generation keeps is what the printers promise. */
  lemma KeptIsPrinted(f: nat, e: int, closer: bool, mk: int, low: nat, w: nat, high: nat, q: nat, s: string, kappa: int)
    requires FloatParts(f, e, closer) && GenInputs(low, w, high, q) && EnoughRoom(low, high, 17)
    requires GrisuTheory.Scaled(low, w, high, Scaled2(f, e), LowerGap(e, closer), UpperGap(e), mk, q)
    requires GrisuResult(low, w, high, q, s, kappa)
    ensures Printed(f, e, closer, ShortestMode, 0, s, |s| - mk + kappa)
  {
    hide GrisuTheory.Scaled, EnoughRoom;
    SeventeenAtMost(low, w, high, q, s, kappa);
    GrisuIsShortest(low, w, high, q, s, kappa, Scaled2(f, e), LowerGap(e, closer), UpperGap(e), mk, f % 2 == 0);
    assert |s| + kappa - mk == |s| - mk + kappa;
    hide GrisuResult, Gap, InInterval, AtLeastAsClose, Pow;
  }

  /** Generates shortest digits with a cached power of ten near the inverse of the number. */
  method Grisu3(significand: uint64, exponent: int, lowerBoundaryIsCloser: bool, tenMk: DiyFp, mk: int,
                buffer: array<char>)
    returns (ok: bool, length: nat, decimalExponent: int)
    requires FloatParts(significand, exponent, lowerBoundaryIsCloser) && buffer.Length >= 17
    requires CachedPower(tenMk.f, tenMk.e, mk)
    requires forall sh: nat :: Fills(significand, sh) ==> InTargetRange(exponent - sh + tenMk.e + 64)
    modifies buffer
    ensures length <= buffer.Length
    ensures ok ==> Printed(significand, exponent, lowerBoundaryIsCloser, ShortestMode, 0, buffer[..length],
                           length + decimalExponent)
  {
    hide Pow, CachedPower, Printed, GrisuResult;
    var w := AsNormalizedDiyFp(significand, exponent);
    ghost var sh: nat := exponent - w.e;
    var boundaryMinus, boundaryPlus := NormalizedBoundaries(significand, exponent, lowerBoundaryIsCloser, sh);
    var scaledW := DiyFp.Times(w, tenMk);
    var scaledMinus := DiyFp.Times(boundaryMinus, tenMk);
    var scaledPlus := DiyFp.Times(boundaryPlus, tenMk);
    var q: nat := 0 - scaledW.e;
    Prepared(significand, exponent, lowerBoundaryIsCloser, sh, tenMk.f, tenMk.e, mk,
             boundaryMinus.f, w.f, boundaryPlus.f, scaledMinus.f, scaledW.f, scaledPlus.f, q);
    RoomMonotone(scaledMinus.f, scaledPlus.f, 17, buffer.Length);
    var kappa;
    ok, length, kappa := DigitGen(scaledMinus.f, scaledW.f, scaledPlus.f, q, buffer);
    decimalExponent := kappa - mk;
    if ok {
      KeptIsPrinted(significand, exponent, lowerBoundaryIsCloser, mk, scaledMinus.f, scaledW.f, scaledPlus.f, q,
                    buffer[..length], kappa);
      assert |buffer[..length]| - mk + kappa == length + decimalExponent;
    }
  }

  /** Generates as many digits as requested with a cached power of ten near the inverse of the number. */
  method Grisu3Counted(significand: uint64, exponent: int, requestedDigits: nat, tenMk: DiyFp, mk: int,
                       buffer: array<char>)
    returns (ok: bool, length: nat, decimalExponent: int)
    requires 0 < significand < Pow(2, 53) && exponent >= -1074 && 0 < requestedDigits <= buffer.Length
    requires CachedPower(tenMk.f, tenMk.e, mk)
    requires forall sh: nat :: Fills(significand, sh) ==> InTargetRange(exponent - sh + tenMk.e + 64)
    modifies buffer
    ensures length <= requestedDigits
    ensures ok ==> length == requestedDigits
                   && SignificantDigits(Scaled2(significand, exponent), buffer[..length], length + decimalExponent)
  {
    hide Pow, CachedPower, SignificantDigits, KeptCount;
    var w := AsNormalizedDiyFp(significand, exponent);
    ghost var sh: nat := exponent - w.e;
    var scaledW := DiyFp.Times(w, tenMk);
    var q: nat := 0 - scaledW.e;
    PreparedCounted(significand, exponent, sh, tenMk.f, tenMk.e, mk, w.f, scaledW.f, q);
    var kappa;
    ghost var place;
    ok, length, kappa, place := DigitGenCounted(scaledW.f, q, requestedDigits, buffer);
    decimalExponent := kappa - mk;
    if ok {
      CountedIsRounded(scaledW.f, q, buffer[..length], place, kappa != place, Scaled2(significand, exponent), mk);
      assert |buffer[..length]| + place - mk + (if kappa != place then 1 else 0) == length + decimalExponent;
    }
  }

  lemma PreparedCounted(f: nat, e: int, sh: nat, c: nat, ce: int, mk: int, x: nat, w: nat, q: nat)
    requires e >= -1074 && sh >= 11 && Fills(f, sh) && CachedPower(c, ce, mk)
    requires x == f * Pow(2, sh) && RoundedProduct(x, c, w) && q == 0 - (e - sh + ce + 64) && 32 <= q <= 60
      && w < TWO_64
    ensures CountedInput(w, q) && Within(Scaled2(f, e), w, 1, mk, q)
  {
    NormalizedStandFor(f, e, false, sh);
    ProductWithin(x, sh, e, Scaled2(f, e), c, ce, mk, w, q);
    assert TWO_63 <= c && x >= TWO_63;
    ProductLarge(x, c, w);
  }

  /** Digits by the fast way; false when the precision does not suffice. */
  method FastDtoa(significand: uint64, exponent: int, lowerBoundaryIsCloser: bool, mode: Mode, requestedDigits: nat,
                  tenMk: DiyFp, mk: int, buffer: array<char>) returns (ok: bool, length: nat, decimalPoint: int)
    requires FloatParts(significand, exponent, lowerBoundaryIsCloser) && mode != FixedMode
    requires if mode == ShortestMode then buffer.Length >= 18 else 0 < requestedDigits < buffer.Length
    requires CachedPower(tenMk.f, tenMk.e, mk)
    requires forall sh: nat :: Fills(significand, sh) ==> InTargetRange(exponent - sh + tenMk.e + 64)
    modifies buffer
    ensures ok ==> length < buffer.Length && buffer[length] == '\0'
    ensures ok ==> Printed(significand, exponent, lowerBoundaryIsCloser, mode, requestedDigits, buffer[..length],
                           decimalPoint)
  {
    hide CachedPower, InTargetRange, Fills, ShortestDecimal, Gap, RoundedHalfUp, Decimal, Pow;
    var decimalExponent;
    if mode == ShortestMode {
      ok, length, decimalExponent := Grisu3(significand, exponent, lowerBoundaryIsCloser, tenMk, mk, buffer);
    } else {
      ok, length, decimalExponent := Grisu3Counted(significand, exponent, requestedDigits, tenMk, mk, buffer);
    }
    decimalPoint := 0;
    if ok {
      decimalPoint := length + decimalExponent;
      ghost var s := buffer[..length];
      buffer[length] := '\0';
      assert buffer[..length] == s;
    }
  }

  /** The fast and the slow printer can only agree, digits and decimal point. */
  lemma FastIsSlow(f: nat, e: int, closer: bool, mode: Mode, requested: nat, s: string, point: int, s': string,
                   point': int)
    requires e >= -1074 && mode != FixedMode
    requires Printed(f, e, closer, mode, requested, s, point) && Printed(f, e, closer, mode, requested, s', point')
    ensures s == s' && point == point'
  {
    hide Gap, ShortestDecimal, SignificantDigits;
    if mode == ShortestMode {
      ShortestUnique(Scaled2(f, e), LowerGap(e, closer), UpperGap(e), f % 2 == 0, s, point, s', point');
    } else {
      SignificantUnique(Scaled2(f, e), s, point, s', point');
    }
  }
}
