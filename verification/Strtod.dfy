/** Reading decimal numbers: trimming, cutting, the exact comparison and the final decision. */
module Strtod {
  import opened Arith
  import opened Machine
  import opened Bigits
  import opened Digits
  import opened Bignums
  import opened DecimalOrder
  import opened PrintSpec
  import opened StartValues
  import opened Ieee

  const MAX_SIGNIFICANT_DECIMAL_DIGITS: nat := 780
  const MAX_DECIMAL_POWER: int := 309
  const MIN_DECIMAL_POWER: int := -324

  // ---- Trimming ----

  /** The string without its leading zeros. */
  function WithoutLeadingZeros(s: string): string
  {
    if s != [] && s[0] == '0' then WithoutLeadingZeros(s[1..]) else s
  }

  /** The string without its trailing zeros. */
  function WithoutTrailingZeros(s: string): string
  {
    if s != [] && s[|s| - 1] == '0' then WithoutTrailingZeros(s[..|s| - 1]) else s
  }

  lemma {:induction false} LeadingRun(s: string, i: nat)
    requires i <= |s| && forall j :: 0 <= j < i ==> s[j] == '0'
    requires i < |s| ==> s[i] != '0'
    ensures WithoutLeadingZeros(s) == s[i..]
  {
    if i > 0 {
      LeadingRun(s[1..], i - 1);
    }
  }

  lemma {:induction false} TrailingRun(s: string, i: nat)
    requires i <= |s| && forall j :: i <= j < |s| ==> s[j] == '0'
    requires i > 0 ==> s[i - 1] != '0'
    ensures WithoutTrailingZeros(s) == s[..i]
    decreases |s|
  {
    if i < |s| {
      TrailingRun(s[..|s| - 1], i);
      assert s[..|s| - 1][..i] == s[..i];
    } else {
      assert s[..i] == s;
    }
  }

  method TrimLeadingZeros(buffer: string) returns (trimmed: string)
    requires AllDigits(buffer)
    ensures trimmed == WithoutLeadingZeros(buffer)
    ensures AllDigits(trimmed) && Decimal(trimmed) == Decimal(buffer)
    ensures trimmed != [] ==> trimmed[0] != '0'
  {
    for i := 0 to |buffer|
      invariant forall j :: 0 <= j < i ==> buffer[j] == '0'
    {
      if buffer[i] != '0' {
        LeadingZeros(buffer, i);
        LeadingRun(buffer, i);
        return buffer[i..];
      }
    }
    LeadingZeros(buffer, |buffer|);
    LeadingRun(buffer, |buffer|);
    return [];
  }

  lemma {:induction false} ZerosAreZero(s: string)
    requires forall j :: 0 <= j < |s| ==> s[j] == '0'
    ensures AllDigits(s) && Decimal(s) == 0
  {
    if s != [] {
      ZerosAreZero(s[..|s| - 1]);
    }
  }

  lemma LeadingZeros(s: string, i: nat)
    requires AllDigits(s) && i <= |s|
    requires forall j :: 0 <= j < i ==> s[j] == '0'
    ensures Decimal(s[i..]) == Decimal(s)
  {
    assert s == s[..i] + s[i..];
    ZerosAreZero(s[..i]);
    DecimalConcat(s[..i], s[i..]);
  }

  lemma TrailingZeros(s: string, i: nat)
    requires AllDigits(s) && i <= |s|
    requires forall j :: i <= j < |s| ==> s[j] == '0'
    ensures Decimal(s) == Decimal(s[..i]) * Pow(10, |s| - i)
  {
    assert s == s[..i] + s[i..];
    ZerosAreZero(s[i..]);
    DecimalConcat(s[..i], s[i..]);
  }

  method TrimTrailingZeros(buffer: string) returns (trimmed: string)
    requires AllDigits(buffer)
    ensures trimmed == WithoutTrailingZeros(buffer)
    ensures |trimmed| <= |buffer| && trimmed == buffer[..|trimmed|]
    ensures Decimal(buffer) == Decimal(trimmed) * Pow(10, |buffer| - |trimmed|)
    ensures trimmed != [] ==> trimmed[|trimmed| - 1] != '0'
  {
    var i := |buffer| - 1;
    while i >= 0
      invariant -1 <= i < |buffer|
      invariant forall j :: i < j < |buffer| ==> buffer[j] == '0'
    {
      if buffer[i] != '0' {
        TrailingZeros(buffer, i + 1);
        TrailingRun(buffer, i + 1);
        return buffer[..i + 1];
      }
      i := i - 1;
    }
    TrailingZeros(buffer, 0);
    TrailingRun(buffer, 0);
    return [];
  }

  /** Two decimal numbers that compare alike with every binary number b / 2^SCALE satisfying p. */
  ghost predicate SameOrder(c: int, k: int, c': int, k': int, b: int)
  {
    && (Gap(c, k, b) < 0 <==> Gap(c', k', b) < 0)
    && (Gap(c, k, b) == 0 <==> Gap(c', k', b) == 0)
  }

  // ---- Cutting ----

  /** b / 2^SCALE is a multiple of 10^u. */
  ghost predicate MultipleOf(b: int, u: int)
  {
    exists m: nat :: Gap(m, u, b) == 0
  }

  /** A digit string cut after its first `keep` digits, a one standing for the rest, compares like the whole
      with every multiple of the unit of the last digit that was kept. */
  lemma CutKeepsOrder(t: string, exponent: int, b: int, u: int, keep: nat)
    requires AllDigits(t) && |t| > keep && Decimal(t[keep..]) > 0
    requires u == exponent + |t| - keep && MultipleOf(b, u)
    ensures SameOrder(Decimal(t), exponent, Decimal(CutAt(t, keep)), exponent + |t| - keep - 1, b)
  {
    var m: nat :| Gap(m, u, b) == 0;
    var head, tail := t[..keep], t[keep..];
    assert t == head + tail;
    DecimalConcat(head, tail);
    DecimalBound(tail);
    Between(Decimal(head), Decimal(tail), |tail|, u, b, m);
    DecimalSnoc(head, '1');
    assert Pow(10, 1) == 10;
    Between(Decimal(head), 1, 1, u, b, m);
  }

  function CutAt(t: string, keep: nat): (s: string)
    requires |t| > keep
    ensures |s| == keep + 1
  {
    t[..keep] + ['1']
  }

  function CutString(t: string): (s: string)
    requires |t| > MAX_SIGNIFICANT_DECIMAL_DIGITS
    ensures |s| == MAX_SIGNIFICANT_DECIMAL_DIGITS
  {
    CutAt(t, MAX_SIGNIFICANT_DECIMAL_DIGITS - 1)
  }

  lemma PositiveTail(s: string)
    requires AllDigits(s) && s != [] && s[|s| - 1] != '0'
    ensures Decimal(s) > 0
  {
  }

  /** head followed by j more digits, not all zero, lies strictly between head and head + 1 units. */
  lemma Between(head: nat, tail: nat, j: nat, u: int, b: int, m: nat)
    requires 0 < tail < Pow(10, j) && Gap(m, u, b) == 0
    ensures Gap(head * Pow(10, j) + tail, u - j, b) < 0 <==> head < m
    ensures Gap(head * Pow(10, j) + tail, u - j, b) != 0
  {
    GapShift(m, u, b, j);
    var c, p := head * Pow(10, j) + tail, Pow(10, j);
    hide Gap, Pow;
    Units(head, tail, p, m);
    if head < m {
      GapStrict(c, m * p, u - j, b);
    } else {
      GapStrict(m * p, c, u - j, b);
    }
  }

  lemma Units(head: nat, tail: nat, p: nat, m: nat)
    requires 0 < tail < p
    ensures head < m ==> head * p + tail < m * p
    ensures head >= m ==> m * p < head * p + tail
  {
    if head < m {
      MulMonotone(head + 1, m, p);
    } else {
      MulMonotone(m, head, p);
    }
  }

  // ---- Which boundaries matter ----

  /** Every boundary above a finite double is a multiple of 10^u, where u is the unit of the 772nd, or a later, digit
      of a number with its first digit at 10^(top - 1), or lies below that first digit. */
  lemma BoundaryReach(d: Bits, top: int, keep: nat)
    requires d < INFINITY && keep >= 772
    ensures MultipleOf(Upper(d), top - keep) || Gap(1, top - 1, Upper(d)) > 0
  {
    HiddenBit();
    var m, q := 2 * Significand(d) + 1, Exponent(d) - 1;
    assert Upper(d) == m * Pow(2, q + SCALE) by {
      HalfUnit(Exponent(d));
      OddHalves(Significand(d), Pow(2, q + SCALE));
    }
    assert m < Pow(2, 54) by {
      assert Pow(2, 54) == 2 * Pow(2, 53);
    }
    hide Upper, ValueOf;
    if top - keep <= Min(q, 0) {
      FineEnough(m, q, top - keep);
    } else {
      TooLow(m, q, top);
    }
  }

  lemma OddHalves(f: int, p: int)
    ensures f * (2 * p) + p == (2 * f + 1) * p
  {
  }

  /** m * 2^q is a multiple of 10^u if u is at most q and 0. */
  lemma FineEnough(m: nat, q: int, u: int)
    requires q + SCALE >= 0 && u <= Min(q, 0)
    ensures MultipleOf(m * Pow(2, q + SCALE), u)
  {
    var c: nat;
    if q >= 0 {
      c := m * Pow(2, q) * Pow(10, -u);
      PowAdd(2, q, SCALE);
      FineArithmetic(m, Pow(2, q), Pow(10, -u), Pow(2, SCALE));
    } else {
      c := m * Pow(5, -q) * Pow(10, q - u);
      PowAdd(10, -q, q - u);
      PowProduct(5, 2, -q);
      PowAdd(2, q + SCALE, -q);
      FineArithmetic2(m, Pow(5, -q), Pow(10, q - u), Pow(2, SCALE), Pow(2, q + SCALE), Pow(2, -q), Pow(10, -u));
    }
    assert TenUp(u) == 1 && TenDown(u) == Pow(10, -u);
    assert Gap(c, u, m * Pow(2, q + SCALE)) == 0;
  }

  lemma FineArithmetic(m: int, x: int, t: int, s: int)
    ensures ((m * x) * t) * (s * 1) == (m * (x * s)) * t
  {
    MulAssoc(m * x, t, s);
    MulAssoc(m * x, s, t);
    MulAssoc(m, x, s);
    assert t * s == s * t;
  }

  lemma FineArithmetic2(m: int, f: int, t: int, s: int, a: int, b: int, tt: int)
    requires s == a * b && tt == (f * b) * t
    ensures ((m * f) * t) * (s * 1) == (m * a) * tt
  {
    calc {
      (m * a) * ((f * b) * t);
      { MulAssoc(f, b, t); MulAssoc(m * a, f, b * t); MulRegroup(m, a, f, 1); MulAssoc(m, a, f); MulAssoc(m, f,
          a); assert a * f == f * a; }
      ((m * f) * a) * (b * t);
      { MulAssoc(m * f, a, b * t); MulAssoc(a, b, t); assert (a * b) * t == t * (a * b); MulAssoc(m * f, t, a * b); }
      ((m * f) * t) * (a * b);
    }
  }

  lemma ThousandBelow(n: nat)
    ensures Pow(10, 3 * n) <= Pow(2, 10 * n)
  {
    PowTimes(10, 3, n);
    PowTimes(2, 10, n);
    assert Pow(10, 3) == 1000 && Pow(2, 10) == 1024;
    PowBaseMonotone(1000, 1024, n);
  }

  /** Otherwise the boundary is far below the number. */
  lemma TooLow(m: nat, q: int, top: int)
    requires m < Pow(2, 54) && -1075 <= q <= 970 && top - 772 > Min(q, 0)
    ensures Gap(1, top - 1, m * Pow(2, q + SCALE)) > 0
  {
    var k := top - 1;
    BitsBelow(m, Pow(2, q + SCALE), 54, q + SCALE);
    TensPositive(k);
    if k >= 0 {
      TenBelowSixteen(k);
      PowAdd(2, SCALE, 3 * k);
      PowMonotone(2, 54 + q + SCALE, SCALE + 3 * k);
      PowPositive(2, SCALE);
      assert TenUp(k) == Pow(10, k) && TenDown(k) == 1;
      hide Pow;
      MulMonotone(Pow(2, 3 * k), Pow(10, k), Pow(2, SCALE));
    } else {
      var n := (-k + 2) / 3;
      ThousandBelow(n);
      PowMonotone(10, -k, 3 * n);
      PowAdd(2, 54 + q + SCALE, 10 * n);
      PowMonotone(2, 54 + q + SCALE + 10 * n, SCALE);
      assert TenUp(k) == 1 && TenDown(k) == Pow(10, -k);
      PowPositive(10, -k);
      hide Pow;
      MulStrict(m * Pow(2, q + SCALE), Pow(2, 54 + q + SCALE), Pow(10, -k));
      MulMonotone(Pow(10, -k), Pow(2, 10 * n), Pow(2, 54 + q + SCALE));
    }
  }

  // ---- The exact comparison ----

  lemma ShortDecimalRoom(n: nat)
    requires n <= 780
    ensures Pow(10, n) < Pow(2, 2601) < Pow(BASE, 93) < Pow(BASE, CAPACITY - 3) < Pow(BASE, CAPACITY - 1)
  {
    ThousandBelow(260);
    PowMonotone(10, n, 780);
    PowPositive(2, 2600);
    PowTwoBase(93);
    assert Pow(2, 2601) == 2 * Pow(2, 2600);
    PowMonotone(2, 2602, BIGIT_SIZE * 93);
    assert Pow(2, 2602) == 2 * Pow(2, 2601);
    PowMonotone(BASE, 94, CAPACITY - 3);
    PowPositive(BASE, 93);
    PowPositive(BASE, CAPACITY - 3);
    PowMonotone(BASE, CAPACITY - 2, CAPACITY - 1);
    assert Pow(BASE, CAPACITY - 2) == BASE * Pow(BASE, CAPACITY - 3);
    assert Pow(BASE, 94) == BASE * Pow(BASE, 93);
  }

  /** 5^1104 times a significand of 55 bits still fits. */
  lemma FivesRoom(m: nat, n: nat)
    requires m < Pow(2, 55) && n <= 1104
    ensures m * Pow(5, n) < Pow(BASE, 94)
  {
    assert Pow(5, 3) == 125 && Pow(2, 7) == 128;
    PowTimes(5, 3, 368);
    PowTimes(2, 7, 368);
    PowBaseMonotone(125, 128, 368);
    PowMonotone(5, n, 1104);
    BitsBelow(m, Pow(5, n), 55, 2576);
    PowTwoBase(94);
    PowMonotone(2, 55 + 2576, BIGIT_SIZE * 94);
  }

  /** The sign of buffer * 10^exponent - f * 2^e. */
  method CompareBufferWithDiyFp(buffer: string, exponent: int, f: uint64, e: int) returns (r: int)
    requires AllDigits(buffer) && |buffer| <= MAX_SIGNIFICANT_DECIMAL_DIGITS
    requires MIN_DECIMAL_POWER < |buffer| + exponent <= MAX_DECIMAL_POWER + 1
    requires f < Pow(2, 55) && -1075 <= e
    ensures r == Sign(Gap(Decimal(buffer), exponent, f * Pow(2, e + SCALE)))
  {
    hide Pow, Val, Scaled, Gap, Decimal, AllDigits, TenUp, TenDown, Sign;
    var bufferBignum := new Bignum();
    var diyFpBignum := new Bignum();
    ShortDecimalRoom(|buffer|);
    DecimalBound(buffer);
    bufferBignum.AssignDecimalString(buffer);
    diyFpBignum.AssignUInt64(f);
    ScaleBoth(bufferBignum, diyFpBignum, buffer, exponent, f, e);
    r := Bignum.Compare(bufferBignum, diyFpBignum);
  }

  /** Brings both numbers to the same scale. */
  method ScaleBoth(bufferBignum: Bignum, diyFpBignum: Bignum, buffer: string, exponent: int, f: uint64, e: int)
    requires bufferBignum.Apart(diyFpBignum) && bufferBignum.Valid() && diyFpBignum.Valid()
    requires AllDigits(buffer) && |buffer| <= MAX_SIGNIFICANT_DECIMAL_DIGITS
    requires MIN_DECIMAL_POWER < |buffer| + exponent <= MAX_DECIMAL_POWER + 1
    requires f < Pow(2, 55) && -1075 <= e && bufferBignum.Value() == Decimal(buffer) && diyFpBignum.Value() == f
    modifies bufferBignum, bufferBignum.bigits, diyFpBignum, diyFpBignum.bigits
    ensures bufferBignum.Valid() && diyFpBignum.Valid()
    ensures Sign(bufferBignum.Value() - diyFpBignum.Value())
      == Sign(Gap(Decimal(buffer), exponent, f * Pow(2, e + SCALE)))
  {
    hide Pow, Val, Scaled, Gap, Decimal, AllDigits, TenUp, TenDown, Sign;
    ScaleBuffer(bufferBignum, buffer, exponent);
    ScaleFloat(diyFpBignum, f, exponent);
    ghost var x, y := bufferBignum.Value(), diyFpBignum.Value();
    ScaleByTwos(bufferBignum, diyFpBignum, e);
    ComparesScaled(Decimal(buffer), exponent, f, e, x, y, bufferBignum.Value(), diyFpBignum.Value());
  }

  lemma ComparesScaled(c: nat, k: int, f: nat, e: int, x: nat, y: nat, x': nat, y': nat)
    requires -1075 <= e && x == c * TenUp(k) && y == f * TenDown(k)
    requires x' == x * (if e > 0 then 1 else Pow(2, -e)) && y' == y * (if e > 0 then Pow(2, e) else 1)
    ensures Sign(x' - y') == Sign(Gap(c, k, f * Pow(2, e + SCALE)))
  {
    hide Pow, TenUp, TenDown, Gap;
    CompareMeans(c, k, f, e);
  }

  /** The binary exponent multiplies one number or the other. */
  method ScaleByTwos(bufferBignum: Bignum, diyFpBignum: Bignum, e: int)
    requires bufferBignum.Valid() && diyFpBignum.Valid() && bufferBignum.Apart(diyFpBignum)
    requires bufferBignum.usedDigits < CAPACITY && diyFpBignum.usedDigits < CAPACITY
    modifies bufferBignum, bufferBignum.bigits, diyFpBignum, diyFpBignum.bigits
    ensures bufferBignum.Valid() && diyFpBignum.Valid()
    ensures bufferBignum.Value() == old(bufferBignum.Value()) * (if e > 0 then 1 else Pow(2, -e))
    ensures diyFpBignum.Value() == old(diyFpBignum.Value()) * (if e > 0 then Pow(2, e) else 1)
  {
    hide Pow, Val, Scaled;
    if e > 0 {
      diyFpBignum.ShiftLeft(e);
    } else {
      bufferBignum.ShiftLeft(-e);
    }
  }

  /** A nonnegative decimal exponent multiplies the digits. */
  method ScaleBuffer(b: Bignum, buffer: string, exponent: int)
    requires b.Valid() && AllDigits(buffer) && b.Value() == Decimal(buffer)
    requires |buffer| <= MAX_SIGNIFICANT_DECIMAL_DIGITS && |buffer| + exponent <= MAX_DECIMAL_POWER + 1
    modifies b, b.bigits
    ensures b.Valid() && b.usedDigits < CAPACITY
    ensures b.Value() == Decimal(buffer) * TenUp(exponent)
  {
    ShortDecimalRoom(|buffer|);
    DecimalBound(buffer);
    b.LengthFromValue(93);
    if exponent >= 0 {
      BufferRoom(buffer, exponent);
      b.MantissaBelowValue();
      PowBaseMonotone(5, 10, exponent);
      hide Pow, Val, Scaled;
      MulMonotone(b.Mantissa(), b.Value(), Pow(5, exponent));
      MulMonotone(Pow(5, exponent), Pow(10, exponent), b.Value());
      b.MultiplyByPowerOfTen(exponent, 93);
    } else {
      assert TenUp(exponent) == 1;
    }
  }

  lemma BufferRoom(buffer: string, exponent: nat)
    requires AllDigits(buffer) && |buffer| + exponent <= 310
    ensures Decimal(buffer) * Pow(10, exponent) < Pow(BASE, 93)
  {
    DecimalBound(buffer);
    PowAdd(10, |buffer|, exponent);
    PowPositive(10, exponent);
    MulStrict(Decimal(buffer), Pow(10, |buffer|), Pow(10, exponent));
    ShortDecimalRoom(|buffer| + exponent);
  }

  /** A negative decimal exponent multiplies the floating-point number instead. */
  method ScaleFloat(b: Bignum, f: uint64, exponent: int)
    requires b.Valid() && b.Value() == f < Pow(2, 55) && -1104 <= exponent
    modifies b, b.bigits
    ensures b.Valid() && b.usedDigits < CAPACITY
    ensures b.Value() == f * TenDown(exponent)
  {
    FivesRoom(0, 0);
    PowTwoBase(3);
    PowMonotone(2, 55, BIGIT_SIZE * 3);
    b.LengthFromValue(3);
    b.MantissaBelowValue();
    if exponent >= 0 {
      assert TenDown(exponent) == 1;
    } else {
      FivesRoom(b.Mantissa(), -exponent);
      b.MultiplyByPowerOfTen(-exponent, 94);
    }
  }

  /** The two big integers differ from the two sides of Gap by a common power of two. */
  lemma CompareMeans(c: nat, k: int, f: nat, e: int)
    requires -1075 <= e
    ensures var x := (c * TenUp(k)) * (if e > 0 then 1 else Pow(2, -e));
            var y := (f * TenDown(k)) * (if e > 0 then Pow(2, e) else 1);
            Sign(x - y) == Sign(Gap(c, k, f * Pow(2, e + SCALE)))
  {
    TensPositive(k);
    PowPositive(2, e + SCALE);
    if e > 0 {
      PowAdd(2, e, SCALE);
      CommonFactor(c, TenUp(k), f, TenDown(k), Pow(2, e), Pow(2, SCALE), 1);
      ScaledSign(c * TenUp(k) - (f * TenDown(k)) * Pow(2, e), Pow(2, SCALE));
    } else {
      PowAdd(2, -e, e + SCALE);
      CommonFactor(c, TenUp(k), f, TenDown(k), 1, Pow(2, e + SCALE), Pow(2, -e));
      ScaledSign((c * TenUp(k)) * Pow(2, -e) - f * TenDown(k), Pow(2, e + SCALE));
    }
  }

  lemma CommonFactor(c: int, u: int, f: int, v: int, z: int, s: int, w: int)
    ensures c * ((w * s) * u) - (f * (z * s)) * v == ((c * u) * w - (f * v) * z) * s
  {
    assert c * ((w * s) * u) == ((c * u) * w) * s by {
      MulAssoc(w, s, u);
      MulAssoc(c * u, w, s);
      MulAssoc(c, u, w * s);
      assert u * (w * s) == (w * s) * u;
    }
    assert (f * (z * s)) * v == ((f * v) * z) * s by {
      MulAssoc(f, z * s, v);
      MulAssoc(f, v, z * s);
      MulAssoc(f * v, z, s);
      assert (z * s) * v == v * (z * s);
    }
    hide *;
    OneMinus(((c * u) * w), ((f * v) * z), s);
  }

  lemma OneMinus(x: int, y: int, s: int)
    ensures (x - y) * s == x * s - y * s
  {
  }

  lemma ScaledSign(x: int, p: int)
    requires p > 0
    ensures Sign(x) == Sign(x * p)
  {
    SignTransfer(x, p, x * p, 1);
  }

  // ---- Trimming and cutting together ----

  /** What TrimAndCut leaves of the digits, and of the exponent. */
  function TrimmedDigits(buffer: string): string
  {
    var t := WithoutTrailingZeros(WithoutLeadingZeros(buffer));
    if |t| > MAX_SIGNIFICANT_DECIMAL_DIGITS then CutString(t) else t
  }

  function TrimmedExponent(buffer: string, exponent: int): int
  {
    var left := WithoutLeadingZeros(buffer);
    var t := WithoutTrailingZeros(left);
    var e := exponent + |left| - |t|;
    if |t| > MAX_SIGNIFICANT_DECIMAL_DIGITS then e + (|t| - MAX_SIGNIFICANT_DECIMAL_DIGITS) else e
  }

  /** No double is read from one number and not from the other. */
  ghost predicate ReadAlike(c: nat, k: int, c': nat, k': int)
  {
    forall d: Bits :: ReadsAs(c, k, d) <==> ReadsAs(c', k', d)
  }

  lemma SameOrderReadsAlike(c: nat, k: int, c': nat, k': int)
    requires forall d: Bits :: d < INFINITY ==> SameOrder(c, k, c', k', Upper(d))
    ensures ReadAlike(c, k, c', k')
  {
    forall d: Bits
      ensures ReadsAs(c, k, d) <==> ReadsAs(c', k', d)
    {
      assert d < INFINITY ==> SameOrder(c, k, c', k', Upper(d));
      if d > 0 {
        SharedBoundary(d - 1);
        assert SameOrder(c, k, c', k', Upper(d - 1));
      }
      hide Gap, Upper, Lower;
    }
  }

  lemma TrailingZerosReadAlike(c: nat, j: nat, k: int)
    ensures ReadAlike(c * Pow(10, j), k, c, k + j)
  {
    forall d: Bits | d < INFINITY
      ensures SameOrder(c * Pow(10, j), k, c, k + j, Upper(d))
    {
      GapShift(c, k + j, Upper(d), j);
      assert k + j - j == k;
    }
    SameOrderReadsAlike(c * Pow(10, j), k, c, k + j);
  }

  /** A number with a nonzero first digit is above every boundary that is below that digit. */
  lemma AboveFirstDigit(t: string, exponent: int, b: int)
    requires AllDigits(t) && t != [] && t[0] != '0' && Gap(1, |t| + exponent - 1, b) > 0
    ensures Gap(Decimal(t), exponent, b) > 0
  {
    WideIsDecimal(t);
    WideLead(t);
    var p := Pow(10, |t| - 1);
    PowPositive(10, |t| - 1);
    MulMonotone(1, t[0] as int - '0' as int, p);
    GapShift(1, |t| + exponent - 1, b, |t| - 1);
    assert |t| + exponent - 1 - (|t| - 1) == exponent;
    hide Pow, Gap;
    GapMonotone(p, Decimal(t), exponent, b);
  }

  lemma CutReadsAlike(t: string, exponent: int, keep: nat)
    requires AllDigits(t) && |t| > keep >= 772 && t[0] != '0' && Decimal(t[keep..]) > 0
    ensures AllDigits(CutAt(t, keep))
    ensures ReadAlike(Decimal(t), exponent, Decimal(CutAt(t, keep)), exponent + (|t| - keep - 1))
  {
    hide Gap, Upper, Decimal, SameOrder, ReadAlike;
    CutAllDigits(t, keep);
    var c, k := CutAt(t, keep), exponent + (|t| - keep - 1);
    forall d: Bits | d < INFINITY
      ensures SameOrder(Decimal(t), exponent, Decimal(c), k, Upper(d))
    {
      CutOrder(t, exponent, keep, d);
    }
    SameOrderReadsAlike(Decimal(t), exponent, Decimal(c), k);
  }

  lemma CutAllDigits(t: string, keep: nat)
    requires AllDigits(t) && |t| > keep
    ensures AllDigits(CutAt(t, keep))
  {
  }

  lemma CutOrder(t: string, exponent: int, keep: nat, d: Bits)
    requires AllDigits(t) && |t| > keep >= 772 && t[0] != '0' && Decimal(t[keep..]) > 0 && d < INFINITY
      && AllDigits(CutAt(t, keep))
    ensures SameOrder(Decimal(t), exponent, Decimal(CutAt(t, keep)), exponent + (|t| - keep - 1), Upper(d))
  {
    hide Gap, Upper, Decimal, MultipleOf, AllDigits;
    var c, k, b := CutAt(t, keep), exponent + (|t| - keep - 1), Upper(d);
    BoundaryReach(d, |t| + exponent, keep);
    assert |c| + k == |t| + exponent;
    if Gap(1, |t| + exponent - 1, b) > 0 {
      AboveFirstDigit(t, exponent, b);
      AboveFirstDigit(c, k, b);
    } else {
      CutKeepsOrder(t, exponent, b, |t| + exponent - keep, keep);
    }
  }

  method CutToMaxSignificantDigits(buffer: string, exponent: int)
    returns (significantBuffer: string, significantExponent: int)
    requires AllDigits(buffer) && |buffer| > MAX_SIGNIFICANT_DECIMAL_DIGITS
    requires buffer[0] != '0' && buffer[|buffer| - 1] != '0'
    ensures significantBuffer == CutString(buffer) && AllDigits(significantBuffer)
    ensures significantExponent == exponent + (|buffer| - MAX_SIGNIFICANT_DECIMAL_DIGITS)
    ensures ReadAlike(Decimal(buffer), exponent, Decimal(significantBuffer), significantExponent)
  {
    significantBuffer := [];
    for i := 0 to MAX_SIGNIFICANT_DECIMAL_DIGITS - 1
      invariant significantBuffer == buffer[..i]
    {
      significantBuffer := significantBuffer + [buffer[i]];
    }
    // A last digit other than zero is enough for correct rounding.
    significantBuffer := significantBuffer + ['1'];
    significantExponent := exponent + (|buffer| - MAX_SIGNIFICANT_DECIMAL_DIGITS);
    PositiveTail(buffer[MAX_SIGNIFICANT_DECIMAL_DIGITS - 1..]);
    CutReadsAlike(buffer, exponent, MAX_SIGNIFICANT_DECIMAL_DIGITS - 1);
  }

  method TrimAndCut(buffer: string, exponent: int) returns (trimmed: string, updatedExponent: int)
    requires AllDigits(buffer)
    ensures trimmed == TrimmedDigits(buffer) && updatedExponent == TrimmedExponent(buffer, exponent)
    ensures AllDigits(trimmed) && |trimmed| <= MAX_SIGNIFICANT_DECIMAL_DIGITS
    ensures trimmed != [] ==> trimmed[0] != '0'
    ensures ReadAlike(Decimal(buffer), exponent, Decimal(trimmed), updatedExponent)
  {
    var leftTrimmed := TrimLeadingZeros(buffer);
    var rightTrimmed := TrimTrailingZeros(leftTrimmed);
    var e := exponent + (|leftTrimmed| - |rightTrimmed|);
    TrailingZerosReadAlike(Decimal(rightTrimmed), |leftTrimmed| - |rightTrimmed|, exponent);
    if |rightTrimmed| > MAX_SIGNIFICANT_DECIMAL_DIGITS {
      trimmed, updatedExponent := CutToMaxSignificantDigits(rightTrimmed, e);
    } else {
      trimmed, updatedExponent := rightTrimmed, e;
    }
  }

  // ---- The guess ----

  /** What the fast paths promise of digits without a leading zero whose number is in their range: a guess that is
      right, or right or the next lower double. */
  ghost predicate FastPathContract(trimmed: string, exponent: int, certain: bool, guess: Bits)
    requires AllDigits(trimmed)
  {
    if trimmed == [] || !(MIN_DECIMAL_POWER < |trimmed| + exponent <= MAX_DECIMAL_POWER) then true
    else if certain || guess == INFINITY then ReadsAs(Decimal(trimmed), exponent, guess)
    else ReadsAs(Decimal(trimmed), exponent, guess) || ReadsAs(Decimal(trimmed), exponent, guess + 1)
  }

  /** 10^309 is above the range of doubles, and 10^-324 is below half of the smallest one. */
  lemma RangeEnds()
    ensures Pow(10, 309) >= Pow(2, 1024)
    ensures Pow(10, 324) >= Pow(2, 1075)
  {
    FivesAndTwos();
    PowTimes(5, 28, 11);
    PowTimes(2, 65, 11);
    PowBaseMonotone(Pow(2, 65), Pow(5, 28), 11);
    TenFromFives(308, 715, 309, 1024);
    PowAdd(5, 308, 16);
    PowAdd(2, 715, 37);
    hide Pow;
    MulMonotone(Pow(2, 37), Pow(5, 16), Pow(2, 715));
    MulMonotone(Pow(2, 715), Pow(5, 308), Pow(5, 16));
    TenFromFives(324, 752, 324, 1075);
  }

  lemma FivesAndTwos()
    ensures Pow(5, 28) >= Pow(2, 65) >= 0 && Pow(5, 16) >= Pow(2, 37)
  {
    assert Pow(5, 7) == 78125 && Pow(5, 8) == 390625 && Pow(2, 13) == 8192 && Pow(2, 12) == 4096;
    PowAdd(5, 7, 7);
    PowAdd(5, 14, 14);
    PowAdd(2, 13, 13);
    PowAdd(2, 26, 26);
    PowAdd(2, 52, 13);
    PowAdd(5, 8, 8);
    PowAdd(2, 12, 12);
    PowAdd(2, 24, 13);
    hide Pow;
  }

  lemma TenFromFives(n: nat, m: nat, k: nat, t: nat)
    requires Pow(5, n) >= Pow(2, m) && n <= k && t <= m + k
    ensures Pow(10, k) >= Pow(2, t)
  {
    PowMonotone(5, n, k);
    PowProduct(5, 2, k);
    PowAdd(2, m, k);
    PowMonotone(2, t, m + k);
    PowPositive(2, k);
    hide Pow;
    MulMonotone(Pow(2, m), Pow(5, k), Pow(2, k));
  }

  lemma TooLarge(trimmed: string, exponent: int)
    requires AllDigits(trimmed) && trimmed != [] && trimmed[0] != '0'
    requires exponent + |trimmed| - 1 >= MAX_DECIMAL_POWER
    ensures ReadsAs(Decimal(trimmed), exponent, INFINITY)
  {
    var top := exponent + |trimmed| - 1;
    InfinityBoundary(top);
    AboveFirstDigit(trimmed, exponent, Lower(INFINITY));
  }

  lemma InfinityBoundary(top: nat)
    requires top >= MAX_DECIMAL_POWER
    ensures Gap(1, top, Lower(INFINITY)) > 0
  {
    RangeEnds();
    HiddenBit();
    PowAdd(2, 52, 972 + SCALE);
    PowAdd(2, 1024, SCALE);
    HalfUnit(972);
    PowMonotone(10, 309, top);
    PowPositive(2, SCALE);
    assert TenUp(top) == Pow(10, top) && TenDown(top) == 1;
    hide Pow;
    assert Significand(INFINITY) == HIDDEN_BIT && Exponent(INFINITY) == 972;
    MulMonotone(Pow(2, 1024), Pow(10, top), Pow(2, SCALE));
  }

  lemma TooSmall(trimmed: string, exponent: int)
    requires AllDigits(trimmed)
    requires exponent + |trimmed| <= MIN_DECIMAL_POWER
    ensures ReadsAs(Decimal(trimmed), exponent, 0)
  {
    var j := MIN_DECIMAL_POWER - exponent;
    var b := Upper(0);
    SmallestBoundary();
    GapShift(1, MIN_DECIMAL_POWER, b, j);
    DecimalBound(trimmed);
    PowMonotone(10, |trimmed|, j);
    assert MIN_DECIMAL_POWER - j == exponent;
    hide Pow, Gap, Upper;
    GapMonotone(Decimal(trimmed), 1 * Pow(10, j), exponent, b);
  }

  lemma SmallestBoundary()
    ensures Gap(1, MIN_DECIMAL_POWER, Upper(0)) <= 0
  {
    hide Pow, Upper;
    RangeEnds();
    LowestBoundary();
    assert TenUp(MIN_DECIMAL_POWER) == Pow(10, 0) && TenDown(MIN_DECIMAL_POWER) == Pow(10, 324);
  }

  lemma LowestBoundary()
    ensures Upper(0) == 2 && Pow(2, SCALE) == 2 * Pow(2, 1075) && Pow(10, 0) == 1
  {
    assert Pow(2, 1) == 2;
    HalfUnit(-1074);
  }

  /** The guess, taken from the fast paths when the number is in their range. */
  method ComputeGuess(trimmed: string, exponent: int, fastCertain: bool, fastGuess: Bits)
    returns (isCorrect: bool, guess: Bits)
    requires AllDigits(trimmed) && (trimmed != [] ==> trimmed[0] != '0')
    requires FastPathContract(trimmed, exponent, fastCertain, fastGuess)
    ensures isCorrect ==> ReadsAs(Decimal(trimmed), exponent, guess)
    ensures !isCorrect
      ==> guess < INFINITY && trimmed != [] && MIN_DECIMAL_POWER < |trimmed| + exponent <= MAX_DECIMAL_POWER
                           && FastPathContract(trimmed, exponent, false, guess)
  {
    if |trimmed| == 0 {
      ZeroReadsAsZero(exponent);
      return true, 0;
    }
    if exponent + |trimmed| - 1 >= MAX_DECIMAL_POWER {
      TooLarge(trimmed, exponent);
      return true, INFINITY;
    }
    if exponent + |trimmed| <= MIN_DECIMAL_POWER {
      TooSmall(trimmed, exponent);
      return true, 0;
    }
    if fastCertain {
      return true, fastGuess;
    }
    if fastGuess == INFINITY {
      return true, fastGuess;
    }
    return false, fastGuess;
  }

  lemma ZeroReadsAsZero(exponent: int)
    ensures ReadsAs(0, exponent, 0)
  {
    TensPositive(exponent);
    MulMonotone(0, Upper(0), TenDown(exponent));
  }

  // ---- The decision ----

  /** Reads the number buffer * 10^exponent: the nearest double, ties to the even one. */
  method Strtod(buffer: string, exponent: int, fastCertain: bool, fastGuess: Bits) returns (result: Bits)
    requires AllDigits(buffer)
    requires AllDigits(TrimmedDigits(buffer))
             ==> FastPathContract(TrimmedDigits(buffer), TrimmedExponent(buffer, exponent), fastCertain, fastGuess)
    ensures ReadsAs(Decimal(buffer), exponent, result)
  {
    hide ReadsAs, Gap, TrimmedDigits, TrimmedExponent;
    var trimmed, updatedExponent := TrimAndCut(buffer, exponent);
    var isCorrect, guess := ComputeGuess(trimmed, updatedExponent, fastCertain, fastGuess);
    if isCorrect {
      return guess;
    }
    var upperF := 2 * Significand(guess) + 1;
    var upperE := Exponent(guess) - 1;
    UpperBoundaryParts(guess);
    var comparison := CompareBufferWithDiyFp(trimmed, updatedExponent, upperF, upperE);
    Decide(Decimal(trimmed), updatedExponent, guess);
    if comparison < 0 {
      return guess;
    } else if comparison > 0 {
      return guess + 1;
    } else if Significand(guess) % 2 == 0 {
      return guess;
    } else {
      return guess + 1;
    }
  }

  /** The boundary above a double as a floating-point number of its own. */
  lemma UpperBoundaryParts(d: Bits)
    ensures Upper(d) == (2 * Significand(d) + 1) * Pow(2, Exponent(d) - 1 + SCALE)
    ensures 2 * Significand(d) + 1 < Pow(2, 55) && 2 * Significand(d) + 1 < TWO_64
  {
    HiddenBit();
    HalfUnit(Exponent(d));
    OddHalves(Significand(d), Pow(2, Exponent(d) - 1 + SCALE));
    assert Pow(2, 55) == 4 * Pow(2, 53) by {
      PowAdd(2, 2, 53);
      assert Pow(2, 2) == 4;
    }
  }

  /** The position relative to the boundary above the guess decides between the guess and its successor. */
  lemma Decide(c: nat, k: int, guess: Bits)
    requires guess < INFINITY
    requires ReadsAs(c, k, guess) || ReadsAs(c, k, guess + 1)
    ensures Gap(c, k, Upper(guess)) < 0 ==> ReadsAs(c, k, guess)
    ensures Gap(c, k, Upper(guess)) > 0 ==> ReadsAs(c, k, guess + 1)
    ensures Gap(c, k, Upper(guess)) == 0 ==> ReadsAs(c, k, if Significand(guess) % 2 == 0 then guess else guess + 1)
  {
    SharedBoundary(guess);
    hide Gap, Upper, Lower;
  }
}
