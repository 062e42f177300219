/**
 Why the digits of Grisu are right: its numbers are less than a unit away from the exact ones, and what it
 keeps is the shortest and closest decimal. There is only one such decimal, so the slow printer finds the same.
*/
module GrisuTheory {
  import opened Arith
  import opened Digits
  import opened DtoaSpec
  import opened DecimalOrder
  import opened PrintSpec
  import opened FastDtoa
  import opened FastCounted

  // ---- Numbers that are known up to an error ----

  /** y * 2^-q is less than m units of 2^-q away from 10^mk * x / 2^SCALE. */
  ghost predicate Within(x: int, y: int, m: int, mk: int, q: nat)
  {
    var u := Pow(2, SCALE) * TenDown(mk);
    (y - m) * u < x * (TenUp(mk) * Pow(2, q)) < (y + m) * u
  }

  lemma WithinTimes(x: int, y: int, m: int, mk: int, q: nat, r: int)
    requires Within(x, y, m, mk, q) && r > 0
    ensures Within(r * x, r * y, r * m, mk, q)
  {
    var a, u := TenUp(mk) * Pow(2, q), Pow(2, SCALE) * TenDown(mk);
    hide TenUp, TenDown, Pow;
    MulAssoc(r, x, a);
    MulAssoc(r, y - m, u);
    MulAssoc(r, y + m, u);
    MulStrict((y - m) * u, x * a, r);
    MulStrict(x * a, (y + m) * u, r);
    assert r * (y - m) == r * y - r * m && r * (y + m) == r * y + r * m;
  }

  /** Powers of ten with either sign of the exponents. */
  lemma TensRegroup(kappa: int, mk: int)
    ensures (TenUp(kappa) * TenDown(mk)) * TenDown(kappa - mk) == (TenUp(mk) * TenDown(kappa)) * TenUp(kappa - mk)
  {
    var a, b, c := Max(kappa, 0), Max(-mk, 0), Max(mk - kappa, 0);
    var d, e, f := Max(mk, 0), Max(-kappa, 0), Max(kappa - mk, 0);
    PowAdd(10, a, b);
    PowAdd(10, a + b, c);
    PowAdd(10, d, e);
    PowAdd(10, d + e, f);
    assert a + b + c == d + e + f;
    assert -(kappa - mk) == mk - kappa;
  }

  /** Comparing n * 10^kappa with the scaled number is comparing n * 10^(kappa - mk) with the number. */
  lemma ScaledGap(kappa: int, mk: int, q: nat) returns (a: nat, b: nat)
    ensures a > 0 && b > 0
    ensures forall n: int, x: int ::
              Mixed(n, TenUp(kappa) * Pow(2, q), Pow(2, SCALE) * TenDown(mk), x, TenUp(mk) * Pow(2, q),
                    TenDown(kappa)) * a
              == Gap(n, kappa - mk, x) * b
  {
    TensPositive(kappa);
    TensPositive(mk);
    TensPositive(kappa - mk);
    TensRegroup(kappa, mk);
    PowPositive(2, q);
    a := TenDown(kappa - mk);
    b := (TenUp(mk) * Pow(2, q)) * TenDown(kappa);
    MulPositive(TenUp(mk), Pow(2, q));
    MulPositive(TenUp(mk) * Pow(2, q), TenDown(kappa));
    forall n: int, x: int
      ensures Mixed(n, TenUp(kappa) * Pow(2, q), Pow(2, SCALE) * TenDown(mk), x, TenUp(mk) * Pow(2, q),
                    TenDown(kappa)) * a
              == Gap(n, kappa - mk, x) * b
    {
      MixedIsGap(n, x, TenUp(kappa), TenDown(kappa), TenUp(mk), TenDown(mk), TenUp(kappa - mk), TenDown(kappa - mk),
                 Pow(2, q), Pow(2, SCALE));
    }
  }

  /** n * ten * u - x * a * unit */
  function Mixed(n: int, ten: int, u: int, x: int, a: int, unit: int): int
  {
    (n * ten) * u - (x * a) * unit
  }

  lemma MixedIsGap(n: int, x: int, ku: int, kd: int, mu: int, md: int, du: int, dd: int, p: int, two: int)
    requires (ku * md) * dd == (mu * kd) * du
    ensures Mixed(n, ku * p, two * md, x, mu * p, kd) * dd == (n * (two * du) - x * dd) * ((mu * p) * kd)
  {
    var g := (ku * md) * dd;
    assert ((n * (ku * p)) * (two * md)) * dd == ((n * p) * two) * g by {
      Shuffle(n, ku, p, two, md, dd);
    }
    assert (n * (two * du)) * ((mu * p) * kd) == ((n * p) * two) * g by {
      Shuffle2(n, two, du, mu, p, kd);
    }
    assert ((x * (mu * p)) * kd) * dd == (x * dd) * ((mu * p) * kd) by {
      MulAssoc(x, mu * p, kd);
      MulAssoc(x, (mu * p) * kd, dd);
      MulAssoc(x, dd, (mu * p) * kd);
    }
    hide *;
    Differences((n * (ku * p)) * (two * md), (x * (mu * p)) * kd, dd, n * (two * du), x * dd, (mu * p) * kd);
  }

  lemma Differences(s: int, t: int, d: int, s': int, t': int, b: int)
    requires s * d == s' * b && t * d == t' * b
    ensures (s - t) * d == (s' - t') * b
  {
  }

  lemma Shuffle(n: int, ku: int, p: int, two: int, md: int, dd: int)
    ensures ((n * (ku * p)) * (two * md)) * dd == ((n * p) * two) * ((ku * md) * dd)
  {
    calc {
      (n * (ku * p)) * (two * md);
      { MulAssoc(n, p, ku); }
      ((n * p) * ku) * (two * md);
      { MulAssoc((n * p) * ku, two, md); MulAssoc(n * p, ku, two); MulAssoc(n * p, two, ku); }
      (((n * p) * two) * ku) * md;
      { MulAssoc((n * p) * two, ku, md); }
      ((n * p) * two) * (ku * md);
    }
    MulAssoc((n * p) * two, ku * md, dd);
  }

  lemma Shuffle2(n: int, two: int, du: int, mu: int, p: int, kd: int)
    ensures (n * (two * du)) * ((mu * p) * kd) == ((n * p) * two) * ((mu * kd) * du)
  {
    Shuffle(n, mu, p, two, du, kd);
    assert (mu * du) * kd == (mu * kd) * du by {
      MulAssoc(mu, du, kd);
      MulAssoc(mu, kd, du);
    }
    assert (n * (two * du)) * ((mu * p) * kd) == ((n * (mu * p)) * (two * du)) * kd by {
      var t := two * du;
      MulAssoc(n * t, mu * p, kd);
      MulAssoc(n, t, mu * p);
      MulAssoc(n, mu * p, t);
    }
  }

  /** A decimal far enough above or below the approximate number is above or below the exact one. */
  lemma Compare(x: int, y: int, m: int, mk: int, q: nat, n: int, kappa: int)
    requires Within(x, y, m, mk, q)
    ensures var ten, unit := TenUp(kappa) * Pow(2, q), TenDown(kappa);
            && (n * ten >= (y + m) * unit ==> Gap(n, kappa - mk, x) > 0)
            && (n * ten <= (y - m) * unit ==> Gap(n, kappa - mk, x) < 0)
  {
    var ten, unit := TenUp(kappa) * Pow(2, q), TenDown(kappa);
    var u, a := Pow(2, SCALE) * TenDown(mk), TenUp(mk) * Pow(2, q);
    var c, d := ScaledGap(kappa, mk, q);
    TensPositive(mk);
    TensPositive(kappa);
    MulPositive(Pow(2, SCALE), TenDown(mk));
    SignTransfer(Mixed(n, ten, u, x, a, unit), c, Gap(n, kappa - mk, x), d);
    assert (y - m) * u < x * a < (y + m) * u;
    hide Within, Gap;
    MixedSign(n, ten, u, x * a, unit, y - m, y + m);
  }

  lemma MixedSign(n: int, ten: int, u: int, xa: int, unit: int, lo: int, hi: int)
    requires u > 0 && unit > 0 && lo * u < xa < hi * u
    ensures n * ten >= hi * unit ==> (n * ten) * u - xa * unit > 0
    ensures n * ten <= lo * unit ==> (n * ten) * u - xa * unit < 0
  {
    MulStrict(lo * u, xa, unit);
    MulStrict(xa, hi * u, unit);
    assert (hi * unit) * u == (hi * u) * unit && (lo * unit) * u == (lo * u) * unit by {
      MulAssoc(hi, unit, u);
      MulAssoc(hi, u, unit);
      MulAssoc(lo, unit, u);
      MulAssoc(lo, u, unit);
    }
    if n * ten >= hi * unit {
      MulMonotone(hi * unit, n * ten, u);
    }
    if n * ten <= lo * unit {
      MulMonotone(n * ten, lo * unit, u);
    }
  }

  // ---- The digits that the generator keeps ----

  /** What the scaled numbers low, w and high stand for. */
  ghost predicate Scaled(low: int, w: int, high: int, v: int, lo: int, hi: int, mk: int, q: nat)
  {
    Within(v - lo, low, 1, mk, q) && Within(v, w, 1, mk, q) && Within(v + hi, high, 1, mk, q)
  }

  /** Between or on the boundaries. */
  ghost predicate Candidate(v: int, lo: int, hi: int, c: int, k: int)
  {
    Gap(c, k, v - lo) >= 0 && Gap(c, k, v + hi) <= 0
  }

  /** Every candidate lies in the unsafe interval. */
  lemma CandidateIsUnsafe(low: nat, w: int, high: int, v: int, lo: int, hi: int, mk: int, q: nat, c: int, kappa: int)
    requires Scaled(low, w, high, v, lo, hi, mk, q) && Candidate(v, lo, hi, c, kappa - mk)
    ensures (low - 1) * TenDown(kappa) < c * (TenUp(kappa) * Pow(2, q)) < (high + 1) * TenDown(kappa)
  {
    hide Gap, Within;
    Compare(v - lo, low, 1, mk, q, c, kappa);
    Compare(v + hi, high, 1, mk, q, c, kappa);
  }

  /** The digits are strictly between the boundaries. */
  lemma KeptIsInside(low: nat, w: nat, high: nat, v: int, lo: int, hi: int, mk: int, q: nat, D: int, kappa: int)
    requires Scaled(low, w, high, v, lo, hi, mk, q)
    requires var unit := TenDown(kappa);
             (low - 1) * unit + 4 * unit <= D * (TenUp(kappa) * Pow(2, q)) <= (high + 1) * unit - 2 * unit
    ensures Gap(D, kappa - mk, v - lo) > 0 && Gap(D, kappa - mk, v + hi) < 0
  {
    TensPositive(kappa);
    var unit := TenDown(kappa);
    hide Gap, Within, TenUp, TenDown;
    assert (low + 1) * unit <= (low - 1) * unit + 4 * unit && (high + 1) * unit - 2 * unit == (high - 1) * unit;
    Compare(v - lo, low, 1, mk, q, D, kappa);
    Compare(v + hi, high, 1, mk, q, D, kappa);
  }

  /** No other candidate with the same last place is as close. */
  lemma KeptIsClosest(low: nat, w: nat, high: nat, v: int, lo: int, hi: int, mk: int, q: nat, D: int, c: int,
                      kappa: int)
    requires Scaled(low, w, high, v, lo, hi, mk, q) && Candidate(v, lo, hi, c, kappa - mk)
    requires var unit, ten := TenDown(kappa), TenUp(kappa) * Pow(2, q);
             Weeded((high + 1) * unit, (low - 1) * unit, w * unit, unit, ten, D)
    ensures AtLeastAsClose(v, kappa - mk, D, c)
  {
    var unit, ten, k := TenDown(kappa), TenUp(kappa) * Pow(2, q), kappa - mk;
    TensPositive(kappa);
    PowPositive(2, q);
    MulPositive(TenUp(kappa), Pow(2, q));
    CandidateIsUnsafe(low, w, high, v, lo, hi, mk, q, c, kappa);
    WithinTimes(v, w, 1, mk, q, 2);
    Midpoints(low, w, high, unit, ten, D, c);
    hide Within, Candidate, TenUp, TenDown, Weeded, Gap;
    if c > D {
      Compare(2 * v, 2 * w, 2, mk, q, 2 * D + 1, kappa);
      Closer(v, k, D, c);
    } else if c < D {
      Compare(2 * v, 2 * w, 2, mk, q, 2 * D - 1, kappa);
      Closer(v, k, D, c);
    }
  }

  /** A candidate on the other side of a midpoint has w on this side. */
  lemma Midpoints(low: nat, w: nat, high: nat, unit: nat, ten: nat, D: int, c: int)
    requires Weeded((high + 1) * unit, (low - 1) * unit, w * unit, unit, ten, D) && ten > 0
    requires (low - 1) * unit < c * ten < (high + 1) * unit
    ensures c > D ==> (2 * D + 1) * ten >= (2 * w + 2) * unit
    ensures c < D ==> (2 * D - 1) * ten <= (2 * w - 2) * unit
  {
    Distribute(2 * w, 2, unit);
    Distribute(2 * w, -2, unit);
    MulAssoc(2, w, unit);
    if c > D {
      MulMonotone(D + 1, c, ten);
    } else if c < D {
      MulMonotone(c, D - 1, ten);
    }
  }

  /** On the near side of the midpoint. */
  lemma Closer(v: int, k: int, d: int, c: int)
    requires (c > d && Gap(2 * d + 1, k, 2 * v) > 0) || (c < d && Gap(2 * d - 1, k, 2 * v) < 0)
    ensures Abs(Gap(d, k, v)) < Abs(Gap(c, k, v))
  {
    TensPositive(k);
    var g := Pow(2, SCALE) * TenUp(k);
    GapDouble(d, k, v);
    if c > d {
      GapSteps(2 * d, 1, k, 2 * v);
      GapSteps(d, c - d, k, v);
      MulMonotone(1, c - d, g);
    } else {
      GapSteps(2 * d, -1, k, 2 * v);
      GapSteps(d, c - d, k, v);
      MulMonotone(c - d, -1, g);
    }
  }

  lemma GapSteps(c: int, n: int, k: int, x: int)
    ensures Gap(c + n, k, x) == Gap(c, k, x) + n * (Pow(2, SCALE) * TenUp(k))
  {
    Distribute(c, n, Pow(2, SCALE) * TenUp(k));
  }

  /** No candidate has fewer digits. */
  lemma NoneShorter(low: nat, w: nat, high: nat, v: int, lo: int, hi: int, mk: int, q: nat, c: int, j: nat, kappa: int)
    requires Scaled(low, w, high, v, lo, hi, mk, q) && j > 0
    requires var unit, ten := TenDown(kappa), TenUp(kappa) * Pow(2, q);
             NoMultiple((low - 1) * unit, (high + 1) * unit, 10 * ten)
    ensures !Candidate(v, lo, hi, c, kappa - mk + j)
  {
    var unit, ten, k, n := TenDown(kappa), TenUp(kappa) * Pow(2, q), kappa - mk, c * Pow(10, j);
    if Candidate(v, lo, hi, c, k + j) {
      GapShift(c, k + j, v - lo, j);
      GapShift(c, k + j, v + hi, j);
      assert k + j - j == k;
      CandidateIsUnsafe(low, w, high, v, lo, hi, mk, q, n, kappa);
      assert n * ten == (c * Pow(10, j - 1)) * (10 * ten) by {
        MulAssoc(c, Pow(10, j - 1), 10);
        MulAssoc(c * Pow(10, j - 1), 10, ten);
      }
      NoMultipleMeans((low - 1) * unit, (high + 1) * unit, 10 * ten, c * Pow(10, j - 1));
    }
  }

  /** Whatever the digit generator keeps is the shortest decimal between the exact boundaries, and of those the
      closest. */
  lemma GrisuIsShortest(low: nat, w: nat, high: nat, q: nat, s: string, kappa: int, v: int, lo: int, hi: int, mk: int,
                        even: bool)
    requires GrisuResult(low, w, high, q, s, kappa) && Scaled(low, w, high, v, lo, hi, mk, q)
    ensures ShortestDecimal(v, lo, hi, even, s, |s| + kappa - mk)
    ensures Gap(1, |s| + kappa - mk, v + hi) > 0
  {
    var k, point, D := kappa - mk, |s| + kappa - mk, Decimal(s);
    assert Within(v + hi, high, 1, mk, q);
    hide Gap, Within, TenUp, TenDown, Pow, Scaled, Decimal, AllDigits;
    KeptIsInside(low, w, high, v, lo, hi, mk, q, D, kappa);
    forall c: nat, k': int | point - |s| < k' < point
      ensures !InInterval(v, lo, hi, even, c, k')
    {
      NoneShorter(low, w, high, v, lo, hi, mk, q, c, k' - k, kappa);
      assert k + (k' - k) == k';
    }
    forall c: nat | InInterval(v, lo, hi, even, c, k)
      ensures AtLeastAsClose(v, k, D, c)
    {
      KeptIsClosest(low, w, high, v, lo, hi, mk, q, D, c, kappa);
    }
    var unit := TenDown(kappa);
    assert (high + 1) * unit <= Pow(10, |s|) * (TenUp(kappa) * Pow(2, q));
    Compare(v + hi, high, 1, mk, q, Pow(10, |s|), kappa);
    GapShift(1, point, v + hi, |s|);
    assert point - |s| == k && 1 * Pow(10, |s|) == Pow(10, |s|);
  }

  // ---- There is only one shortest decimal ----

  /** No decimal point further to the left: the upper boundary is not above 10^point. */
  ghost predicate BelowPoint(v: int, hi: int, even: bool, point: int)
  {
    if even then Gap(1, point, v + hi) > 0 else Gap(1, point, v + hi) >= 0
  }

  lemma PointNotLeft(v: int, lo: int, hi: int, even: bool, s: string, point: int, other: int)
    requires AllDigits(s) && s != [] && s[0] != '0' && InInterval(v, lo, hi, even, Decimal(s), point - |s|)
    requires BelowPoint(v, hi, even, other)
    ensures point <= other
  {
    if other < point {
      var x, n, j := v + hi, |s| - 1, point - 1 - other;
      NoLeadingPower(s);
      hide Gap, Decimal;
      GapMonotone(Pow(10, n), Decimal(s), point - |s|, x);
      GapShift(1, point - 1, x, n);
      assert 1 * Pow(10, n) == Pow(10, n) && point - 1 - n == point - |s|;
      GapShift(1, point - 1, x, j);
      PowPositive(10, j);
      assert point - 1 - j == other;
      GapMonotone(1, 1 * Pow(10, j), other, x);
    }
  }

  /** If two even candidates are as close as each other, one between them is closer. */
  lemma TieHasBetter(v: int, lo: int, hi: int, even: bool, k: int, d: nat, d': nat)
    requires d < d' && InInterval(v, lo, hi, even, d, k) && InInterval(v, lo, hi, even, d', k)
    requires AtLeastAsClose(v, k, d, d') && AtLeastAsClose(v, k, d', d)
    ensures InInterval(v, lo, hi, even, d + 1, k) && !AtLeastAsClose(v, k, d, d + 1)
  {
    TensPositive(k);
    var g := Pow(2, SCALE) * TenUp(k);
    GapSteps(d, 1, k, v);
    GapSteps(d, d' - d, k, v);
    hide Gap, InInterval;
    MulMonotone(2, d' - d, g);
    BetweenIsInside(v, lo, hi, even, k, d, d + 1, d');
  }

  lemma BetweenIsInside(v: int, lo: int, hi: int, even: bool, k: int, d: int, c: int, d': int)
    requires d <= c <= d' && InInterval(v, lo, hi, even, d, k) && InInterval(v, lo, hi, even, d', k)
    ensures InInterval(v, lo, hi, even, c, k)
  {
    GapMonotone(d, c, k, v - lo);
    GapMonotone(c, d', k, v + hi);
  }

  lemma OnlyClosest(v: int, lo: int, hi: int, even: bool, k: int, d: nat, d': nat)
    requires InInterval(v, lo, hi, even, d, k) && InInterval(v, lo, hi, even, d', k)
    requires forall c: nat :: InInterval(v, lo, hi, even, c, k) ==> AtLeastAsClose(v, k, d, c)
    requires forall c: nat :: InInterval(v, lo, hi, even, c, k) ==> AtLeastAsClose(v, k, d', c)
    ensures d == d'
  {
    hide InInterval, AtLeastAsClose;
    assert AtLeastAsClose(v, k, d, d') && AtLeastAsClose(v, k, d', d);
    if d < d' {
      TieHasBetter(v, lo, hi, even, k, d, d');
    } else if d' < d {
      TieHasBetter(v, lo, hi, even, k, d', d);
    }
  }

  /** The shortest and closest decimal is unique, digits and decimal point. */
  lemma ShortestUnique(v: int, lo: int, hi: int, even: bool, s: string, point: int, s': string, point': int)
    requires ShortestDecimal(v, lo, hi, even, s, point) && BelowPoint(v, hi, even, point)
    requires ShortestDecimal(v, lo, hi, even, s', point') && BelowPoint(v, hi, even, point')
    ensures s == s' && point == point'
  {
    hide InInterval, AtLeastAsClose, BelowPoint, Decimal, AllDigits;
    PointNotLeft(v, lo, hi, even, s, point, point');
    PointNotLeft(v, lo, hi, even, s', point', point);
    var k, k' := point - |s|, point - |s'|;
    assert k <= k' && k' <= k;
    OnlyClosest(v, lo, hi, even, k, Decimal(s), Decimal(s'));
    DecimalInjective(s, s');
  }

  // ---- Rounding to a number of digits ----

  /** What is certain of all numbers within the error is certain of the exact one. */
  lemma RoundedExactly(v: int, w: int, m: int, mk: int, q: nat, d: int, kappa: int)
    requires Within(v, w, m, mk, q)
    requires RoundedTo(w * TenDown(kappa), m * TenDown(kappa), TenUp(kappa) * Pow(2, q), d)
    ensures RoundedHalfUp(v, d, kappa - mk)
  {
    var unit, ten := TenDown(kappa), TenUp(kappa) * Pow(2, q);
    WithinTimes(v, w, m, mk, q, 2);
    hide Within, TenUp, TenDown, Pow, Gap;
    TwiceBoth(w, m, unit);
    hide RoundedTo;
    Compare(2 * v, 2 * w, 2 * m, mk, q, 2 * d - 1, kappa);
    Compare(2 * v, 2 * w, 2 * m, mk, q, 2 * d + 1, kappa);
  }

  lemma TwiceBoth(w: int, m: int, unit: int)
    ensures 2 * (w * unit - m * unit) == (2 * w - 2 * m) * unit
    ensures 2 * (w * unit + m * unit) == (2 * w + 2 * m) * unit
  {
  }

  /** Rounding ten times the number is rounding the number at the next lower place. */
  lemma RoundedTenTimes(v: int, d: int, k: int)
    requires RoundedHalfUp(10 * v, d, k)
    ensures RoundedHalfUp(v, d, k - 1)
  {
    GapTenTimes(2 * d - 1, k, 2 * v);
    GapTenTimes(2 * d + 1, k, 2 * v);
    assert 2 * (10 * v) == 10 * (2 * v);
  }

  lemma GapTenTimes(c: int, k: int, x: int)
    ensures Gap(c, k, 10 * x) < 0 <==> Gap(c, k - 1, x) < 0
    ensures Gap(c, k, 10 * x) == 0 <==> Gap(c, k - 1, x) == 0
  {
    GapShift(c, k, 10 * x, 1);
    assert Pow(10, 1) == 10;
    var a, u := Pow(2, SCALE) * TenUp(k - 1), TenDown(k - 1);
    assert Gap(c * 10, k - 1, 10 * x) == 10 * Gap(c, k - 1, x) by {
      MulAssoc(c, 10, a);
      MulAssoc(10, c, a);
      MulAssoc(10, x, u);
    }
  }

  /** Whatever the counted generation keeps is the number rounded to that many digits. */
  lemma CountedIsRounded(w: nat, q: nat, s: string, kappa: int, moved: bool, v: int, mk: int)
    requires KeptCount(w, q, s, kappa, moved) && Within(v, w, 1, mk, q)
    ensures SignificantDigits(v, s, |s| + kappa - mk + if moved then 1 else 0)
  {
    var D, k := Decimal(s), kappa - mk;
    var unit, ten := TenDown(kappa), TenUp(kappa) * Pow(2, q);
    hide Gap, Within, TenUp, TenDown, Pow, Decimal, RoundedTo, RoundedHalfUp;
    assert 1 * unit == unit;
    RoundedExactly(v, w, 1, mk, q, if moved then 10 * D else D, kappa);
    if moved {
      RoundedCoarser(v, D, k + 1);
    } else if Pow(10, |s| - 1) * ten <= w * unit - unit {
      LeadIsBelow(v, w, mk, q, |s| - 1, kappa);
      assert |s| + kappa - mk - 1 == k + (|s| - 1);
    } else {
      WithinTimes(v, w, 1, mk, q, 10);
      MulAssoc(10, w, unit);
      RoundedExactly(10 * v, 10 * w, 10, mk, q, 10 * D, kappa);
      RoundedTenTimes(v, 10 * D, k);
    }
  }

  lemma LeadIsBelow(v: int, w: nat, mk: int, q: nat, n: nat, kappa: int)
    requires Within(v, w, 1, mk, q) && Pow(10, n) * (TenUp(kappa) * Pow(2, q)) <= w * TenDown(kappa) - TenDown(kappa)
    ensures Gap(1, kappa - mk + n, v) <= 0
  {
    hide Gap, Within, TenUp, TenDown;
    var unit := TenDown(kappa);
    assert (w - 1) * unit == w * unit - unit;
    Compare(v, w, 1, mk, q, Pow(10, n), kappa);
    GapShift(1, kappa - mk + n, v, n);
    assert 1 * Pow(10, n) == Pow(10, n) && kappa - mk + n - n == kappa - mk;
  }

  /** Rounding to a number of digits has one result, digits and decimal point. */
  lemma SignificantUnique(v: int, s: string, point: int, s': string, point': int)
    requires |s| == |s'| && SignificantDigits(v, s, point) && SignificantDigits(v, s', point')
    ensures s == s' && point == point'
  {
    SignificantNotLeft(v, s, point, s', point');
    SignificantNotLeft(v, s', point', s, point);
    RoundedUnique(v, Decimal(s), Decimal(s'), point - |s|);
    DecimalInjective(s, s');
  }

  lemma SignificantNotLeft(v: int, s: string, point: int, s': string, point': int)
    requires |s| == |s'| && SignificantDigits(v, s, point) && SignificantDigits(v, s', point')
    ensures point' <= point
  {
    if point < point' {
      var n, k, k', D, D' := |s|, point - |s|, point' - |s'|, Decimal(s), Decimal(s');
      DecimalBound(s);
      NoLeadingPower(s');
      assert Pow(10, n) == 10 * Pow(10, n - 1);
      hide Gap, Decimal, Pow;
      if Gap(1, point' - 1, v) <= 0 {
        GapDouble(1, point' - 1, v);
        FinerPlace(2, point' - 1, 2 * v, k, 2 * D + 1, n);
      } else {
        FinerPlace(20 * D' - 1, k' - 1, 2 * v, k, 2 * D + 1, 0);
      }
    }
  }

  /** A decimal that is not above x stays so when it is made smaller. */
  lemma FinerPlace(c: nat, p: int, x: int, k: int, c': int, n: nat)
    requires p - k >= n && c' <= c * Pow(10, n) && Gap(c, p, x) <= 0
    ensures Gap(c', k, x) <= 0
  {
    var j := p - k;
    GapShift(c, p, x, j);
    PowMonotone(10, n, j);
    MulMonotone(Pow(10, n), Pow(10, j), c);
    hide Gap, Pow;
    assert p - j == k;
    GapMonotone(c', c * Pow(10, j), k, x);
  }
}
