/** Shortest digits from 64-bit approximations: the digit generation and the weeding of Grisu3. */
module FastDtoa {
  import opened Arith
  import opened Machine
  import opened Digits
  import opened DecimalOrder
  import opened PowerEstimates

  /** No multiple of d lies above l and at or below h. */
  ghost predicate NoMultiple(l: int, h: int, d: int)
  {
    d > 0 && h % d >= h - l
  }

  lemma NoMultipleMeans(l: int, h: int, d: int, n: int)
    requires NoMultiple(l, h, d) && n * d <= h
    ensures n * d <= l
  {
    var q := h / d;
    assert h == q * d + h % d;
    if n > q {
      MulMonotone(q + 1, n, d);
    }
    MulMonotone(n, q, d);
  }

  /** What weeding promises about the digits' number D, in units of which the interval goes from l to h and
      w is known to lie less than u away from wv: D * ten is safely inside, and a neighbour in the interval
      is never as close to w. */
  ghost predicate Weeded(h: int, l: int, wv: int, u: int, ten: int, D: int)
  {
    && l + 4 * u <= D * ten <= h - 2 * u
    && ((D + 1) * ten <= h ==> 2 * (wv + u) <= (2 * D + 1) * ten)
    && ((D - 1) * ten >= l ==> 2 * (wv - u) >= (2 * D - 1) * ten)
  }

  /** The digits have been lowered as long as that came closer to the upper end of what w may be. */
  ghost predicate Approached(h: int, rest: int, start: int, small: int, ten: int)
  {
    rest == start || (rest > start && (rest < small || 2 * rest - ten <= 2 * small))
  }

  /** Rounds the buffer towards w, and screens out results that may be wrong. */
  method RoundWeed(buffer: array<char>, length: nat, distanceTooHighW: uint64, unsafeInterval: uint64,
                   start: uint64, tenKappa: uint64, unit: uint64, ghost h: nat, ghost l: nat) returns (ok: bool)
    requires 0 < length <= buffer.Length && AllDigits(buffer[..length])
    requires 0 < unit <= distanceTooHighW && distanceTooHighW + unit <= unsafeInterval && 4 * unit <= unsafeInterval
    requires unsafeInterval == h - l && start < unsafeInterval && start < tenKappa
    requires h == Decimal(buffer[..length]) * tenKappa + start && NoMultiple(l, h, 10 * tenKappa)
    modifies buffer
    ensures AllDigits(buffer[..length]) && buffer[..length - 1] == old(buffer[..length - 1])
    ensures Decimal(buffer[..length]) <= old(Decimal(buffer[..length]))
    ensures ok ==> Weeded(h, l, h - distanceTooHighW, unit, tenKappa, Decimal(buffer[..length]))
  {
    var rest: uint64 := start;
    var smallDistance: uint64 := distanceTooHighW - unit;
    var bigDistance: uint64 := distanceTooHighW + unit;
    ghost var first := Decimal(buffer[..length]);
    while rest < smallDistance && unsafeInterval - rest >= tenKappa
          && (rest + tenKappa < smallDistance || smallDistance - rest >= rest + tenKappa - smallDistance)
      invariant start <= rest <= unsafeInterval && AllDigits(buffer[..length]) && Decimal(buffer[..length]) <= first
      invariant h == Decimal(buffer[..length]) * tenKappa + rest
      invariant buffer[..length - 1] == old(buffer[..length - 1])
      invariant Approached(h, rest, start, smallDistance, tenKappa)
      decreases unsafeInterval - rest
    {
      ghost var s := buffer[..length];
      LastNotZero(s, h, l, rest, tenKappa);
      buffer[length - 1] := (buffer[length - 1] as int - 1) as char;
      LowerLast(s, buffer[..length]);
      rest := rest + tenKappa;
      OneLess(Decimal(s), tenKappa);
    }
    if rest < bigDistance && unsafeInterval - rest >= tenKappa
       && (rest + tenKappa < bigDistance || bigDistance - rest > rest + tenKappa - bigDistance) {
      return false;
    }
    ok := 2 * unit <= rest && rest <= unsafeInterval - 4 * unit;
    if ok {
      WeedingEnds(h, l, distanceTooHighW, unit, tenKappa, Decimal(buffer[..length]), rest, start);
    }
  }

  /** A last digit of zero would make the number a multiple that does not exist in the interval. */
  lemma LastNotZero(s: string, h: nat, l: nat, rest: nat, ten: nat)
    requires AllDigits(s) && s != [] && ten > 0
    requires h == Decimal(s) * ten + rest && rest < h - l && NoMultiple(l, h, 10 * ten)
    ensures s[|s| - 1] != '0'
  {
    if s[|s| - 1] == '0' {
      var d := Decimal(s[..|s| - 1]);
      assert Decimal(s) == d * 10;
      MulAssoc(d, 10, ten);
      NoMultipleMeans(l, h, 10 * ten, d);
    }
  }

  lemma LowerLast(s: string, t: string)
    requires AllDigits(s) && s != [] && s[|s| - 1] != '0' && |t| == |s|
    requires t[..|t| - 1] == s[..|s| - 1] && t[|t| - 1] == (s[|s| - 1] as int - 1) as char
    ensures AllDigits(t) && Decimal(t) == Decimal(s) - 1
  {
    assert forall i :: 0 <= i < |t| - 1 ==> t[i] == t[..|t| - 1][i] && s[i] == s[..|s| - 1][i];
  }

  lemma OneLess(d: int, ten: int)
    ensures d * ten == (d - 1) * ten + ten
  {
  }

  lemma WeedingEnds(h: int, l: int, dist: int, u: int, ten: int, D: int, rest: int, start: int)
    requires h == D * ten + rest && 0 <= start < ten && u > 0
    requires Approached(h, rest, start, dist - u, ten) && rest >= start
    requires rest < dist - u && h - l - rest >= ten ==>
               !(rest + ten < dist - u || dist - u - rest >= rest + ten - (dist - u))
    requires rest < dist + u && h - l - rest >= ten ==>
               !(rest + ten < dist + u || dist + u - rest > rest + ten - (dist + u))
    requires 2 * u <= rest <= h - l - 4 * u
    ensures Weeded(h, l, h - dist, u, ten, D)
  {
    assert (D + 1) * ten == D * ten + ten && (D - 1) * ten == D * ten - ten;
    assert (2 * D + 1) * ten == 2 * (D * ten) + ten && (2 * D - 1) * ten == 2 * (D * ten) - ten;
  }

  // ---- The biggest power of ten ----

  const SMALL_POWERS_OF_TEN: seq<uint32> :=
    [0, 1, 10, 100, 1000, 10000, 100000, 1000000, 10000000, 100000000, 1000000000]

  lemma SmallPowers(i: nat)
    requires 0 < i <= 10
    ensures SMALL_POWERS_OF_TEN[i] == Pow(10, i - 1)
  {
    assert Pow(10, 0) == 1 && Pow(10, 1) == 10 && Pow(10, 2) == 100 && Pow(10, 3) == 1000 && Pow(10, 4) == 10000;
    PowAdd(10, 1, 4);
    PowAdd(10, 2, 4);
    PowAdd(10, 3, 4);
    PowAdd(10, 4, 4);
    PowAdd(10, 1, 8);
  }

  lemma GuessFits(bits: nat, guess: nat)
    requires 4 <= bits <= 32 && guess == (bits + 1) * 1233 / 4096 + 1
    ensures 2 <= guess <= 10 && Pow(2, bits + 1) <= Pow(10, guess) && Pow(10, guess - 2) <= Pow(2, bits - 2)
  {
    hide Pow;
    TwosAbove();
    TwosBelow();
    GuessClose(bits, guess);
    ScaleOrder(2, 485, 10, 146, bits + 1, guess);
    ScaleOrder(10, 643, 2, 2136, guess - 2, bits - 2);
  }

  lemma GuessClose(bits: nat, guess: nat)
    requires 4 <= bits <= 32 && guess == (bits + 1) * 1233 / 4096 + 1
    ensures 2 <= guess <= 10 && 146 * (bits + 1) <= 485 * guess && 2136 * (guess - 2) <= 643 * (bits - 2)
  {
  }

  /** The biggest power of ten up to the number; 1233 / 4096 stands for the logarithm of two. */
  method BiggestPowerTen(number: uint32, numberBits: nat) returns (power: uint32, exponentPlusOne: nat)
    requires 4 <= numberBits <= 32 && Pow(2, numberBits - 2) <= number < Pow(2, numberBits + 1)
    ensures 0 < exponentPlusOne && power == Pow(10, exponentPlusOne - 1) <= number < Pow(10, exponentPlusOne)
  {
    var guess := (numberBits + 1) * 1233 / 4096 + 1;
    GuessFits(numberBits, guess);
    SmallPowers(guess);
    SmallPowers(guess - 1);
    hide Pow;
    if number < SMALL_POWERS_OF_TEN[guess] {
      guess := guess - 1;
    }
    power := SMALL_POWERS_OF_TEN[guess];
    exponentPlusOne := guess;
  }

  // ---- Generating digits ----

  /** The digits so far and the rest make up the number; nothing coarser lies in the interval. */
  ghost predicate Generated(h: nat, l: nat, s: string, ten: nat, rest: nat)
  {
    && AllDigits(s) && ten > 0 && rest < ten && h == Decimal(s) * ten + rest && NoMultiple(l, h, ten)
    && (s != [] ==> s[0] != '0')
  }

  /** What is known about a result of the digit generation: kappa is the exponent of its last digit, and
      low, w and high are counted in units of 2^-q. */
  ghost predicate GrisuResult(low: nat, w: nat, high: nat, q: nat, s: string, kappa: int)
  {
    && AllDigits(s) && s != [] && s[0] != '0'
    && var unit, ten := TenDown(kappa), TenUp(kappa) * Pow(2, q);
       var h, l := (high + 1) * unit, (low - 1) * unit;
       && NoMultiple(l, h, 10 * ten) && h < Pow(10, |s|) * ten
       && Weeded(h, l, w * unit, unit, ten, Decimal(s))
  }

  /** One more digit. */
  lemma GenerateStep(h: nat, l: nat, s: string, ten: nat, rest: nat, ten': nat, digit: nat, rest': nat)
    requires Generated(h, l, s, ten, rest) && ten == 10 * ten' && rest == digit * ten' + rest' && rest' < ten'
    requires s == [] ==> digit > 0
    ensures digit <= 9 && AllDigits(s + [DigitChar(digit)])
    ensures h == Decimal(s + [DigitChar(digit)]) * ten' + rest' && h % ten' == rest'
    ensures rest' >= h - l ==> Generated(h, l, s + [DigitChar(digit)], ten', rest')
    ensures (s + [DigitChar(digit)])[0] != '0'
  {
    OneMoreDigit(Decimal(s), digit, ten', rest');
    hide NoMultiple;
    DecimalSnoc(s, DigitChar(digit));
    hide Decimal, AllDigits;
    SplitOff(h, l, Decimal(s + [DigitChar(digit)]), ten', rest');
  }

  lemma OneMoreDigit(d: int, digit: int, ten: int, rest: int)
    requires rest >= 0 && ten > 0
    ensures (d * 10 + digit) * ten == d * (10 * ten) + digit * ten
    ensures digit * ten + rest < 10 * ten ==> digit <= 9
  {
    MulAssoc(d, 10, ten);
    if digit > 9 {
      MulMonotone(10, digit, ten);
    }
  }

  lemma SplitOff(h: int, l: int, d: int, ten: int, rest: int)
    requires h == d * ten + rest && 0 <= rest < ten
    ensures h % ten == rest && (rest >= h - l ==> NoMultiple(l, h, ten))
  {
    DivUnique(h, ten, d, rest);
  }

  /** The same interval, with everything ten times as large. */
  lemma GenerateTimesTen(h: nat, l: nat, s: string, ten: nat, rest: nat)
    requires Generated(h, l, s, ten, rest)
    ensures Generated(10 * h, 10 * l, s, 10 * ten, 10 * rest)
  {
    var d := Decimal(s);
    assert 10 * h == d * (10 * ten) + 10 * rest by {
      MulAssoc(d, 10, ten);
      MulAssoc(10, d, ten);
    }
    DivUnique(h, ten, d, rest);
    DivUnique(10 * h, 10 * ten, d, 10 * rest);
  }

  /** As long as digits are missing there is room for one more. */
  lemma RoomForDigit(h: nat, l: nat, s: string, ten: nat, rest: nat, capacity: nat)
    requires Generated(h, l, s, ten, rest) && l < h && capacity > 0
    requires h < (h - l) * Pow(10, capacity - 1)
    ensures |s| < capacity
  {
    if s != [] {
      NoLeadingPower(s);
      DivUnique(h, ten, Decimal(s), rest);
      var p := Pow(10, |s| - 1);
      MulMonotone(p, Decimal(s), ten);
      PowPositive(10, |s| - 1);
      MulMonotone(h - l, ten, p);
      assert (h - l) * p <= h;
      if |s| > capacity - 1 {
        PowMonotone(10, capacity - 1, |s| - 1);
        MulMonotone(Pow(10, capacity - 1), p, h - l);
      }
    }
  }

  lemma NoLeadingPower(s: string)
    requires AllDigits(s) && s != [] && s[0] != '0'
    ensures Decimal(s) >= Pow(10, |s| - 1)
  {
    WideIsDecimal(s);
    WideLead(s);
    PowPositive(10, |s| - 1);
    MulMonotone(1, DigitOf(s[0]), Pow(10, |s| - 1));
  }

  /** The inputs of the digit generation: three numbers in units of 2^-q, with room between them. */
  predicate GenInputs(low: nat, w: nat, high: nat, q: nat)
  {
    && 32 <= q <= 60 && 0 < low < w < high && low + 2 <= high < TWO_64 - 1
    && 0x4000_0000_0000_0000 <= high
  }

  /** Enough room for as many digits as it takes to tell the ends of the interval apart. */
  predicate EnoughRoom(low: nat, high: nat, capacity: nat)
  {
    capacity > 0 && high + 1 < (high - low + 2) * Pow(10, capacity - 1)
  }

  lemma BelowPower(s: string, h: nat, ten: nat, rest: nat)
    requires AllDigits(s) && h == Decimal(s) * ten + rest && rest < ten
    ensures h < Pow(10, |s|) * ten
  {
    DecimalBound(s);
    PartBelow(Decimal(s), Pow(10, |s|), ten, rest);
  }

  lemma PartBelow(d: int, p: int, ten: int, rest: int)
    requires d < p && 0 <= rest < ten
    ensures d * ten + rest < p * ten
  {
    MulMonotone(d + 1, p, ten);
    assert (d + 1) * ten == d * ten + ten;
  }

  lemma StillNonzero(s: string, t: string, h: int, l: nat, wv: int, u: nat, ten: nat)
    requires AllDigits(s) && AllDigits(t) && s != [] && |t| == |s| && s[0] != '0'
    requires t[..|t| - 1] == s[..|s| - 1] && Weeded(h, l, wv, u, ten, Decimal(t)) && u > 0
    ensures t[0] != '0'
  {
    if |t| == 1 {
      assert t[..0] == [];
      assert Decimal(t) == DigitOf(t[0]);
    } else {
      assert t[0] == t[..|t| - 1][0] && s[0] == s[..|s| - 1][0];
    }
  }

  /** Stops after a digit that leaves the number in the interval, and weeds the result. */
  method Finish(buffer: array<char>, length: nat, low: uint64, w: uint64, high: uint64, q: nat, kappa: int,
                unsafeInterval: uint64, rest: uint64, tenKappa: uint64, unit: uint64) returns (ok: bool)
    requires GenInputs(low, w, high, q) && 0 < length <= buffer.Length && AllDigits(buffer[..length])
      && buffer[0] != '0'
    requires unit == TenDown(kappa) && tenKappa == TenUp(kappa) * Pow(2, q)
    requires unsafeInterval == (high - low + 2) * unit && rest < unsafeInterval && rest < tenKappa
    requires (high + 1) * unit == Decimal(buffer[..length]) * tenKappa + rest
    requires NoMultiple((low - 1) * unit, (high + 1) * unit, 10 * tenKappa)
    modifies buffer
    ensures ok ==> GrisuResult(low, w, high, q, buffer[..length], kappa)
  {
    ghost var s, h, l := buffer[..length], (high + 1) * unit, (low - 1) * unit;
    hide Pow, Decimal, NoMultiple, TenUp, TenDown, Weeded;
    Distances(low, w, high, unit);
    BelowPower(s, h, tenKappa, rest);
    ok := RoundWeed(buffer, length, (high + 1 - w) * unit, unsafeInterval, rest, tenKappa, unit, h, l);
    if ok {
      StillNonzero(s, buffer[..length], h, l, w * unit, unit, tenKappa);
    }
  }

  lemma Distances(low: nat, w: nat, high: nat, unit: nat)
    requires 0 < low < w < high && low + 2 <= high && (high - low + 2) * unit < TWO_64 && unit > 0
    ensures var dist, unsafeInterval := (high + 1 - w) * unit, (high - low + 2) * unit;
            && unit <= dist && dist + unit <= unsafeInterval && 4 * unit <= unsafeInterval
            && unsafeInterval == (high + 1) * unit - (low - 1) * unit && (high + 1) * unit - dist == w * unit
            && 0 <= (low - 1) * unit && 0 <= (high + 1) * unit
  {
    MulMonotone(1, high + 1 - w, unit);
    MulMonotone(high + 2 - w, high - low + 2, unit);
    MulMonotone(4, high - low + 2, unit);
    MulMonotone(0, low - 1, unit);
    assert (high + 2 - w) * unit == (high + 1 - w) * unit + unit;
    assert (high - low + 2) * unit == (high + 1) * unit - (low - 1) * unit;
    assert (high + 1) * unit - (high + 1 - w) * unit == w * unit;
  }

  /** The integral part and its biggest power of ten. */
  method Setup(number: uint64, q: nat) returns (one: uint64, integrals: uint32, divisor: uint32, exponent: nat)
    requires 32 <= q <= 60 && 0x4000_0000_0000_0000 <= number
    ensures one == Pow(2, q) > 0 && integrals == number / one
    ensures 0 < exponent && divisor == Pow(10, exponent - 1) <= integrals < Pow(10, exponent)
  {
    SixtyFourBits(q);
    PowPositive(10, 0);
    hide Pow;
    one := Pow(2, q);
    DivBelow(number, Pow(2, 64 - q), one);
    DivAtLeast(number, Pow(2, 62 - q), one);
    integrals := number / one;
    divisor, exponent := BiggestPowerTen(integrals, 64 - q);
  }

  lemma SixtyFourBits(q: nat)
    requires 32 <= q <= 60
    ensures 0 < Pow(2, q) < TWO_64 && Pow(2, 64 - q) * Pow(2, q) == TWO_64
      && Pow(2, 62 - q) * Pow(2, q) == 0x4000_0000_0000_0000
    ensures Pow(2, 64 - q) <= TWO_32 && Pow(2, 64 - q) <= Pow(2, 65 - q)
  {
    LargePowers();
    hide Pow;
    PowAdd(2, 64 - q, q);
    PowAdd(2, 62 - q, q);
    PowPositive(2, q);
    PowMonotone(2, q, 63);
    PowMonotone(2, 64 - q, 32);
    PowMonotone(2, 64 - q, 65 - q);
  }

  lemma LargePowers()
    ensures Pow(2, 32) == TWO_32 && Pow(2, 62) == 0x4000_0000_0000_0000 && Pow(2, 64) == TWO_64 && Pow(2, 63) < TWO_64
  {
    assert Pow(2, 15) == 32768 && Pow(2, 1) == 2;
    PowAdd(2, 1, 15);
    PowAdd(2, 16, 16);
    PowAdd(2, 15, 15);
    PowAdd(2, 30, 32);
    PowAdd(2, 1, 62);
    PowAdd(2, 1, 63);
  }

  lemma DivAtLeast(x: nat, q: nat, d: nat)
    requires d > 0 && x >= q * d
    ensures x / d >= q
  {
    if x / d < q {
      MulMonotone(x / d + 1, q, d);
    }
  }

  /** x shifted left by the bits of the fraction. */
  function ShiftUp(x: int, one: int): int
  {
    x * one
  }

  lemma FirstState(h: nat, l: nat, tens: nat, one: nat, integrals: nat, fractionals: nat)
    requires one > 0 && integrals == h / one && fractionals == h % one && integrals < tens
    ensures h == ShiftUp(integrals, one) + fractionals && 0 <= ShiftUp(tens, one)
      && Generated(h, l, [], ShiftUp(tens, one), h)
  {
    MulMonotone(integrals + 1, tens, one);
    DivUnique(h, tens * one, 0, h);
  }

  lemma FirstDivisor(h: nat, one: nat, divisor: nat)
    requires one > 0 && divisor <= h / one
    ensures 0 <= ShiftUp(divisor, one) <= h
  {
    MulMonotone(divisor, h / one, one);
    MulMonotone(0, divisor, one);
  }

  /** Dividing by the power of ten below yields the next digit. */
  lemma NextIntegral(h: nat, l: nat, s: string, kappa: nat, one: nat, integrals: nat, fractionals: nat, divisor: nat)
    requires kappa > 0 && divisor == Pow(10, kappa - 1) && one > 0 && fractionals < one
    requires 0 <= ShiftUp(Pow(10, kappa), one) && 0 <= ShiftUp(integrals, one) + fractionals
    requires Generated(h, l, s, ShiftUp(Pow(10, kappa), one), ShiftUp(integrals, one) + fractionals)
    requires s == [] ==> divisor <= integrals
    ensures divisor > 0
    ensures var digit, rest := integrals / divisor, ShiftUp(integrals % divisor, one) + fractionals;
            && 0 <= digit <= 9 && AllDigits(s + [DigitChar(digit)]) && (s + [DigitChar(digit)])[0] != '0'
            && 0 <= rest < ShiftUp(divisor, one) && rest <= h
            && h == Decimal(s + [DigitChar(digit)]) * ShiftUp(divisor, one) + rest
            && (rest >= h - l ==> Generated(h, l, s + [DigitChar(digit)], ShiftUp(divisor, one), rest))
            && NoMultiple(l, h, 10 * ShiftUp(divisor, one))
  {
    PowPositive(10, kappa - 1);
    assert Pow(10, kappa) == 10 * divisor;
    hide Pow;
    IntegralParts(integrals, fractionals, divisor, one);
    var ten', digit, rest := ShiftUp(divisor, one), integrals / divisor,
      ShiftUp(integrals % divisor, one) + fractionals;
    assert ShiftUp(10 * divisor, one) == 10 * ten' by {
      MulAssoc(10, divisor, one);
    }
    hide *;
    NextDigit10(h, l, s, ShiftUp(Pow(10, kappa), one), ShiftUp(integrals, one) + fractionals, ten', digit, rest);
  }

  /** Splitting the integral part splits the number. */
  lemma IntegralParts(integrals: int, fractionals: nat, divisor: nat, one: nat)
    requires divisor > 0 && one > 0 && fractionals < one && 0 <= ShiftUp(integrals, one) + fractionals
    ensures integrals >= 0 && ShiftUp(divisor, one) > 0
    ensures var digit, rest := integrals / divisor, ShiftUp(integrals % divisor, one) + fractionals;
            && 0 <= digit && 0 <= rest < ShiftUp(divisor, one)
            && ShiftUp(integrals, one) + fractionals == digit * ShiftUp(divisor, one) + rest
            && (divisor <= integrals ==> digit > 0)
  {
    if integrals < 0 {
      MulMonotone(integrals, -1, one);
    }
    var digit, m := integrals / divisor, integrals % divisor;
    MulMonotone(m + 1, divisor, one);
    MulMonotone(0, m, one);
    MulPositive(divisor, one);
    assert integrals * one == digit * (divisor * one) + m * one by {
      MulAssoc(digit, divisor, one);
    }
    DivAtLeast(integrals, 0, divisor);
    if divisor <= integrals {
      DivAtLeast(integrals, 1, divisor);
    }
  }

  lemma NextDigit10(h: nat, l: nat, s: string, ten: nat, rest: nat, ten': nat, digit: nat, rest': nat)
    requires Generated(h, l, s, ten, rest) && ten == 10 * ten' && rest == digit * ten' + rest' && rest' < ten'
    requires s == [] ==> digit > 0
    ensures digit <= 9 && AllDigits(s + [DigitChar(digit)]) && (s + [DigitChar(digit)])[0] != '0'
    ensures h == Decimal(s + [DigitChar(digit)]) * ten' + rest' && rest' <= h
    ensures rest' >= h - l ==> Generated(h, l, s + [DigitChar(digit)], ten', rest')
    ensures NoMultiple(l, h, 10 * ten')
  {
    GenerateStep(h, l, s, ten, rest, ten', digit, rest');
    MulMonotone(0, Decimal(s + [DigitChar(digit)]), ten');
  }

  /** One digit more, whether or not the rest has reached the interval. */
  ghost predicate DigitDone(h: nat, l: nat, s: string, ten: int, rest: int)
  {
    && AllDigits(s) && s != [] && s[0] != '0' && 0 <= rest < ten && rest <= h && h == Decimal(s) * ten + rest
    && (rest >= h - l ==> Generated(h, l, s, ten, rest)) && NoMultiple(l, h, 10 * ten)
  }

  /** Writes the next digit in front of the decimal point. */
  method IntegralDigit(buffer: array<char>, length: nat, integrals: uint32, divisor: uint32, ghost kappa: nat,
                       ghost one: nat, ghost fractionals: nat, ghost h: nat, ghost l: nat) returns (left: uint32)
    requires length < buffer.Length && kappa > 0 && divisor == Pow(10, kappa - 1) && one > 0 && fractionals < one
    requires 0 <= ShiftUp(Pow(10, kappa), one) && 0 <= ShiftUp(integrals, one) + fractionals
    requires Generated(h, l, buffer[..length], ShiftUp(Pow(10, kappa), one), ShiftUp(integrals, one) + fractionals)
    requires length == 0 ==> divisor <= integrals
    modifies buffer
    ensures left < divisor && buffer[..length] == old(buffer[..length])
    ensures 0 <= ShiftUp(left, one) + fractionals < ShiftUp(divisor, one) && ShiftUp(left, one) + fractionals <= h
    ensures DigitDone(h, l, buffer[..length + 1], ShiftUp(divisor, one), ShiftUp(left, one) + fractionals)
  {
    ghost var s := buffer[..length];
    NextIntegral(h, l, s, kappa, one, integrals, fractionals, divisor);
    hide Pow, Decimal, AllDigits, NoMultiple, Generated, ShiftUp;
    var digit := integrals / divisor;
    buffer[length] := DigitChar(digit);
    assert buffer[..length + 1] == s + [DigitChar(digit)];
    RemainderBelow(integrals, divisor);
    left := integrals % divisor;
  }

  lemma NextDivisor(kappa: nat, divisor: nat, one: nat, h: nat)
    requires divisor == Pow(10, kappa) && 0 <= ShiftUp(divisor, one) <= h
    ensures divisor / 10 >= 0
    ensures kappa > 0 ==> divisor / 10 == Pow(10, kappa - 1) && 0 <= ShiftUp(divisor / 10, one) <= h
  {
    MulMonotone(0, divisor / 10, one);
    MulMonotone(divisor / 10, divisor, one);
  }

  lemma ShiftBasics(one: int)
    ensures ShiftUp(0, one) == 0 && ShiftUp(1, one) == one
  {
  }

  lemma WholeUnits(kappa: nat)
    ensures TenDown(kappa) == 1 && TenUp(kappa) == Pow(10, kappa)
    ensures forall one: int {:trigger ShiftUp(Pow(10, kappa), one)} ::
      ShiftUp(Pow(10, kappa), one) == TenUp(kappa) * one
  {
  }

  lemma NoPowerLeft()
    ensures Pow(10, 0) == 1
  {
  }

  /** Cuts the number into its integral and its fractional part, with no digit generated yet. */
  method Begin(number: uint64, q: nat, ghost l: nat)
    returns (one: uint64, integrals: uint32, fractionals: uint64, divisor: uint32, exponent: nat)
    requires 32 <= q <= 60 && 0x4000_0000_0000_0000 <= number
    ensures one == Pow(2, q) > 0 && fractionals < one && number == ShiftUp(integrals, one) + fractionals
    ensures 0 < exponent && divisor == Pow(10, exponent - 1) <= integrals < Pow(10, exponent)
    ensures 0 <= ShiftUp(Pow(10, exponent), one) && Generated(number, l, [], ShiftUp(Pow(10, exponent), one), number)
    ensures 0 <= ShiftUp(divisor, one) <= number
  {
    one, integrals, divisor, exponent := Setup(number, q);
    fractionals := number % one;
    FirstState(number, l, Pow(10, exponent), one, integrals, fractionals);
    FirstDivisor(number, one, divisor);
    hide *;
  }

  /** The digits in front of the decimal point. */
  method IntegralDigits(low: uint64, w: uint64, high: uint64, q: nat, buffer: array<char>)
    returns (done: bool, ok: bool, length: nat, kappa: int, fractionals: uint64)
    requires GenInputs(low, w, high, q) && EnoughRoom(low, high, buffer.Length)
    modifies buffer
    ensures length <= buffer.Length
    ensures done && ok ==> GrisuResult(low, w, high, q, buffer[..length], kappa)
    ensures !done ==> Generated(high + 1, low - 1, buffer[..length], Pow(2, q), fractionals) && length > 0
    ensures !done ==> kappa == 0 && fractionals >= high - low + 2
  {
    var one: uint64, integrals: uint32, divisor: uint32, exponent: nat;
    one, integrals, fractionals, divisor, exponent := Begin(high + 1, q, low - 1);
    NoPowerLeft();
    var unsafeInterval: uint64 := high - low + 2;
    kappa := exponent;
    length := 0;
    assert buffer[..0] == [];
    ShiftBasics(one);
    hide Pow, DigitDone, Generated, GrisuResult, EnoughRoom, ShiftUp;
    while kappa > 0
      invariant 0 <= kappa && length <= buffer.Length && fractionals < one
      invariant 0 <= integrals < Pow(10, kappa) && 0 <= ShiftUp(integrals, one) + fractionals
      invariant kappa > 0 ==> divisor == Pow(10, kappa - 1) && 0 <= ShiftUp(divisor, one) <= high + 1
      invariant 0 <= ShiftUp(Pow(10, kappa), one)
      invariant Generated(high + 1, low - 1, buffer[..length], ShiftUp(Pow(10, kappa), one),
                          ShiftUp(integrals, one) + fractionals)
      invariant if length == 0 then kappa > 0 && divisor <= integrals
        else ShiftUp(integrals, one) + fractionals >= unsafeInterval
    {
      RoomToGo(low, high, buffer[..length], ShiftUp(Pow(10, kappa), one), ShiftUp(integrals, one) + fractionals,
               buffer.Length);
      integrals := IntegralDigit(buffer, length, integrals, divisor, kappa, one, fractionals, high + 1, low - 1);
      length := length + 1;
      kappa := kappa - 1;
      var rest: uint64 := ShiftUp(integrals, one) + fractionals;
      if rest < unsafeInterval {
        ok := FinishIntegral(buffer, length, low, w, high, q, kappa, unsafeInterval, rest, ShiftUp(divisor, one));
        done := true;
        return;
      }
      DigitKept(high + 1, low - 1, buffer[..length], ShiftUp(divisor, one), rest);
      NextDivisor(kappa, divisor, one, high + 1);
      divisor := divisor / 10;
    }
    done, ok := false, false;
  }

  /** Stops in front of the decimal point, where the unit is one. */
  method FinishIntegral(buffer: array<char>, length: nat, low: uint64, w: uint64, high: uint64, q: nat, kappa: nat,
                        unsafeInterval: uint64, rest: uint64, tenKappa: uint64) returns (ok: bool)
    requires GenInputs(low, w, high, q) && 0 < length <= buffer.Length && tenKappa == ShiftUp(Pow(10, kappa), Pow(2, q))
    requires DigitDone(high + 1, low - 1, buffer[..length], tenKappa, rest) && rest < unsafeInterval == high - low + 2
    modifies buffer
    ensures ok ==> GrisuResult(low, w, high, q, buffer[..length], kappa)
  {
    WholeUnits(kappa);
    hide Pow, Decimal, AllDigits, NoMultiple, Generated, GrisuResult, ShiftUp, TenUp, TenDown;
    ok := Finish(buffer, length, low, w, high, q, kappa, unsafeInterval, rest, tenKappa, 1);
  }

  lemma DigitKept(h: nat, l: nat, s: string, ten: int, rest: int)
    requires DigitDone(h, l, s, ten, rest) && rest >= h - l
    ensures ten >= 0 && rest >= 0 && Generated(h, l, s, ten, rest)
  {
  }

  lemma DigitSettled(h: nat, l: nat, s: string, ten: int, rest: int)
    requires DigitDone(h, l, s, ten, rest)
    ensures AllDigits(s) && s != [] && s[0] != '0' && h == Decimal(s) * ten + rest && NoMultiple(l, h, 10 * ten)
  {
  }

  lemma RoomToGo(low: nat, high: nat, s: string, ten: nat, rest: nat, capacity: nat)
    requires 0 < low <= high && EnoughRoom(low, high, capacity) && Generated(high + 1, low - 1, s, ten, rest)
    ensures |s| < capacity
  {
    RoomForDigit(high + 1, low - 1, s, ten, rest, capacity);
  }

  lemma RemainderBelow(x: nat, d: nat)
    requires d > 0
    ensures 0 <= x % d < d && 0 <= x / d && x % d <= x
  {
  }

  /** Ten times the state, and the next digit split off. */
  lemma NextFraction(h: nat, l: nat, s: string, one: nat, fractionals: nat)
    requires Generated(h, l, s, one, fractionals) && s != []
    ensures var digit, rest := 10 * fractionals / one, 10 * fractionals % one;
            && 0 <= digit <= 9 && AllDigits(s + [DigitChar(digit)]) && (s + [DigitChar(digit)])[0] != '0'
            && 10 * h == Decimal(s + [DigitChar(digit)]) * one + rest && 0 <= rest <= 10 * h
            && (rest >= 10 * h - 10 * l ==> Generated(10 * h, 10 * l, s + [DigitChar(digit)], one, rest))
            && NoMultiple(10 * l, 10 * h, 10 * one)
  {
    GenerateTimesTen(h, l, s, one, fractionals);
    var digit, rest := 10 * fractionals / one, 10 * fractionals % one;
    DivAtLeast(10 * fractionals, 0, one);
    hide Decimal, AllDigits;
    NextDigit10(10 * h, 10 * l, s, 10 * one, 10 * fractionals, one, digit, rest);
  }

  /** Multiplies by ten and writes the integral part. */
  method FractionDigit(buffer: array<char>, length: nat, fractionals: uint64, one: uint64, ghost h: nat, ghost l: nat)
    returns (left: uint64)
    requires 0 < length < buffer.Length && one <= 0x1000_0000_0000_0000
      && Generated(h, l, buffer[..length], one, fractionals)
    modifies buffer
    ensures left < one && buffer[..length] == old(buffer[..length])
    ensures DigitDone(10 * h, 10 * l, buffer[..length + 1], one, left)
  {
    ghost var s := buffer[..length];
    NextFraction(h, l, s, one, fractionals);
    assert 0 < one && fractionals < one;
    hide Pow, Decimal, AllDigits, NoMultiple, Generated;
    var ten: uint64 := fractionals * 10;
    var digit := ten / one;
    buffer[length] := DigitChar(digit);
    assert buffer[..length + 1] == s + [DigitChar(digit)];
    RemainderBelow(ten, one);
    left := ten % one;
  }

  /** The scaled state is the state of the scaled numbers. */
  lemma UnitTimesTen(low: nat, high: nat, n: nat)
    requires 0 < low <= high
    ensures Pow(10, n + 1) == 10 * Pow(10, n)
    ensures 10 * ((high + 1) * Pow(10, n)) == (high + 1) * Pow(10, n + 1)
    ensures 10 * ((low - 1) * Pow(10, n)) == (low - 1) * Pow(10, n + 1)
    ensures 0 <= (low - 1) * Pow(10, n) <= (high + 1) * Pow(10, n)
  {
    var unit := Pow(10, n);
    MulAssoc(10, high + 1, unit);
    MulAssoc(high + 1, 10, unit);
    MulAssoc(10, low - 1, unit);
    MulAssoc(low - 1, 10, unit);
    MulMonotone(0, low - 1, unit);
    MulMonotone(low - 1, high + 1, unit);
  }

  lemma FractionUnits(n: nat)
    ensures n > 0 ==> TenUp(0 - n) == 1 && TenDown(0 - n) == Pow(10, n)
    ensures Pow(10, 0) == 1
  {
  }

  lemma RoomInFraction(low: nat, high: nat, s: string, n: nat, one: nat, fractionals: nat, capacity: nat)
    requires 0 < low <= high && EnoughRoom(low, high, capacity)
    requires 0 <= (low - 1) * Pow(10, n)
      && Generated((high + 1) * Pow(10, n), (low - 1) * Pow(10, n), s, one, fractionals)
    ensures |s| < capacity
  {
    var u, m := Pow(10, n), Pow(10, capacity - 1);
    PowPositive(10, n);
    ScaleRoom(low, high, u, m);
    hide Generated, Pow;
    RoomForDigit((high + 1) * u, (low - 1) * u, s, one, fractionals, capacity);
  }

  lemma ScaleRoom(low: int, high: int, u: int, m: int)
    requires low <= high && u > 0 && high + 1 < (high - low + 2) * m
    ensures (high + 1) * u < ((high + 1) * u - (low - 1) * u) * m && (low - 1) * u < (high + 1) * u
  {
    MulStrict(high + 1, (high - low + 2) * m, u);
    MulAssoc(high - low + 2, m, u);
    MulAssoc(high - low + 2, u, m);
    MulStrict(low - 1, high + 1, u);
    Factor(high + 1, low - 1, u);
  }

  lemma Factor(a: int, b: int, u: int)
    ensures (a - b) * u == a * u - b * u
  {
  }

  /** The digits behind the decimal point. */
  method FractionDigits(low: uint64, w: uint64, high: uint64, q: nat, buffer: array<char>, start: nat,
                        remaining: uint64)
    returns (ok: bool, length: nat, kappa: int)
    requires GenInputs(low, w, high, q) && EnoughRoom(low, high, buffer.Length) && 0 < start <= buffer.Length
    requires Generated(high + 1, low - 1, buffer[..start], Pow(2, q), remaining) && remaining >= high - low + 2
    modifies buffer
    ensures length <= buffer.Length
    ensures ok ==> GrisuResult(low, w, high, q, buffer[..length], kappa)
  {
    OneSmall(q);
    FractionUnits(0);
    var one: uint64 := Pow(2, q);
    var fractionals: uint64, unit: uint64, unsafeInterval: uint64 := remaining, 1, high - low + 2;
    length, kappa := start, 0;
    hide Pow, DigitDone, NoMultiple, Generated, GrisuResult, TenUp, TenDown, EnoughRoom;
    while true
      invariant 0 < length <= buffer.Length && kappa <= 0 && unit == Pow(10, 0 - kappa)
      invariant 0 <= (low - 1) * unit <= (high + 1) * unit
      invariant Generated((high + 1) * unit, (low - 1) * unit, buffer[..length], one, fractionals)
      invariant unsafeInterval == (high - low + 2) * unit && 0 < unsafeInterval <= fractionals < one
      decreases one - unsafeInterval
    {
      RoomInFraction(low, high, buffer[..length], 0 - kappa, one, fractionals, buffer.Length);
      UnitTimesTen(low, high, 0 - kappa);
      UnsafeTimesTen(low, high, unit);
      fractionals := FractionDigit(buffer, length, fractionals, one, (high + 1) * unit, (low - 1) * unit);
      unit := unit * 10;
      unsafeInterval := unsafeInterval * 10;
      length := length + 1;
      kappa := kappa - 1;
      if fractionals < unsafeInterval {
        FractionUnits(0 - kappa);
        DigitSettled((high + 1) * unit, (low - 1) * unit, buffer[..length], one, fractionals);
        ok := Finish(buffer, length, low, w, high, q, kappa, unsafeInterval, fractionals, one, unit);
        return;
      }
      DigitKept((high + 1) * unit, (low - 1) * unit, buffer[..length], one, fractionals);
    }
  }

  lemma UnsafeTimesTen(low: nat, high: nat, unit: nat)
    requires 0 < low <= high
    ensures 10 * ((high - low + 2) * unit) == (high - low + 2) * (unit * 10) && unit <= (high - low + 2) * unit
    ensures (high - low + 2) * unit == (high + 1) * unit - (low - 1) * unit
  {
    MulAssoc(high - low + 2, unit, 10);
    MulMonotone(1, high - low + 2, unit);
  }

  lemma OneSmall(q: nat)
    requires q <= 60
    ensures 0 < Pow(2, q) <= 0x1000_0000_0000_0000
  {
    PowPositive(2, q);
    PowMonotone(2, q, 60);
    LargePowers();
    assert Pow(2, 2) == 4;
    hide Pow;
    PowAdd(2, 2, 60);
  }

  /** The shortest digits between the approximate boundaries, as far as the precision lets it decide. */
  method DigitGen(low: uint64, w: uint64, high: uint64, q: nat, buffer: array<char>)
    returns (ok: bool, length: nat, kappa: int)
    requires GenInputs(low, w, high, q) && EnoughRoom(low, high, buffer.Length)
    modifies buffer
    ensures length <= buffer.Length
    ensures ok ==> GrisuResult(low, w, high, q, buffer[..length], kappa)
  {
    hide *;
    var done, fractionals;
    done, ok, length, kappa, fractionals := IntegralDigits(low, w, high, q, buffer);
    if !done {
      ok, length, kappa := FractionDigits(low, w, high, q, buffer, length, fractionals);
    }
  }
}
