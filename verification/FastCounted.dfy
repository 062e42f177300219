/** A fixed number of digits from 64-bit approximations: the counted digit generation of Grisu3. */
module FastCounted {
  import opened Arith
  import opened Machine
  import opened Digits
  import opened DecimalOrder
  import opened BignumDtoa
  import opened FastDtoa

  /** The digits so far and the rest make up the number. */
  ghost predicate Counted(h: nat, s: string, ten: nat, rest: nat)
  {
    Generated(h, h, s, ten, rest) && s != []
  }

  /** All that is known of a number less than u away from h: it is strictly between the midpoints around e * ten. */
  ghost predicate RoundedTo(h: int, u: int, ten: int, e: int)
  {
    (2 * e - 1) * ten <= 2 * (h - u) && 2 * (h + u) <= (2 * e + 1) * ten
  }

  /** Such a number has as many digits in front of the last place as there are digits, or is so close below the
      power of ten that it would be rounded up to it with one more digit, too. */
  ghost predicate PlaceRight(h: int, u: int, ten: int, s: string)
    requires AllDigits(s) && s != []
  {
    Pow(10, |s| - 1) * ten <= h - u || RoundedTo(10 * h, 10 * u, ten, 10 * Decimal(s))
  }

  /** What is known about a result; kappa is the exponent before rounding, moved when all digits were nines. */
  ghost predicate KeptCount(w: nat, q: nat, s: string, kappa: int, moved: bool)
  {
    && AllDigits(s) && s != [] && s[0] != '0'
    && var unit, ten := TenDown(kappa), TenUp(kappa) * Pow(2, q);
       && RoundedTo(w * unit, unit, ten, if moved then 10 * Decimal(s) else Decimal(s))
       && (!moved ==> PlaceRight(w * unit, unit, ten, s))
  }

  /** Before rounding: the number is not below the leading power of ten, or known with precision to spare. */
  ghost predicate Precise(h: int, u: int, ten: int, n: nat)
    requires n > 0
  {
    Pow(10, n - 1) * ten + u <= h || 40 * u <= ten
  }

  lemma RoundDown(h: nat, u: nat, ten: nat, rest: nat, s: string)
    requires Counted(h, s, ten, rest) && Precise(h, u, ten, |s|) && 0 < u && 2 * (rest + u) <= ten
    ensures AllDigits(s) && RoundedTo(h, u, ten, Decimal(s)) && PlaceRight(h, u, ten, s)
  {
    NoLeadingPower(s);
    var d, p := Decimal(s), Pow(10, |s| - 1);
    hide Pow, Decimal, AllDigits, NoMultiple;
    var c, lead := d * ten, p * ten;
    if p < d {
      MulMonotone(p + 1, d, ten);
      Distribute3(p, ten);
    }
    hide RoundedTo;
    DownArithmetic(h, u, ten, rest, d);
  }

  lemma Distribute3(p: int, ten: int)
    ensures (p + 1) * ten == p * ten + ten
  {
  }

  lemma DownArithmetic(h: int, u: int, ten: int, rest: int, d: int)
    requires h == d * ten + rest && 0 <= rest && 0 < u && 2 * (rest + u) <= ten
    ensures RoundedTo(h, u, ten, d)
    ensures 40 * u <= ten && rest < u ==> RoundedTo(10 * h, 10 * u, ten, 10 * d)
  {
    var c := d * ten;
    assert (2 * d - 1) * ten == 2 * c - ten && (2 * d + 1) * ten == 2 * c + ten;
    assert (2 * (10 * d) - 1) * ten == 20 * c - ten && (2 * (10 * d) + 1) * ten == 20 * c + ten;
  }

  lemma RoundUp(h: nat, u: nat, ten: nat, rest: nat, s: string)
    requires Counted(h, s, ten, rest) && 0 < u && 2 * u < ten && 2 * (rest - u) >= ten
    ensures AllDigits(s) && s[0] != '0' && RoundedTo(h, u, ten, Decimal(s) + 1) && Pow(10, |s| - 1) * ten <= h - u
  {
    NoLeadingPower(s);
    var d := Decimal(s);
    MulMonotone(Pow(10, |s| - 1), d, ten);
    hide Pow, Decimal, AllDigits, NoMultiple, RoundedTo;
    UpArithmetic(h, u, ten, rest, d);
  }

  lemma UpArithmetic(h: int, u: int, ten: int, rest: int, d: int)
    requires h == d * ten + rest && rest < ten && 0 < u && 2 * u < ten && 2 * (rest - u) >= ten
    ensures RoundedTo(h, u, ten, d + 1)
  {
    var c := d * ten;
    assert (2 * (d + 1) - 1) * ten == 2 * c + ten && (2 * (d + 1) + 1) * ten == 2 * c + 3 * ten;
  }

  /** Adds one to the digits; nines all along become a one and zeros, and the number a tenth of what it should be. */
  method IncrementDigits(buffer: array<char>, length: nat) returns (moved: bool)
    requires 0 < length <= buffer.Length && AllDigits(buffer[..length]) && buffer[0] != '0'
    modifies buffer
    ensures AllDigits(buffer[..length]) && buffer[0] != '0'
    ensures (if moved then 10 * Decimal(buffer[..length]) else Decimal(buffer[..length]))
      == old(Decimal(buffer[..length])) + 1
  {
    ghost var s := buffer[..length];
    buffer[length - 1] := (buffer[length - 1] as int + 1) as char;
    ghost var t := buffer[..length];
    LastPlusOne(s, t);
    assert buffer[..length - 1] == s[..length - 1];
    CarryDigits(buffer, length);
    ghost var wide := buffer[..length];
    WideLead(wide);
    assert wide[1..] == buffer[1..length];
    moved := buffer[0] == ':';
    if moved {
      AllNines(wide);
      buffer[0] := '1';
      assert buffer[..length] == ['1'] + wide[1..];
    } else {
      NoLeadingPower(s);
      WideIsDecimal(wide);
      NoLeadingZero(wide);
    }
  }

  lemma LastPlusOne(s: string, t: string)
    requires AllDigits(s) && s != [] && t == s[|s| - 1 := (s[|s| - 1] as int + 1) as char]
    ensures AllWide(t) && Wide(t) == Decimal(s) + 1 <= Pow(10, |t|)
  {
    assert t[..|t| - 1] == s[..|s| - 1];
    WideIsDecimal(s[..|s| - 1]);
    DecimalBound(s);
  }

  /** Rounds up when the rest is more than half of a last place; refuses when the error leaves that open. */
  method RoundWeedCounted(buffer: array<char>, length: nat, rest: uint64, tenKappa: uint64, unit: uint64, kappa: int,
                          ghost w: nat, ghost q: nat) returns (ok: bool, kappa': int)
    requires 0 < length <= buffer.Length && rest < tenKappa && 0 < unit
    requires unit == TenDown(kappa) && tenKappa == TenUp(kappa) * Pow(2, q) && 0 <= w * unit
    requires Counted(w * unit, buffer[..length], tenKappa, rest) && Precise(w * unit, unit, tenKappa, length)
    modifies buffer
    ensures kappa' - kappa in {0, 1}
    ensures ok ==> KeptCount(w, q, buffer[..length], kappa, kappa' != kappa)
  {
    kappa' := kappa;
    ok := false;
    hide TenUp, TenDown, Pow, Precise, RoundedTo, Generated, AllDigits, Decimal;
    CountedDigits(w * unit, buffer[..length], tenKappa, rest);
    if unit >= tenKappa {
      return;
    }
    if tenKappa - unit <= unit {
      return;
    }
    if tenKappa - rest > rest && tenKappa - 2 * rest >= 2 * unit {
      RoundDown(w * unit, unit, tenKappa, rest, buffer[..length]);
      ok := true;
      return;
    }
    if rest > unit && tenKappa - (rest - unit) <= rest - unit {
      RoundUp(w * unit, unit, tenKappa, rest, buffer[..length]);
      var moved := IncrementDigits(buffer, length);
      if moved {
        kappa' := kappa + 1;
      }
      ok := true;
    }
  }

  lemma CountedDigits(h: nat, s: string, ten: nat, rest: nat)
    requires Counted(h, s, ten, rest)
    ensures AllDigits(s) && s[0] != '0' && rest < ten
  {
  }

  // ---- Generating the digits ----

  /** Half a unit is little compared with a place in front of the decimal point. */
  lemma PreciseInteger(w: nat, q: nat, kappa: nat, n: nat)
    requires 32 <= q && n > 0
    ensures Precise(w, 1, Pow(10, kappa) * Pow(2, q), n)
  {
    LargePowers();
    PowMonotone(2, 32, q);
    PowPositive(10, kappa);
    MulMonotone(1, Pow(10, kappa), Pow(2, q));
  }

  /** What is left is more than the error, so the number is above the leading power of ten. */
  lemma PreciseFraction(h: nat, u: nat, s: string, one: nat, rest: nat)
    requires Counted(h, s, one, rest) && rest > u
    ensures Precise(10 * h, 10 * u, one, |s| + 1)
  {
    NoLeadingPower(s);
    var p := Pow(10, |s| - 1);
    MulMonotone(p, Decimal(s), one);
    assert Pow(10, |s|) == 10 * p;
    MulAssoc(10, p, one);
  }

  /** The numbers that the counted digit generation accepts. */
  predicate CountedInput(w: nat, q: nat)
  {
    32 <= q <= 60 && 0x4000_0000_0000_0000 <= w < TWO_64
  }

  /** The digits in front of the decimal point, or as many as requested. */
  method IntegralCounted(w: uint64, q: nat, requested: nat, buffer: array<char>)
    returns (length: nat, kappa: nat, integrals: uint32, fractionals: uint64, divisor: uint32, one: uint64)
    requires CountedInput(w, q) && 0 < requested <= buffer.Length
    modifies buffer
    ensures one == Pow(2, q) && fractionals < one && 0 <= ShiftUp(integrals, one) + fractionals <= w
    ensures 0 < length <= requested && (length < requested ==> kappa == 0 && integrals == 0)
    ensures 0 <= ShiftUp(Pow(10, kappa), one)
    ensures Counted(w, buffer[..length], ShiftUp(Pow(10, kappa), one), ShiftUp(integrals, one) + fractionals)
    ensures length == requested ==> divisor == Pow(10, kappa) && ShiftUp(divisor, one) <= w
  {
    var exponent;
    one, integrals, fractionals, divisor, exponent := Begin(w, q, w);
    NoPowerLeft();
    kappa := exponent;
    length := 0;
    assert buffer[..0] == [];
    hide Pow, DigitDone, Generated, ShiftUp;
    while kappa > 0
      invariant length < requested && fractionals < one
      invariant 0 <= integrals < Pow(10, kappa) && 0 <= ShiftUp(integrals, one) + fractionals <= w
      invariant kappa > 0 ==> divisor == Pow(10, kappa - 1) && 0 <= ShiftUp(divisor, one) <= w
      invariant 0 <= ShiftUp(Pow(10, kappa), one)
      invariant Generated(w, w, buffer[..length], ShiftUp(Pow(10, kappa), one), ShiftUp(integrals, one) + fractionals)
      invariant length == 0 ==> kappa > 0 && divisor <= integrals
    {
      integrals := IntegralDigit(buffer, length, integrals, divisor, kappa, one, fractionals, w, w);
      length := length + 1;
      kappa := kappa - 1;
      DigitKept(w, w, buffer[..length], ShiftUp(divisor, one), ShiftUp(integrals, one) + fractionals);
      if length == requested {
        break;
      }
      NextDivisor(kappa, divisor, one, w);
      divisor := divisor / 10;
    }
  }

  lemma TenTimes(w: nat, u: nat, n: nat)
    ensures 10 * (w * u) == w * (u * 10) && Pow(10, n + 1) == Pow(10, n) * 10
  {
    MulAssoc(w, u, 10);
  }

  /** The digits behind the decimal point, as long as the error is smaller than what is left. */
  method FractionCounted(w: uint64, q: nat, requested: nat, buffer: array<char>, start: nat, remaining: uint64,
                         one: uint64)
    returns (length: nat, kappa: int, fractionals: uint64, wError: uint64)
    requires 32 <= q <= 60 && 0 < start <= requested <= buffer.Length && one == Pow(2, q)
    requires Counted(w, buffer[..start], one, remaining)
    modifies buffer
    ensures start <= length <= requested && kappa <= 0 && 0 < wError == TenDown(kappa) && TenUp(kappa) == 1
      && 0 <= w * wError
    ensures fractionals < one && Counted(w * wError, buffer[..length], one, fractionals)
      && Precise(w * wError, wError, one, length)
  {
    OneSmall(q);
    FractionUnits(0);
    PreciseInteger(w, q, 0, start);
    length, kappa, fractionals, wError := start, 0, remaining, 1;
    ghost var h: nat := w;
    hide Pow, DigitDone, Generated, TenUp, TenDown, Precise;
    while length < requested && fractionals > wError
      invariant start <= length <= requested && kappa <= 0 && 0 < wError == Pow(10, 0 - kappa) && h == w * wError
      invariant fractionals < one && Counted(h, buffer[..length], one, fractionals) && Precise(h, wError, one, length)
      decreases requested - length
    {
      PreciseFraction(h, wError, buffer[..length], one, fractionals);
      TenTimes(w, wError, 0 - kappa);
      fractionals := FractionDigit(buffer, length, fractionals, one, h, h);
      wError, h := wError * 10, 10 * h;
      length := length + 1;
      kappa := kappa - 1;
      DigitKept(h, h, buffer[..length], one, fractionals);
    }
    FractionUnits(0 - kappa);
  }

  /** Generates as many digits as requested, and rounds the last one. */
  method DigitGenCounted(w: uint64, q: nat, requested: nat, buffer: array<char>)
    returns (ok: bool, length: nat, kappa: int, ghost place: int)
    requires CountedInput(w, q) && 0 < requested <= buffer.Length
    modifies buffer
    ensures length <= requested && kappa - place in {0, 1}
    ensures ok ==> length == requested && KeptCount(w, q, buffer[..length], place, kappa != place)
  {
    var integrals, fractionals, divisor, one;
    NoPowerLeft();
    assert 32 <= q <= 60;
    hide *;
    length, kappa, integrals, fractionals, divisor, one := IntegralCounted(w, q, requested, buffer);
    WholeUnits(kappa);
    PreciseInteger(w, q, kappa, length);
    ShiftBasics(one);
    CountedDigits(w, buffer[..length], ShiftUp(Pow(10, kappa), one), ShiftUp(integrals, one) + fractionals);
    if length == requested {
      var rest: uint64 := ShiftUp(integrals, one) + fractionals;
      place := kappa;
      ok, kappa := RoundWeedCounted(buffer, length, rest, ShiftUp(divisor, one), 1, kappa, w, q);
      return;
    }
    var wError;
    length, kappa, fractionals, wError := FractionCounted(w, q, requested, buffer, length, fractionals, one);
    place := kappa;
    if length != requested {
      return false, length, kappa, place;
    }
    ok, kappa := RoundWeedCounted(buffer, length, fractionals, one, wError, kappa, w, q);
  }
}
