/** Printing with big integers: start values, the digit generators and their driver. */
module BignumDtoa {
  import opened Arith
  import opened Machine
  import opened Bigits
  import opened Digits
  import opened Bignums
  import opened DtoaSpec
  import opened StartValues
  import opened PowerEstimates
  import opened DecimalOrder
  import opened PrintSpec


  /** What the first `length` digits have used up: num * 10^j == digits * den + rest. */
  lemma NextDigit(num: nat, den: nat, j: nat, d: nat, rest: nat, digit: nat, rem: nat)
    requires num * Pow(10, j) == d * den * 10 + rest
    requires rest == den * digit + rem
    ensures num * Pow(10, j) == (d * 10 + digit) * den + rem
  {
    hide Pow;
    calc {
      (d * 10 + digit) * den;
      { DtoaSpec.Distribute(d * 10, digit, den); MulAssoc(d, 10, den); }
      d * (10 * den) + digit * den;
      { MulAssoc(d, den, 10); }
      d * den * 10 + digit * den;
    }
  }

  lemma TimesTen(x: nat, j: nat)
    ensures x * Pow(10, j + 1) == 10 * (x * Pow(10, j))
  {
    MulAssoc(x, 10, Pow(10, j));
    MulAssoc(10, x, Pow(10, j));
  }

  /** The state of the generator after `digits`: the rest, ten times scaled, and the scaled distances. */
  ghost predicate Generating(num: nat, den: nat, dm: nat, dp: nat, even: bool, digits: string, rest: nat, low: nat,
                             high: nat)
  {
    && AllDigits(digits)
    && (digits != [] ==> digits[0] != '0')
    && num * Pow(10, |digits|) == Decimal(digits) * den * 10 + rest
    && low == dm * Pow(10, |digits|) && high == dp * Pow(10, |digits|)
    && (if even then rest + high < 10 * den else rest + high <= 10 * den)
    && (if even then low < rest else low <= rest)
    && (digits == [] ==> if even then den <= rest + high else den < rest + high)
    && (forall c: nat, j: nat :: j < |digits| ==> !Inside(num, den, dm, dp, even, c, j))
  }

  lemma GeneratingStart(num: nat, den: nat, dm: nat, dp: nat, even: bool)
    requires if even then den <= num + dp < 10 * den else den < num + dp <= 10 * den
    requires if even then dm < num else dm <= num
    ensures Generating(num, den, dm, dp, even, [], num, dm, dp)
  {
    assert Pow(10, 0) == 1;
  }

  /** Neither room: the digit is final, and everything is scaled by ten. */
  lemma GeneratingStep(num: nat, den: nat, dm: nat, dp: nat, even: bool, digits: string, rest: nat, low: nat, high: nat,
                       digit: nat, rem: nat)
    requires Generating(num, den, dm, dp, even, digits, rest, low, high)
    requires den > 0 && rest == den * digit + rem && rem < den && digit <= 9
    requires !RoomMinus(rem, low, even) && !RoomPlus(rem, high, den, even)
    ensures Generating(num, den, dm, dp, even, digits + [DigitChar(digit)], 10 * rem, 10 * low, 10 * high)
  {
    var j := |digits|;
    var s := digits + [DigitChar(digit)];
    DecimalSnoc(digits, DigitChar(digit));
    NextDigit(num, den, j, Decimal(digits), rest, digit, rem);
    TimesTen(num, j);
    TimesTen(dm, j);
    TimesTen(dp, j);
    hide Pow;
    forall c: nat, i: nat | i < j + 1
      ensures !Inside(num, den, dm, dp, even, c, i)
    {
      if i == j {
        NoCandidate(num, den, dm, dp, even, Decimal(s), rem, j, c);
      }
    }
    if digits == [] {
      assert digit != 0;
    }
  }

  /** A last digit 9 with room above would reach the boundary that the fraction stays below. */
  lemma NineIsNeverRoundedUp(rest: nat, den: nat, digit: nat, rem: nat, high: nat, even: bool)
    requires rest == den * digit + rem && digit <= 9
    requires if even then rest + high < 10 * den else rest + high <= 10 * den
    requires RoomPlus(rem, high, den, even)
    ensures digit < 9
  {
  }

  /** Some room: the digits, the last one rounded up or not, are the shortest ones. */
  lemma GeneratingEnd(num: nat, den: nat, dm: nat, dp: nat, even: bool, digits: string, rest: nat, low: nat, high: nat,
                      digit: nat, rem: nat, up: bool)
    requires Generating(num, den, dm, dp, even, digits, rest, low, high)
    requires den > 0 && rest == den * digit + rem && rem < den && digit <= 9 && dm > 0 && dp > 0
    requires RoomMinus(rem, low, even) || RoomPlus(rem, high, den, even)
    requires up == RoundsUp(rem, low, high, den, even, digit)
    ensures up ==> digit < 9
    ensures Shortest(num, den, dm, dp, even, digits + [DigitChar(if up then digit + 1 else digit)])
  {
    if RoomPlus(rem, high, den, even) {
      NineIsNeverRoundedUp(rest, den, digit, rem, high, even);
    }
    var j, last := |digits|, if up then digit + 1 else digit;
    var d := Decimal(digits) * 10 + digit;
    DecimalSnoc(digits, DigitChar(last));
    NextDigit(num, den, j, Decimal(digits), rest, digit, rem);
    SameParity(Decimal(digits), digit, rem, low, high, den, even);
    hide Pow, Inside, Closest, RoomMinus, RoomPlus, RoundsUp;
    Choose(num, den, dm, dp, even, d, rem, j, if up then d + 1 else d);
    if digits == [] {
      assert last != 0 by {
        FirstDigitNonzero(rest, den, digit, rem, low, high, even);
      }
    }
  }

  lemma SameParity(d: nat, digit: nat, rem: nat, low: nat, high: nat, den: nat, even: bool)
    ensures RoundsUp(rem, low, high, den, even, digit) == RoundsUp(rem, low, high, den, even, d * 10 + digit)
  {
    hide RoomMinus, RoomPlus;
    DivUnique(d * 10 + digit, 2, d * 5 + digit / 2, digit % 2);
  }

  lemma FirstDigitNonzero(rest: nat, den: nat, digit: nat, rem: nat, low: nat, high: nat, even: bool)
    requires rest == den * digit + rem
    requires if even then low < rest else low <= rest
    requires if even then den <= rest + high else den < rest + high
    ensures digit == 0 ==> RoundsUp(rem, low, high, den, even, digit)
  {
  }

  /** The digits end at last when the interval spans a whole digit. */
  lemma EndsInTime(num: nat, den: nat, dm: nat, dp: nat, even: bool, digits: string, rest: nat, low: nat, high: nat,
                   digit: nat, rem: nat, limit: nat)
    requires Generating(num, den, dm, dp, even, digits, rest, low, high)
    requires rest == den * digit + rem && rem < den
    requires !RoomMinus(rem, low, even) && !RoomPlus(rem, high, den, even)
    requires limit > 0 && den < (dm + dp) * Pow(10, limit - 1)
    ensures |digits| < limit - 1
  {
    var j := |digits|;
    DtoaSpec.Distribute(dm, dp, Pow(10, j));
    if limit - 1 <= j {
      PowMonotone(10, limit - 1, j);
      MulMonotone(Pow(10, limit - 1), Pow(10, j), dm + dp);
    }
  }

  lemma DigitBound(den: nat, rest: nat)
    requires den > 0 && rest < 10 * den
    ensures rest / den <= 9 && rest < TWO_16 * den
    ensures rest == den * (rest / den) + rest % den
  {
    DivBelow(rest, 10, den);
  }

  method GenerateShortestDigits(numerator: Bignum, denominator: Bignum, deltaMinus: Bignum, deltaPlus: Bignum,
                                isEven: bool, buffer: array<char>, ghost limit: nat) returns (length: nat)
    requires AllApart(numerator, denominator, deltaMinus, deltaPlus)
    requires numerator.Valid() && denominator.Valid() && deltaMinus.Valid() && deltaPlus.Valid()
    requires 0 < denominator.Value() && 10 * denominator.Value() < Pow(BASE, CAPACITY - 8)
    requires deltaMinus.Value() > 0 && deltaPlus.Value() > 0
    requires var n, d, m, p := numerator.Value(), denominator.Value(), deltaMinus.Value(), deltaPlus.Value();
             && (if isEven then d <= n + p < 10 * d else d < n + p <= 10 * d)
             && (if isEven then m < n else m <= n)
             && limit > 0 && d < (m + p) * Pow(10, limit - 1)
    requires limit <= buffer.Length
    modifies numerator, numerator.bigits, deltaMinus, deltaMinus.bigits, deltaPlus, deltaPlus.bigits, buffer
    ensures 0 < length <= limit
    ensures Shortest(old(numerator.Value()), old(denominator.Value()), old(deltaMinus.Value()), old(deltaPlus.Value()),
                     isEven, buffer[..length])
    ensures denominator.Valid()
  {
    ghost var n0, d, m0, p0 := numerator.Value(), denominator.Value(), deltaMinus.Value(), deltaPlus.Value();
    hide Pow, Val, Scaled, Generating, Shortest;
    // If both distances are the same, one number stands for both.
    var upper := deltaPlus;
    var same := Bignum.Compare(deltaMinus, deltaPlus);
    if same == 0 {
      upper := deltaMinus;
    }
    length := 0;
    GeneratingStart(n0, d, m0, p0, isEven);
    assert buffer[..0] == [];
    var done := false;
    while !done
      invariant upper == deltaPlus || upper == deltaMinus
      invariant numerator.Valid() && denominator.Valid() && deltaMinus.Valid() && upper.Valid()
      invariant denominator.Value() == d
      invariant if done then 0 < length <= limit else length < limit
      invariant !done
        ==> Generating(n0, d, m0, p0, isEven, buffer[..length], numerator.Value(), deltaMinus.Value(), upper.Value())
      invariant done ==> Shortest(n0, d, m0, p0, isEven, buffer[..length])
      decreases limit - length, !done
    {
      done := GenerateDigit(numerator, denominator, deltaMinus, upper, isEven, buffer, length, n0, m0, p0, limit);
      length := length + 1;
    }
  }

  /** The body of the loop above. */
  method GenerateDigit(numerator: Bignum, denominator: Bignum, deltaMinus: Bignum, deltaPlus: Bignum, isEven: bool,
                       buffer: array<char>, length: nat, ghost n0: nat, ghost m0: nat, ghost p0: nat, ghost limit: nat)
    returns (done: bool)
    requires numerator.Apart(denominator) && numerator.Apart(deltaMinus) && numerator.Apart(deltaPlus)
    requires denominator.Apart(deltaMinus) && denominator.Apart(deltaPlus)
    requires deltaMinus == deltaPlus || deltaMinus.Apart(deltaPlus)
    requires numerator.Valid() && denominator.Valid() && deltaMinus.Valid() && deltaPlus.Valid()
    requires 0 < denominator.Value() && 10 * denominator.Value() < Pow(BASE, CAPACITY - 8)
    requires m0 > 0 && p0 > 0 && length < limit <= buffer.Length
    requires denominator.Value() < (m0 + p0) * Pow(10, limit - 1)
    requires Generating(n0, denominator.Value(), m0, p0, isEven, buffer[..length],
                        numerator.Value(), deltaMinus.Value(), deltaPlus.Value())
    modifies numerator, numerator.bigits, deltaMinus, deltaMinus.bigits, deltaPlus, deltaPlus.bigits, buffer
    ensures numerator.Valid() && denominator.Valid() && deltaMinus.Valid() && deltaPlus.Valid()
    ensures denominator.Value() == old(denominator.Value())
    ensures done ==> Shortest(n0, denominator.Value(), m0, p0, isEven, buffer[..length + 1])
    ensures !done ==> length + 1 < limit
                      && Generating(n0, denominator.Value(), m0, p0, isEven, buffer[..length + 1],
                                    numerator.Value(), deltaMinus.Value(), deltaPlus.Value())
  {
    hide Pow, Val, Scaled, Generating, Shortest, RoomMinus, RoomPlus;
    ghost var s, d := buffer[..length], denominator.Value();
    ghost var rest, low, high := numerator.Value(), deltaMinus.Value(), deltaPlus.Value();
    GeneratingBounds(n0, d, m0, p0, isEven, s, rest, low, high);
    var digit := NextQuotient(numerator, denominator);
    ghost var rem := numerator.Value();
    buffer[length] := DigitChar(digit);
    assert buffer[..length + 1] == s + [DigitChar(digit)];
    var inDeltaRoomMinus, inDeltaRoomPlus := Rooms(numerator, denominator, deltaMinus, deltaPlus, isEven);
    if !inDeltaRoomMinus && !inDeltaRoomPlus {
      EndsInTime(n0, d, m0, p0, isEven, s, rest, low, high, digit, rem, limit);
      GeneratingStep(n0, d, m0, p0, isEven, s, rest, low, high, digit, rem);
      ScaleByTen(numerator, deltaMinus, deltaPlus);
      done := false;
    } else {
      ghost var up := RoundsUp(rem, low, high, d, isEven, digit);
      GeneratingEnd(n0, d, m0, p0, isEven, s, rest, low, high, digit, rem, up);
      RoundLastDigit(numerator, denominator, inDeltaRoomMinus, inDeltaRoomPlus, buffer, length + 1, s, digit, up);
      done := true;
    }
  }

  method NextQuotient(numerator: Bignum, denominator: Bignum) returns (digit: uint16)
    requires numerator.Apart(denominator) && numerator.Valid() && denominator.Valid()
    requires 0 < denominator.Value() && numerator.Value() < 10 * denominator.Value() < Pow(BASE, CAPACITY - 8)
    modifies numerator, numerator.bigits
    ensures numerator.Valid() && denominator.Valid() && denominator.Value() == old(denominator.Value())
    ensures digit <= 9 && numerator.Value() < denominator.Value()
    ensures old(numerator.Value()) == denominator.Value() * digit + numerator.Value()
  {
    numerator.SmallFits();
    denominator.ZeroIff();
    DigitBound(denominator.Value(), numerator.Value());
    digit := numerator.DivideModuloIntBignum(denominator);
  }

  /** Whether the remainder may be dropped, and whether it may be rounded up. */
  method Rooms(numerator: Bignum, denominator: Bignum, deltaMinus: Bignum, deltaPlus: Bignum, isEven: bool)
    returns (inDeltaRoomMinus: bool, inDeltaRoomPlus: bool)
    requires numerator.Valid() && denominator.Valid() && deltaMinus.Valid() && deltaPlus.Valid()
    ensures inDeltaRoomMinus == RoomMinus(numerator.Value(), deltaMinus.Value(), isEven)
    ensures inDeltaRoomPlus == RoomPlus(numerator.Value(), deltaPlus.Value(), denominator.Value(), isEven)
  {
    var compareMinus := Bignum.Compare(numerator, deltaMinus);
    inDeltaRoomMinus := if isEven then compareMinus <= 0 else compareMinus < 0;
    var comparePlus := Bignum.PlusCompare(numerator, deltaPlus, denominator);
    inDeltaRoomPlus := if isEven then comparePlus >= 0 else comparePlus > 0;
  }

  /** Prepares the next iteration; a shared distance is scaled once. */
  method ScaleByTen(numerator: Bignum, deltaMinus: Bignum, deltaPlus: Bignum)
    requires numerator.Apart(deltaMinus) && numerator.Apart(deltaPlus)
    requires deltaMinus == deltaPlus || deltaMinus.Apart(deltaPlus)
    requires numerator.Small() && deltaMinus.Small() && deltaPlus.Small()
    modifies numerator, numerator.bigits, deltaMinus, deltaMinus.bigits, deltaPlus, deltaPlus.bigits
    ensures numerator.Valid() && deltaMinus.Valid() && deltaPlus.Valid()
    ensures numerator.Value() == 10 * old(numerator.Value())
    ensures deltaMinus.Value() == 10 * old(deltaMinus.Value())
    ensures deltaPlus.Value() == 10 * old(deltaPlus.Value())
  {
    hide Pow, Val, Scaled;
    numerator.Times10();
    deltaMinus.Times10();
    if deltaMinus != deltaPlus {
      deltaPlus.Times10();
    }
  }

  /** Decides about the last digit. It cannot be a 9 when it is rounded up. */
  method RoundLastDigit(numerator: Bignum, denominator: Bignum, inDeltaRoomMinus: bool, inDeltaRoomPlus: bool,
                        buffer: array<char>, length: nat, ghost s: string, ghost digit: nat, ghost up: bool)
    requires numerator.Valid() && denominator.Valid()
    requires 0 < length <= buffer.Length && digit <= 9 && (up ==> digit < 9)
    requires buffer[..length] == s + [DigitChar(digit)]
    requires inDeltaRoomMinus || inDeltaRoomPlus
    requires up == if inDeltaRoomMinus && inDeltaRoomPlus
                   then 2 * numerator.Value() > denominator.Value()
                        || (2 * numerator.Value() == denominator.Value() && digit % 2 == 1)
                   else inDeltaRoomPlus
    modifies buffer
    ensures buffer[..length] == s + [DigitChar(if up then digit + 1 else digit)]
  {
    hide Pow, Val, Scaled;
    assert buffer[length - 1] == DigitChar(digit);
    var last := buffer[length - 1] as int;
    if inDeltaRoomMinus && inDeltaRoomPlus {
      var compare := Bignum.PlusCompare(numerator, numerator, denominator);
      if compare < 0 {
        // The remaining digits are less than a half: round down.
      } else if compare > 0 {
        buffer[length - 1] := (last + 1) as char;
      } else if (last - '0' as int) % 2 != 0 {
        // A half is rounded towards the even digit.
        buffer[length - 1] := (last + 1) as char;
      }
    } else if inDeltaRoomMinus {
      // Round down.
    } else {
      buffer[length - 1] := (last + 1) as char;
    }
    assert buffer[..length] == s + [buffer[length - 1]];
  }

  lemma GeneratingBounds(num: nat, den: nat, dm: nat, dp: nat, even: bool, digits: string, rest: nat, low: nat,
                         high: nat)
    requires Generating(num, den, dm, dp, even, digits, rest, low, high)
    requires den > 0 && dp > 0
    ensures rest <= 10 * den && low <= 10 * den && high <= 10 * den
    ensures rest < 10 * den
  {
    PowPositive(10, |digits|);
    MulPositive(dp, Pow(10, |digits|));
  }

  // ---- A fixed number of digits ----

  /** num * 10^j / den, rounded half up. */
  function RoundHalfUp(num: nat, den: nat): nat
    requires den > 0
  {
    (2 * num + den) / (2 * den)
  }

  lemma RoundHalfUpBounds(num: nat, den: nat)
    requires den > 0
    ensures var d := RoundHalfUp(num, den); 2 * d * den <= 2 * num + den < 2 * d * den + 2 * den
  {
    var d := RoundHalfUp(num, den);
    assert 2 * num + den == (2 * den) * d + (2 * num + den) % (2 * den);
    assert (2 * den) * d == 2 * d * den by {
      MulAssoc(2, den, d);
      MulAssoc(2, d, den);
    }
  }

  lemma RoundQuotient(num: nat, den: nat, q: nat, r: nat)
    requires den > 0 && num == q * den + r && r < den
    ensures RoundHalfUp(num, den) == if 2 * r >= den then q + 1 else q
  {
    var d := if 2 * r >= den then q + 1 else q;
    var x := 2 * num + den - (2 * den) * d;
    assert (2 * den) * q == 2 * (q * den) by {
      MulAssoc(2, den, q);
    }
    assert (2 * den) * (q + 1) == (2 * den) * q + 2 * den;
    DivUnique(2 * num + den, 2 * den, d, x);
  }

  /** What the digits have used up so far. */
  ghost predicate Counting(num: nat, den: nat, digits: string, rest: nat)
  {
    && AllDigits(digits)
    && num * Pow(10, |digits|) == Decimal(digits) * den * 10 + rest
    && rest < 10 * den
  }

  lemma CountingStart(num: nat, den: nat)
    requires num < 10 * den
    ensures Counting(num, den, [], num)
  {
    assert Pow(10, 0) == 1;
  }

  lemma CountingStep(num: nat, den: nat, digits: string, rest: nat, digit: nat, rem: nat)
    requires Counting(num, den, digits, rest)
    requires rest == den * digit + rem && rem < den && digit <= 9
    ensures Counting(num, den, digits + [DigitChar(digit)], 10 * rem)
  {
    DecimalSnoc(digits, DigitChar(digit));
    NextDigit(num, den, |digits|, Decimal(digits), rest, digit, rem);
    TimesTen(num, |digits|);
  }

  /** The last digit, which may become ten. */
  lemma CountingEnd(num: nat, den: nat, digits: string, rest: nat, digit: nat, rem: nat, last: nat)
    requires den > 0 && Counting(num, den, digits, rest)
    requires rest == den * digit + rem && rem < den && digit <= 9
    requires last == if 2 * rem >= den then digit + 1 else digit
    ensures AllWide(digits + [DigitChar(last)])
    ensures Wide(digits + [DigitChar(last)]) == RoundHalfUp(num * Pow(10, |digits|), den) <= Pow(10, |digits| + 1)
  {
    CountingQuotient(num, den, digits, rest, digit, rem);
    hide Pow, Counting, RoundHalfUp;
    WideIsDecimal(digits);
    WideSnoc(digits, DigitChar(last));
  }

  lemma CountingQuotient(num: nat, den: nat, digits: string, rest: nat, digit: nat, rem: nat)
    requires den > 0 && Counting(num, den, digits, rest)
    requires rest == den * digit + rem && rem < den && digit <= 9
    ensures var q := Decimal(digits) * 10 + digit;
            && RoundHalfUp(num * Pow(10, |digits|), den) == (if 2 * rem >= den then q + 1 else q)
            && q + 1 <= Pow(10, |digits| + 1)
  {
    NextDigit(num, den, |digits|, Decimal(digits), rest, digit, rem);
    RoundQuotient(num * Pow(10, |digits|), den, Decimal(digits) * 10 + digit, rem);
    DecimalBound(digits);
  }

  /** Moves carries to the left until a position holds a proper digit. */
  method CarryDigits(buffer: array<char>, count: nat)
    requires 0 < count <= buffer.Length
    requires AllWide(buffer[..count]) && AllDigits(buffer[..count - 1])
    modifies buffer
    ensures AllWide(buffer[..count]) && AllDigits(buffer[1..count])
    ensures Wide(buffer[..count]) == old(Wide(buffer[..count]))
  {
    var i := count - 1;
    while i > 0
      invariant 0 <= i < count
      invariant AllWide(buffer[..count])
      invariant forall k :: 0 <= k < count && k != i ==> IsDigit(buffer[k])
      invariant Wide(buffer[..count]) == old(Wide(buffer[..count]))
    {
      if buffer[i] != ':' {
        break;
      }
      ghost var s := buffer[..count];
      WideCarry(s, i);
      buffer[i] := '0';
      buffer[i - 1] := (buffer[i - 1] as int + 1) as char;
      assert buffer[..count] == s[i := '0'][i - 1 := (s[i - 1] as int + 1) as char];
      i := i - 1;
    }
    assert forall k :: 1 <= k < count ==> IsDigit(buffer[k]);
  }

  /** Generates `count` digits of numerator/denominator, which is below ten, and rounds half up. A carry
      out of the first digit moves the decimal point. */
  method GenerateCountedDigits(count: nat, point: int, numerator: Bignum, denominator: Bignum, buffer: array<char>)
    returns (length: nat, decimalPoint: int)
    requires 0 < count <= buffer.Length
    requires numerator.Apart(denominator) && numerator.Valid() && denominator.Valid()
    requires 0 < denominator.Value() && numerator.Value() < 10 * denominator.Value() < Pow(BASE, CAPACITY - 8)
    modifies numerator, numerator.bigits, buffer
    ensures length == count && decimalPoint - point in {0, 1}
    ensures AllDigits(buffer[..length]) && (decimalPoint != point ==> buffer[0] == '1')
    ensures Decimal(buffer[..length]) * (if decimalPoint == point then 1 else 10)
            == RoundHalfUp(old(numerator.Value()) * Pow(10, count - 1), old(denominator.Value()))
    ensures denominator.Valid() && denominator.Value() == old(denominator.Value())
  {
    hide Pow, Val, Scaled, Counting;
    ghost var n0, d := numerator.Value(), denominator.Value();
    CountingStart(n0, d);
    assert buffer[..0] == [];
    for i := 0 to count - 1
      invariant numerator.Valid() && denominator.Valid() && denominator.Value() == d
      invariant Counting(n0, d, buffer[..i], numerator.Value())
    {
      ghost var s, rest := buffer[..i], numerator.Value();
      CountingBound(n0, d, s, rest);
      var digit := NextQuotient(numerator, denominator);
      buffer[i] := DigitChar(digit);
      assert buffer[..i + 1] == s + [DigitChar(digit)];
      CountingStep(n0, d, s, rest, digit, numerator.Value());
      numerator.Times10();
    }
    LastDigit(n0, count, numerator, denominator, buffer);
    CarryDigits(buffer, count);
    decimalPoint := point;
    ghost var wide := buffer[..count];
    WideLead(wide);
    if buffer[0] == ':' {
      AllNines(wide);
      buffer[0] := '1';
      decimalPoint := point + 1;
      assert buffer[..count] == ['1'] + wide[1..];
    } else {
      WideIsDecimal(wide);
    }
    length := count;
  }

  lemma CountingBound(num: nat, den: nat, digits: string, rest: nat)
    requires Counting(num, den, digits, rest)
    ensures AllDigits(digits) && rest < 10 * den
  {
  }

  /** Generates the digit that is rounded. */
  method LastDigit(ghost n0: nat, count: nat, numerator: Bignum, denominator: Bignum, buffer: array<char>)
    requires 0 < count <= buffer.Length
    requires numerator.Apart(denominator) && numerator.Valid() && denominator.Valid()
    requires 0 < denominator.Value() && 10 * denominator.Value() < Pow(BASE, CAPACITY - 8)
    requires Counting(n0, denominator.Value(), buffer[..count - 1], numerator.Value())
    modifies numerator, numerator.bigits, buffer
    ensures numerator.Valid() && denominator.Valid() && denominator.Value() == old(denominator.Value())
    ensures AllWide(buffer[..count]) && AllDigits(buffer[..count - 1])
    ensures Wide(buffer[..count]) == RoundHalfUp(n0 * Pow(10, count - 1), denominator.Value()) <= Pow(10, count)
  {
    hide Pow, Val, Scaled, Counting;
    ghost var s, rest := buffer[..count - 1], numerator.Value();
    CountingBound(n0, denominator.Value(), s, rest);
    var digit: nat := NextQuotient(numerator, denominator);
    ghost var quotient := digit;
    var compare := Bignum.PlusCompare(numerator, numerator, denominator);
    if compare >= 0 {
      digit := digit + 1;
    }
    CountingEnd(n0, denominator.Value(), s, rest, quotient, numerator.Value(), digit);
    buffer[count - 1] := DigitChar(digit);
    assert buffer[..count] == s + [DigitChar(digit)];
    assert buffer[..count - 1] == s;
  }

  /** If the first position overflows, the rounded number is a power of ten. */
  lemma AllNines(wide: string)
    requires wide != [] && AllWide(wide) && AllDigits(wide[1..]) && wide[0] == ':'
    requires Wide(wide) <= Pow(10, |wide|)
    ensures AllDigits(['1'] + wide[1..]) && Decimal(['1'] + wide[1..]) * 10 == Wide(wide)
  {
    var s := ['1'] + wide[1..];
    WideLead(wide);
    WideLead(s);
    assert s[1..] == wide[1..];
    WideIsDecimal(s);
    assert Pow(10, |wide|) == 10 * Pow(10, |wide| - 1);
  }

  /** Generates `requested` digits after the decimal point of v = numerator/denominator * 10^(point - 1). */
  method BignumToFixed(requested: nat, point: int, numerator: Bignum, denominator: Bignum, buffer: array<char>,
                       ghost v: nat)
    returns (length: nat, decimalPoint: int)
    requires point + requested <= buffer.Length && 1 <= buffer.Length
    requires numerator.Apart(denominator) && numerator.Valid() && denominator.Valid()
    requires 0 < denominator.Value() && numerator.Value() < 10 * denominator.Value() < Pow(BASE, CAPACITY - 8)
    requires Ratio(numerator.Value(), denominator.Value(), v, point - 1)
    modifies numerator, numerator.bigits, denominator, denominator.bigits, buffer
    ensures length <= Max(1, point + requested) && AllDigits(buffer[..length]) && decimalPoint - length + requested >= 0
    ensures RoundedHalfUp(v, Decimal(buffer[..length]) * Pow(10, decimalPoint - length + requested), 0 - requested)
  {
    ghost var n, d := numerator.Value(), denominator.Value();
    hide Pow, Val, Scaled, Ratio, Gap;
    OneMoreZero();
    if -point > requested {
      // The number is definitely too small.
      BelowPoint(n, d, v, point);
      RoundsToZero(v, point, 0 - requested);
      return 0, 0 - requested;
    } else if -point == requested {
      RatioTenthOf(n, d, v, point - 1);
      HalfOrNot(n, 10 * d, v, point);
      denominator.Times10();
      var compare := Bignum.PlusCompare(numerator, numerator, denominator);
      if compare >= 0 {
        buffer[0] := '1';
        assert buffer[..1] == [] + ['1'];
        DecimalSnoc([], '1');
        return 1, point + 1;
      } else {
        assert buffer[..0] == [];
        return 0, point;
      }
    } else {
      length, decimalPoint := GenerateCountedDigits(point + requested, point, numerator, denominator, buffer);
      FixedResult(n, d, v, point, requested, Decimal(buffer[..length]), decimalPoint);
    }
  }

  lemma OneMoreZero()
    ensures Pow(10, 0) == 1 && Pow(10, 1) == 10
  {
  }

  lemma BelowPoint(n: nat, d: nat, v: nat, point: int)
    requires d > 0 && n < 10 * d && Ratio(n, d, v, point - 1)
    ensures Gap(1, point, v) > 0
  {
    RatioTenthOf(n, d, v, point - 1);
    assert Pow(10, 0) == 1;
    BoundTransfers(n, 10 * d, v, point, 0, 1);
  }

  /** At the place of the decimal point only a comparison with one half is left. */
  lemma HalfOrNot(n: nat, d: nat, v: nat, point: int)
    requires d > 0 && n < d && Ratio(n, d, v, point)
    ensures RoundedHalfUp(v, if 2 * n >= d then 1 else 0, point)
  {
    assert Pow(10, 0) == 1;
    RoundingTransfers(n, d, if 2 * n >= d then 1 else 0, 0, v, point);
  }

  lemma FixedResult(n: nat, d: nat, v: nat, point: int, requested: nat, digits: nat, decimalPoint: int)
    requires d > 0 && Ratio(n, d, v, point - 1) && point + requested > 0 && decimalPoint - point in {0, 1}
    requires digits * (if decimalPoint == point then 1 else 10) == RoundHalfUp(n * Pow(10, point + requested - 1), d)
    ensures RoundedHalfUp(v, digits * Pow(10, decimalPoint - point), 0 - requested)
  {
    var j := point + requested - 1;
    OneMoreZero();
    RoundHalfUpBounds(n * Pow(10, j), d);
    RoundingTransfers(n, d, RoundHalfUp(n * Pow(10, j), d), j, v, point - 1);
    assert point - 1 - j == 0 - requested;
  }

  // ---- Scaling to the first digit ----

  /** Scales the fraction so that its first digit is the one before the decimal point. */
  method FixupMultiply10(estimatedPower: int, isEven: bool,
                         numerator: Bignum, denominator: Bignum, deltaMinus: Bignum, deltaPlus: Bignum)
    returns (decimalPoint: int)
    requires AllApart(numerator, denominator, deltaMinus, deltaPlus)
    requires numerator.Valid() && denominator.Valid() && deltaMinus.Valid() && deltaPlus.Valid()
    requires numerator.Small() && deltaMinus.Small() && deltaPlus.Small()
    modifies numerator, numerator.bigits, deltaMinus, deltaMinus.bigits, deltaPlus, deltaPlus.bigits
    ensures numerator.Valid() && deltaMinus.Valid() && deltaPlus.Valid()
    ensures var room := RoomPlus(old(numerator.Value()), old(deltaPlus.Value()), denominator.Value(), isEven);
            var factor := if room then 1 else 10;
            && numerator.Value() == factor * old(numerator.Value())
            && deltaMinus.Value() == factor * old(deltaMinus.Value())
            && deltaPlus.Value() == factor * old(deltaPlus.Value())
            && decimalPoint == if factor == 1 then estimatedPower + 1 else estimatedPower
  {
    hide Pow, Val, Scaled;
    var compare := Bignum.PlusCompare(numerator, deltaPlus, denominator);
    var inRange := if isEven then compare >= 0 else compare > 0;
    if inRange {
      decimalPoint := estimatedPower + 1;
    } else {
      decimalPoint := estimatedPower;
      numerator.Times10();
      var same := Bignum.Compare(deltaMinus, deltaPlus);
      if same == 0 {
        deltaMinus.Times10();
        deltaPlus.AssignBignum(deltaMinus);
      } else {
        deltaMinus.Times10();
        deltaPlus.Times10();
      }
    }
  }

  /** After the fixup the fraction stands for v / 10^(point - 1). */
  lemma FixupRatios(n: nat, d: nat, m: nat, p: nat, f: nat, e: int, closer: bool, need: bool, k: int, factor: nat,
                    point: int)
    requires e >= -1074 && Represents(n, d, m, p, f, e, closer, need, k)
    requires (factor == 1 && point == k + 1) || (factor == 10 && point == k)
    ensures Represents(factor * n, d, factor * m, factor * p, f, e, closer, need, point - 1)
  {
    if factor == 10 {
      RatioTimesTen(n, d, Scaled2(f, e), k);
      if need {
        RatioTimesTen(m, d, LowerGap(e, closer), k);
        RatioTimesTen(p, d, UpperGap(e), k);
      }
    }
  }

  /** For the shortest mode: what GenerateShortestDigits asks of its fraction. */
  lemma FixupRange(n: nat, d: nat, m: nat, p: nat, f: nat, e: int, closer: bool, even: bool, k: int)
    requires FloatParts(f, e, closer) && PowerEstimate(f, e, k) && Represents(n, d, m, p, f, e, closer, true, k)
    ensures 0 < m < n && 0 < p
    ensures RoomPlus(n, p, d, even) ==> if even then d <= n + p < 10 * d else d < n + p <= 10 * d
    ensures !RoomPlus(n, p, d, even) ==> if even then d <= 10 * n + 10 * p < 10 * d else d < 10 * n + 10 * p <= 10 * d
  {
    OneMoreZero();
    HalfUnit(e);
    assert LowerGap(e, closer) < Scaled2(f, e) by {
      MulMonotone(1, f, Pow(2, e + SCALE));
    }
    RatioOrder(m, n, d, LowerGap(e, closer), Scaled2(f, e), k);
    RatioZero(d, k);
    RatioOrder(0, m, d, 0, LowerGap(e, closer), k);
    RatioOrder(0, p, d, 0, UpperGap(e), k);
    RatioSum(n, p, d, Scaled2(f, e), UpperGap(e), k);
    BoundTransfers(n + p, d, Scaled2(f, e) + UpperGap(e), k, 0, 10);
    GapShift(1, k + 1, Scaled2(f, e) + UpperGap(e), 1);
    BoundTransfers(n, d, Scaled2(f, e), k, 1, 1);
  }

  lemma RatioZero(d: nat, k: int)
    ensures Ratio(0, d, 0, k)
  {
  }

  /** The interval is so wide that 17 digits suffice. */
  lemma SeventeenDigits(n: nat, d: nat, m: nat, p: nat, f: nat, e: int, closer: bool, q: int)
    requires FloatParts(f, e, closer) && Represents(n, d, m, p, f, e, closer, true, q)
    requires d <= n + p
    ensures d < (m + p) * Pow(10, 16)
  {
    var u := LowerGap(e, true);
    HalfUnit(e);
    var v, lo, hi := Scaled2(f, e), LowerGap(e, closer), UpperGap(e);
    assert v == (4 * f) * u by {
      assert Scaled2(1, e) == 4 * u;
      MulAssoc(f, 4, u);
    }
    WideEnough(f, u, closer);
    RatioSum(n, p, d, v, hi, q);
    RatioSum(m, p, d, lo, hi, q);
    RatioScaleUp(m + p, d, lo + hi, q, Pow(10, 16));
    RatioOrder(n + p, (m + p) * Pow(10, 16), d, v + hi, (lo + hi) * Pow(10, 16), q);
  }

  lemma RatioScaleUp(n: int, d: int, x: int, p: int, s: int)
    requires Ratio(n, d, x, p)
    ensures Ratio(n * s, d, x * s, p)
  {
    var a, v := Pow(2, SCALE) * TenUp(p), TenDown(p);
    MulAssoc(n, s, a);
    MulAssoc(n, a, s);
    assert s * a == a * s;
    MulAssoc(x, s, v);
    MulAssoc(x, v, s);
    assert s * v == v * s;
    MulAssoc(d, x * v, s);
  }

  lemma WideEnough(f: nat, u: nat, closer: bool)
    requires 0 < f < Pow(2, 53) && u > 0 && (closer ==> f <= Pow(2, 52))
    ensures (4 * f) * u + 2 * u < ((if closer then u else 2 * u) + 2 * u) * Pow(10, 16)
  {
    BigPowers();
    hide Pow;
    var w := if closer then 3 else 4;
    assert 4 * f + 2 < w * 10000000000000000;
    MulStrict(4 * f + 2, w * 10000000000000000, u);
  }

  lemma BigPowers()
    ensures Pow(2, 52) == 4503599627370496 && Pow(2, 53) == 9007199254740992
    ensures Pow(10, 16) == 10000000000000000
  {
    assert Pow(2, 13) == 8192;
    PowAdd(2, 13, 13);
    PowAdd(2, 26, 26);
    assert Pow(10, 4) == 10000;
    PowAdd(10, 4, 4);
    PowAdd(10, 8, 8);
  }

  // ---- No odd significand is an exact power of ten ----

  predicate IsOdd(n: nat)
  {
    n % 2 == 1
  }

  /** An odd number times a power of two determines both. */
  lemma {:induction false} OddPartUnique(a: nat, i: nat, b: nat, j: nat)
    requires IsOdd(a) && IsOdd(b) && a * Pow(2, i) == b * Pow(2, j)
    ensures a == b && i == j
    decreases i
  {
    if i > 0 {
      EvenMultiple(a, i);
    }
    if j > 0 {
      EvenMultiple(b, j);
    }
    if i > 0 && j > 0 {
      OddPartUnique(a, i - 1, b, j - 1);
    }
  }

  lemma EvenMultiple(a: nat, i: nat)
    requires i > 0
    ensures a * Pow(2, i) == 2 * (a * Pow(2, i - 1))
  {
    MulAssoc(2, a, Pow(2, i - 1));
    MulAssoc(a, 2, Pow(2, i - 1));
  }

  lemma {:induction false} OddProduct(f: nat, m: nat)
    requires IsOdd(f)
    ensures IsOdd(f * Pow(5, m))
  {
    if m > 0 {
      OddProduct(f, m - 1);
      var p := Pow(5, m - 1);
      assert Pow(5, m) == 5 * p;
      hide Pow;
      MulAssoc(f, 5, p);
      MulAssoc(5, f, p);
      OddTimesFive(f * p);
    }
  }

  lemma OddTimesFive(x: nat)
    requires IsOdd(x)
    ensures IsOdd(5 * x)
  {
  }

  /** A significand in the form in which doubles store it: with the hidden bit set unless denormal. */
  predicate Normal(f: nat, e: int)
  {
    f >= Pow(2, 52) || e == -1074
  }

  lemma NotExactPower(f: nat, e: int, k: int)
    requires 0 < f < Pow(2, 53) && e >= -1074 && Normal(f, e) && IsOdd(f)
    ensures Gap(1, k, Scaled2(f, e)) != 0
  {
    if Gap(1, k, Scaled2(f, e)) == 0 {
      if k >= 0 {
        NotExactPositivePower(f, e, k);
      } else {
        NotExactNegativePower(f, e, -k);
      }
    }
  }

  lemma ExactPower(f: nat, e: int, k: nat)
    requires e >= -1074 && Gap(1, k, Scaled2(f, e)) == 0
    ensures f * Pow(2, e + SCALE) == Pow(2, SCALE) * Pow(10, k)
  {
    assert TenUp(k) == Pow(10, k) && TenDown(k) == 1;
  }

  lemma TwosAndFives(k: nat)
    ensures Pow(2, SCALE) * Pow(10, k) == Pow(5, k) * Pow(2, SCALE + k)
  {
    PowProduct(5, 2, k);
    PowAdd(2, SCALE, k);
    hide Pow;
    var a, b, c := Pow(5, k), Pow(2, k), Pow(2, SCALE);
    MulAssoc(a, b, c);
    assert b * c == c * b;
  }

  lemma NotExactPositivePower(f: nat, e: int, k: nat)
    requires 0 < f < Pow(2, 53) && e >= -1074 && Normal(f, e) && IsOdd(f)
    ensures Gap(1, k, Scaled2(f, e)) != 0
  {
    if Gap(1, k, Scaled2(f, e)) == 0 {
      ExactPower(f, e, k);
      hide Gap, Scaled2, TenUp, TenDown, Pow;
      TwosAndFives(k);
      OddProduct(1, k);
      OddPartUnique(f, e + SCALE, Pow(5, k), SCALE + k);
      NoPowerOfFive(k);
    }
  }

  lemma NotExactNegativePower(f: nat, e: int, m: nat)
    requires 0 < f && e >= -1074 && IsOdd(f) && m > 0
    ensures Gap(1, 0 - m, Scaled2(f, e)) != 0
  {
    if Gap(1, 0 - m, Scaled2(f, e)) == 0 {
      assert TenUp(0 - m) == 1 && TenDown(0 - m) == Pow(10, m);
      PowProduct(5, 2, m);
      PowAdd(2, e + SCALE, m);
      assert (f * Pow(5, m)) * Pow(2, e + SCALE + m) == 1 * Pow(2, SCALE) by {
        hide Pow;
        MulRegroup(f, Pow(2, e + SCALE), Pow(5, m), Pow(2, m));
      }
      OddProduct(f, m);
      OddPartUnique(f * Pow(5, m), e + SCALE + m, 1, SCALE);
      LargePowerOfFive(f, m);
    }
  }

  lemma LargePowerOfFive(f: nat, m: nat)
    requires f > 0 && m > 0
    ensures f * Pow(5, m) > 1
  {
    PowMonotone(5, 1, m);
    assert Pow(5, 1) == 5;
    MulMonotone(1, f, Pow(5, m));
  }

  lemma NoPowerOfFive(k: nat)
    ensures !(Pow(2, 52) <= Pow(5, k) < Pow(2, 53))
  {
    BigPowers();
    assert Pow(5, 3) == 125 && Pow(5, 4) == 625;
    PowAdd(5, 4, 4);
    PowAdd(5, 3, 8);
    PowAdd(5, 11, 11);
    if k <= 22 {
      PowMonotone(5, k, 22);
    } else {
      PowMonotone(5, 23, k);
    }
  }

  /** For the other modes: the fraction ends up in [1, 10). */
  lemma FixupRangeWithoutDeltas(n: nat, d: nat, f: nat, e: int, closer: bool, k: int)
    requires FloatParts(f, e, closer) && Normal(f, e) && PowerEstimate(f, e, k)
      && Represents(n, d, 0, 0, f, e, closer, false, k)
    ensures RoomPlus(n, 0, d, f % 2 == 0) ==> d <= n < 10 * d
    ensures !RoomPlus(n, 0, d, f % 2 == 0) ==> d <= 10 * n < 10 * d
  {
    OneMoreZero();
    var v := Scaled2(f, e);
    GapShift(1, k + 1, v, 1);
    assert Gap(1, k + 1, v) > 0 by {
      MulMonotone(v, v + UpperGap(e), TenDown(k + 1));
    }
    BoundTransfers(n, d, v, k, 0, 10);
    BoundTransfers(n, d, v, k, 1, 1);
    BoundTransfers(n, d, v, k, 0, 1);
    if IsOdd(f) {
      NotExactPower(f, e, k);
    }
  }

  // ---- The driver ----

  datatype Mode = ShortestMode | FixedMode | PrecisionMode

  /** What the driver promises in each mode. */
  ghost predicate Printed(f: nat, e: int, closer: bool, mode: Mode, requested: nat, s: string, point: int)
    requires e >= -1074
  {
    && AllDigits(s)
    && match mode
       case ShortestMode =>
         && |s| <= 17
         && ShortestDecimal(Scaled2(f, e), LowerGap(e, closer), UpperGap(e), f % 2 == 0, s, point)
         && (if f % 2 == 0 then Gap(1, point, Scaled2(f, e) + UpperGap(e)) > 0
            else Gap(1, point, Scaled2(f, e) + UpperGap(e)) >= 0)
       case FixedMode =>
         point - |s| + requested >= 0
         && RoundedHalfUp(Scaled2(f, e), Decimal(s) * Pow(10, point - |s| + requested), 0 - requested)
       case PrecisionMode =>
         |s| == requested && SignificantDigits(Scaled2(f, e), s, point)
  }

  ghost function BufferNeeded(mode: Mode, estimatedPower: int, requested: nat): nat
  {
    match mode
    case ShortestMode => 18
    case FixedMode => Max(1, estimatedPower + 1 + requested) + 1
    case PrecisionMode => requested + 1
  }

  /** Start values and fixup together. */
  method ScaledFraction(significand: uint64, exponent: int, lowerBoundaryIsCloser: bool, estimatedPower: int,
                        needBoundaryDeltas: bool, isEven: bool,
                        numerator: Bignum, denominator: Bignum, deltaMinus: Bignum, deltaPlus: Bignum)
    returns (decimalPoint: int)
    requires FloatParts(significand, exponent, lowerBoundaryIsCloser)
    requires PowerEstimate(significand, exponent, estimatedPower)
    requires isEven == (significand % 2 == 0)
    requires needBoundaryDeltas || Normal(significand, exponent)
    requires AllApart(numerator, denominator, deltaMinus, deltaPlus)
    requires numerator.Valid() && denominator.Valid() && deltaMinus.Valid() && deltaPlus.Valid()
    requires deltaMinus.Value() == 0 && deltaPlus.Value() == 0
    modifies numerator, numerator.bigits, denominator, denominator.bigits, deltaMinus, deltaMinus.bigits, deltaPlus,
      deltaPlus.bigits
    ensures numerator.Valid() && denominator.Valid() && deltaMinus.Valid() && deltaPlus.Valid()
    ensures decimalPoint - estimatedPower in {0, 1}
    ensures 10 * denominator.Value() < Pow(BASE, CAPACITY - 8)
    ensures Represents(numerator.Value(), denominator.Value(), deltaMinus.Value(), deltaPlus.Value(),
                       significand, exponent, lowerBoundaryIsCloser, needBoundaryDeltas, decimalPoint - 1)
    ensures var n, d, m, p := numerator.Value(), denominator.Value(), deltaMinus.Value(), deltaPlus.Value();
            if needBoundaryDeltas
            then 0 < m < n && 0 < p && (if isEven then d <= n + p < 10 * d else d < n + p <= 10 * d)
            else d <= n < 10 * d
  {
    hide Pow, Val, Scaled, Represents, PowerEstimate;
    InitialScaledStartValues(significand, exponent, lowerBoundaryIsCloser, estimatedPower, needBoundaryDeltas,
                             numerator, denominator, deltaMinus, deltaPlus);
    ghost var n, d, m, p := numerator.Value(), denominator.Value(), deltaMinus.Value(), deltaPlus.Value();
    RoomySmall(numerator);
    RoomySmall(denominator);
    DeltasSmall(deltaMinus, deltaPlus, needBoundaryDeltas);
    if needBoundaryDeltas {
      FixupRange(n, d, m, p, significand, exponent, lowerBoundaryIsCloser, isEven, estimatedPower);
    } else {
      FixupRangeWithoutDeltas(n, d, significand, exponent, lowerBoundaryIsCloser, estimatedPower);
    }
    decimalPoint := FixupMultiply10(estimatedPower, isEven, numerator, denominator, deltaMinus, deltaPlus);
    FixupRatios(n, d, m, p, significand, exponent, lowerBoundaryIsCloser, needBoundaryDeltas, estimatedPower,
                if RoomPlus(n, p, d, isEven) then 1 else 10, decimalPoint);
  }

  lemma DeltasSmall(deltaMinus: Bignum, deltaPlus: Bignum, need: bool)
    requires deltaMinus.Valid() && deltaPlus.Valid()
    requires if need then Roomy(deltaMinus) && Roomy(deltaPlus) else deltaMinus.Value() == 0 && deltaPlus.Value() == 0
    ensures deltaMinus.Small() && deltaPlus.Small()
  {
    if need {
      RoomySmall(deltaMinus);
      RoomySmall(deltaPlus);
    } else {
      PowPositive(BASE, CAPACITY - 8);
    }
  }

  method PrintShortest(significand: uint64, exponent: int, lowerBoundaryIsCloser: bool, decimalPoint: int, isEven: bool,
                       numerator: Bignum, denominator: Bignum, deltaMinus: Bignum, deltaPlus: Bignum,
                       buffer: array<char>, ghost requested: nat)
    returns (length: nat)
    requires FloatParts(significand, exponent, lowerBoundaryIsCloser) && isEven == (significand % 2 == 0)
    requires AllApart(numerator, denominator, deltaMinus, deltaPlus) && buffer.Length >= 18
    requires numerator.Valid() && denominator.Valid() && deltaMinus.Valid() && deltaPlus.Valid()
    requires 10 * denominator.Value() < Pow(BASE, CAPACITY - 8)
    requires Represents(numerator.Value(), denominator.Value(), deltaMinus.Value(), deltaPlus.Value(),
                        significand, exponent, lowerBoundaryIsCloser, true, decimalPoint - 1)
    requires var n, d, m, p := numerator.Value(), denominator.Value(), deltaMinus.Value(), deltaPlus.Value();
             0 < m < n && 0 < p && (if isEven then d <= n + p < 10 * d else d < n + p <= 10 * d)
    modifies numerator, numerator.bigits, deltaMinus, deltaMinus.bigits, deltaPlus, deltaPlus.bigits, buffer
    ensures length <= 17 && AllDigits(buffer[..length])
    ensures Printed(significand, exponent, lowerBoundaryIsCloser, ShortestMode, requested, buffer[..length],
                    decimalPoint)
  {
    hide Pow, Val, Scaled, Ratio, Shortest, ShortestDecimal, Gap;
    ghost var n, d, m, p := numerator.Value(), denominator.Value(), deltaMinus.Value(), deltaPlus.Value();
    BelowNextPower(n, d, p, Scaled2(significand, exponent), UpperGap(exponent), decimalPoint);
    SeventeenDigits(n, d, m, p, significand, exponent, lowerBoundaryIsCloser, decimalPoint - 1);
    length := GenerateShortestDigits(numerator, denominator, deltaMinus, deltaPlus, isEven, buffer, 17);
    ShortestTransfers(n, d, m, p, isEven, buffer[..length], Scaled2(significand, exponent),
                      LowerGap(exponent, lowerBoundaryIsCloser), UpperGap(exponent), decimalPoint);
    ShortestIsDigits(n, d, m, p, isEven, buffer[..length]);
  }

  /** The upper boundary compares with 10^point as the fraction and its distance with ten. */
  lemma BelowNextPower(n: nat, d: nat, p: nat, v: int, high: int, point: int)
    requires d > 0 && Ratio(n, d, v, point - 1) && Ratio(p, d, high, point - 1)
    ensures n + p < 10 * d ==> Gap(1, point, v + high) > 0
    ensures n + p <= 10 * d ==> Gap(1, point, v + high) >= 0
  {
    RatioSum(n, p, d, v, high, point - 1);
    OneMoreZero();
    BoundTransfers(n + p, d, v + high, point - 1, 0, 10);
    GapShift(1, point, v + high, 1);
  }

  lemma ShortestIsDigits(num: nat, den: nat, dm: nat, dp: nat, even: bool, s: string)
    requires Shortest(num, den, dm, dp, even, s)
    ensures AllDigits(s)
  {
  }

  method PrintFixed(significand: uint64, exponent: int, lowerBoundaryIsCloser: bool, point: int, requested: nat,
                    numerator: Bignum, denominator: Bignum, buffer: array<char>)
    returns (length: nat, decimalPoint: int)
    requires exponent >= -1074 && Max(1, point + requested) < buffer.Length
    requires numerator.Apart(denominator) && numerator.Valid() && denominator.Valid()
    requires numerator.Value() < 10 * denominator.Value() < Pow(BASE, CAPACITY - 8)
    requires Represents(numerator.Value(), denominator.Value(), 0, 0, significand, exponent, lowerBoundaryIsCloser,
                        false, point - 1)
    modifies numerator, numerator.bigits, denominator, denominator.bigits, buffer
    ensures length < buffer.Length
    ensures Printed(significand, exponent, lowerBoundaryIsCloser, FixedMode, requested, buffer[..length], decimalPoint)
  {
    hide Pow, Val, Scaled, Ratio, RoundedHalfUp, Scaled2;
    length, decimalPoint := BignumToFixed(requested, point, numerator, denominator, buffer,
                                          Scaled2(significand, exponent));
  }

  method PrintCounted(significand: uint64, exponent: int, lowerBoundaryIsCloser: bool, point: int, requested: nat,
                      numerator: Bignum, denominator: Bignum, buffer: array<char>)
    returns (length: nat, decimalPoint: int)
    requires exponent >= -1074 && 0 < requested < buffer.Length
    requires numerator.Apart(denominator) && numerator.Valid() && denominator.Valid()
    requires denominator.Value() <= numerator.Value() < 10 * denominator.Value() < Pow(BASE, CAPACITY - 8)
    requires Represents(numerator.Value(), denominator.Value(), 0, 0, significand, exponent, lowerBoundaryIsCloser,
                        false, point - 1)
    modifies numerator, numerator.bigits, buffer
    ensures length < buffer.Length
    ensures Printed(significand, exponent, lowerBoundaryIsCloser, PrecisionMode, requested, buffer[..length],
                    decimalPoint)
  {
    hide Pow, Val, Scaled, Ratio, RoundedHalfUp, Scaled2;
    ghost var n, d := numerator.Value(), denominator.Value();
    length, decimalPoint := GenerateCountedDigits(requested, point, numerator, denominator, buffer);
    CountedResult(n, d, Scaled2(significand, exponent), point, buffer[..length], decimalPoint);
  }

  lemma CountedResult(n: nat, d: nat, v: nat, point: int, s: string, decimalPoint: int)
    requires 0 < d <= n && s != [] && Ratio(n, d, v, point - 1) && decimalPoint - point in {0, 1} && AllDigits(s)
    requires Decimal(s) * (if decimalPoint == point then 1 else 10) == RoundHalfUp(n * Pow(10, |s| - 1), d)
    requires decimalPoint != point ==> s[0] == '1'
    ensures SignificantDigits(v, s, decimalPoint)
  {
    var j, x := |s| - 1, n * Pow(10, |s| - 1);
    var r := RoundHalfUp(x, d);
    RoundHalfUpBounds(x, d);
    RoundingTransfers(n, d, r, j, v, point - 1);
    assert point - 1 - j == point - |s|;
    if decimalPoint != point {
      RoundedCoarser(v, Decimal(s), decimalPoint - |s|);
    }
    if decimalPoint == point {
      assert Pow(10, 0) == 1;
      BoundTransfers(n, d, v, point - 1, 0, 1);
      MulMonotone(d, n, Pow(10, j));
      RoundedAtLeast(x, d, Pow(10, j));
      NoLeadingZero(s);
    }
  }

  lemma RoundedAtLeast(x: nat, d: nat, q: nat)
    requires d > 0 && x >= d * q
    ensures RoundHalfUp(x, d) >= q
  {
    var r := RoundHalfUp(x, d);
    RoundHalfUpBounds(x, d);
    if r < q {
      MulAssoc(2, r, d);
      MulMonotone(r + 1, q, d);
    }
  }

  /** Enough size forces a nonzero first digit. */
  lemma NoLeadingZero(s: string)
    requires AllDigits(s) && s != [] && Decimal(s) >= Pow(10, |s| - 1)
    ensures s[0] != '0'
  {
    WideIsDecimal(s);
    WideLead(s);
    DecimalBound(s[1..]);
  }

  /** Prints significand * 2^exponent. The rounding error of the floating-point estimate is a parameter. */
  method BignumDtoa(significand: uint64, exponent: int, lowerBoundaryIsCloser: bool, rounding: real,
                    mode: Mode, requestedDigits: nat, buffer: array<char>) returns (length: nat, decimalPoint: int)
    requires FloatParts(significand, exponent, lowerBoundaryIsCloser) && SmallError(rounding)
    requires mode != ShortestMode ==> Normal(significand, exponent)
    requires mode == PrecisionMode ==> requestedDigits > 0
    requires forall k :: PowerEstimate(significand, exponent, k)
              ==> BufferNeeded(mode, k, requestedDigits) <= buffer.Length
    modifies buffer
    ensures length < buffer.Length && buffer[length] == '\0'
    ensures Printed(significand, exponent, lowerBoundaryIsCloser, mode, requestedDigits, buffer[..length], decimalPoint)
  {
    hide Pow, Val, Scaled, Printed, Represents, PowerEstimate, Scaled2;
    var normalizedExponent := NormalizedExponent(significand, exponent);
    Magnitude(significand, exponent, lowerBoundaryIsCloser, normalizedExponent);
    var estimatedPower := EstimatePower(normalizedExponent, rounding);
    EstimateIsRight(significand, exponent, lowerBoundaryIsCloser, normalizedExponent, estimatedPower);
    if mode == FixedMode && -estimatedPower - 1 > requestedDigits {
      FixedTooSmall(significand, exponent, lowerBoundaryIsCloser, estimatedPower, requestedDigits);
      buffer[0] := '\0';
      assert buffer[..0] == [];
      return 0, 0 - requestedDigits;
    }
    length, decimalPoint := PrintDigits(significand, exponent, lowerBoundaryIsCloser, estimatedPower, mode,
                                        requestedDigits, buffer);
    ghost var s := buffer[..length];
    buffer[length] := '\0';
    assert buffer[..length] == s;
  }

  method PrintDigits(significand: uint64, exponent: int, lowerBoundaryIsCloser: bool, estimatedPower: int,
                     mode: Mode, requestedDigits: nat, buffer: array<char>) returns (length: nat, decimalPoint: int)
    requires FloatParts(significand, exponent, lowerBoundaryIsCloser)
    requires PowerEstimate(significand, exponent, estimatedPower)
    requires mode != ShortestMode ==> Normal(significand, exponent)
    requires mode == PrecisionMode ==> requestedDigits > 0
    requires BufferNeeded(mode, estimatedPower, requestedDigits) <= buffer.Length
    modifies buffer
    ensures length < buffer.Length
    ensures Printed(significand, exponent, lowerBoundaryIsCloser, mode, requestedDigits, buffer[..length], decimalPoint)
  {
    hide Pow, Val, Scaled, Printed, Represents, PowerEstimate, Scaled2;
    var needBoundaryDeltas := mode == ShortestMode;
    var isEven := significand % 2 == 0;
    var numerator := new Bignum();
    var denominator := new Bignum();
    var deltaMinus := new Bignum();
    var deltaPlus := new Bignum();
    decimalPoint := ScaledFraction(significand, exponent, lowerBoundaryIsCloser, estimatedPower, needBoundaryDeltas,
                                   isEven,
                                   numerator, denominator, deltaMinus, deltaPlus);
    if !needBoundaryDeltas {
      WithoutDeltas(numerator, denominator, deltaMinus, deltaPlus, significand, exponent, lowerBoundaryIsCloser,
                    decimalPoint - 1);
    }
    match mode {
      case ShortestMode =>
        length := PrintShortest(significand, exponent, lowerBoundaryIsCloser, decimalPoint, isEven,
                                numerator, denominator, deltaMinus, deltaPlus, buffer, requestedDigits);
      case FixedMode =>
        length, decimalPoint := PrintFixed(significand, exponent, lowerBoundaryIsCloser, decimalPoint, requestedDigits,
                                           numerator, denominator, buffer);
      case PrecisionMode =>
        length, decimalPoint := PrintCounted(significand, exponent, lowerBoundaryIsCloser, decimalPoint,
                                             requestedDigits,
                                             numerator, denominator, buffer);
    }
  }

  lemma WithoutDeltas(numerator: Bignum, denominator: Bignum, deltaMinus: Bignum, deltaPlus: Bignum,
                      f: nat, e: int, closer: bool, p: int)
    requires numerator.Valid() && denominator.Valid() && deltaMinus.Valid() && deltaPlus.Valid() && e >= -1074
    requires Represents(numerator.Value(), denominator.Value(), deltaMinus.Value(), deltaPlus.Value(), f, e, closer,
                        false, p)
    ensures Represents(numerator.Value(), denominator.Value(), 0, 0, f, e, closer, false, p)
  {
  }

  /** The shortcut of the fixed mode: the number rounds to zero. */
  lemma FixedTooSmall(f: nat, e: int, closer: bool, k: int, requested: nat)
    requires FloatParts(f, e, closer) && PowerEstimate(f, e, k) && -k - 1 > requested
    ensures Printed(f, e, closer, FixedMode, requested, [], 0 - requested)
  {
    assert Gap(1, k + 1, Scaled2(f, e)) > 0 by {
      MulMonotone(Scaled2(f, e), Scaled2(f, e) + UpperGap(e), TenDown(k + 1));
    }
    RoundsToZero(Scaled2(f, e), k + 1, 0 - requested);
    OneMoreZero();
  }
}
