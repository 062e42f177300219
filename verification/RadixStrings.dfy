/** Integers written with a radix that is a power of two, read with the precision of a float. */
module RadixStrings {
  import opened Arith
  import opened Machine

  predicate IsDecimalDigitForRadix(c: char, radix: nat)
  {
    '0' <= c <= '9' && c as int - '0' as int < radix
  }

  predicate IsCharacterDigitForRadix(c: char, radix: nat, aCharacter: char)
  {
    radix > 10 && aCharacter <= c && c as int < aCharacter as int + radix - 10
  }

  /** Some digit of the radix, in either case. */
  predicate IsRadixDigit(c: char, radix: nat)
  {
    IsDecimalDigitForRadix(c, radix) || IsCharacterDigitForRadix(c, radix, 'a')
      || IsCharacterDigitForRadix(c, radix, 'A')
  }

  function DigitValue(c: char, radix: nat): (d: nat)
    requires IsRadixDigit(c, radix) && radix <= 32
    ensures d < radix
  {
    if IsDecimalDigitForRadix(c, radix) then c as int - '0' as int
    else if IsCharacterDigitForRadix(c, radix, 'a') then c as int - 'a' as int + 10
    else c as int - 'A' as int + 10
  }

  predicate AllRadixDigits(s: string, radix: nat)
  {
    forall i :: 0 <= i < |s| ==> IsRadixDigit(s[i], radix)
  }

  /** The number that the digits denote. */
  function RadixValue(s: string, radix: nat): nat
    requires radix <= 32 && AllRadixDigits(s, radix)
  {
    if s == [] then 0 else RadixValue(s[..|s| - 1], radix) * radix + DigitValue(s[|s| - 1], radix)
  }

  /** The end of the digits at the front. */
  function DigitsEnd(s: string, radix: nat, from: nat): (m: nat)
    requires from <= |s|
    ensures from <= m <= |s| && (forall i :: from <= i < m ==> IsRadixDigit(s[i], radix))
    ensures m < |s| ==> !IsRadixDigit(s[m], radix)
    decreases |s| - from
  {
    if from < |s| && IsRadixDigit(s[from], radix) then DigitsEnd(s, radix, from + 1) else from
  }

  predicate OnlySpaces(s: string)
  {
    forall i :: 0 <= i < |s| ==> s[i] == ' '
  }

  /** Whether only spaces are left. */
  method AllSpaces(s: string, from: nat) returns (b: bool)
    requires from <= |s|
    ensures b == OnlySpaces(s[from..])
  {
    var current := from;
    while current != |s|
      invariant from <= current <= |s| && OnlySpaces(s[from..current])
    {
      if s[current] != ' ' {
        assert s[from..][current - from] == s[current];
        return false;
      }
      assert s[from..current + 1] == s[from..current] + [s[current]];
      current := current + 1;
    }
    assert s[from..|s|] == s[from..];
    b := true;
  }

  // ---- Rounding to a number of bits ----

  /** n / d rounded to the nearest integer, ties to even. */
  function RoundHalfEven(n: nat, d: nat): nat
    requires d > 0
  {
    var q, r := n / d, n % d;
    if 2 * r > d || (2 * r == d && q % 2 == 1) then q + 1 else q
  }

  /** number * 2^exponent is n with only its `bits` leading bits, rounded to nearest, ties to even; e counts the
      bits that do not fit. */
  ghost predicate RoundedToBits(n: nat, bits: nat, number: nat, exponent: nat, e: nat)
  {
    && number < Pow(2, bits) && (exponent == e || (bits > 0 && exponent == e + 1 && number == Pow(2, bits - 1)))
    && number * Pow(2, exponent) == RoundHalfEven(n, Pow2(e)) * Pow(2, e)
    && (if e == 0 then n < Pow(2, bits) else bits > 0 && Pow(2, bits - 1) <= n / Pow2(e) < Pow(2, bits))
  }

  function Pow2(e: nat): (p: nat)
    ensures p == Pow(2, e) && p > 0
  {
    PowPositive(2, e);
    Pow(2, e)
  }

  /** What is read: number * 2^exponent, and whether it is negated. */
  datatype Parsed = Junk | Number(negative: bool, number: nat, exponent: nat)

  /** The precisions of a float and of a double. */
  predicate SignificandSize(bits: nat)
  {
    bits == 24 || bits == 53
  }

  lemma SizeFits(bits: nat)
    requires SignificandSize(bits)
    ensures Pow(2, bits) == if bits == 24 then 0x100_0000 else 0x20_0000_0000_0000
  {
    assert Pow(2, 12) == 4096 && Pow(2, 5) == 32;
    PowAdd(2, 12, 12);
    PowAdd(2, 24, 24);
    PowAdd(2, 48, 5);
  }

  lemma {:induction false} ZeroValue(s: string, radix: nat)
    requires 2 <= radix <= 32 && forall i :: 0 <= i < |s| ==> s[i] == '0'
    ensures AllRadixDigits(s, radix) && RadixValue(s, radix) == 0
  {
    if s != [] {
      ZeroValue(s[..|s| - 1], radix);
    }
  }

  lemma ValueNext(s: string, radix: nat, i: nat)
    requires radix <= 32 && i < |s| && AllRadixDigits(s[..i], radix) && IsRadixDigit(s[i], radix)
    ensures AllRadixDigits(s[..i + 1], radix)
    ensures RadixValue(s[..i + 1], radix) == RadixValue(s[..i], radix) * radix + DigitValue(s[i], radix)
  {
    assert s[..i + 1][..i] == s[..i];
  }

  function Radix(radixLog2: nat): (r: nat)
    requires 1 <= radixLog2 <= 5
    ensures r == Pow(2, radixLog2) && 2 <= r <= 32
  {
    assert Pow(2, 1) == 2 && Pow(2, 2) == 4 && Pow(2, 3) == 8 && Pow(2, 4) == 16 && Pow(2, 5) == 32;
    Pow(2, radixLog2)
  }

  /** How many bits a positive number below 32 has. */
  method CountBits(overflow0: int32) returns (count: int32)
    requires 0 < overflow0 < 32
    ensures 0 < count <= 5 && Pow(2, count - 1) <= overflow0 < Pow(2, count)
  {
    var overflow: int32 := overflow0;
    count := 1;
    assert Pow(2, 0) == 1;
    while overflow > 1
      invariant 0 < count <= 5 && 0 < overflow < 32 && overflow < SmallPower(6 - count)
      invariant overflow * Pow(2, count - 1) <= overflow0 < (overflow + 1) * Pow(2, count - 1)
    {
      HalveOverflow(overflow, count, overflow0);
      count := count + 1;
      overflow := overflow / 2;
    }
  }

  function SmallPower(n: nat): nat
    requires n <= 5
  {
    [1, 2, 4, 8, 16, 32][n]
  }

  lemma HalveOverflow(overflow: nat, count: nat, x: nat)
    requires count > 0 && overflow * Pow(2, count - 1) <= x < (overflow + 1) * Pow(2, count - 1)
    ensures (overflow / 2) * Pow(2, count) <= x < (overflow / 2 + 1) * Pow(2, count)
  {
    var p := Pow(2, count - 1);
    assert Pow(2, count) == 2 * p;
    hide Pow;
    MulAssoc(overflow / 2, 2, p);
    MulAssoc(overflow / 2 + 1, 2, p);
    MulMonotone((overflow / 2) * 2, overflow, p);
    MulMonotone(overflow + 1, (overflow / 2 + 1) * 2, p);
  }

  /** What the first digits that do not fit leave behind. */
  lemma OverflowParts(number: nat, bits: nat, count: nat)
    requires bits > 0 && count > 0 && Pow(2, count - 1) <= number / Pow2(bits) < Pow(2, count)
    ensures Pow(2, bits - 1) <= number / Pow2(count) < Pow(2, bits)
  {
    var q, d := number / Pow2(bits), number / Pow2(count);
    PowAdd(2, count - 1, bits);
    PowAdd(2, bits - 1, count);
    PowAdd(2, count, bits);
    hide Pow;
    Below(number, Pow2(bits));
    MulMonotone(Pow(2, count - 1), q, Pow2(bits));
    MulMonotone(q + 1, Pow(2, count), Pow2(bits));
    assert count - 1 + bits == bits - 1 + count;
    assert Pow(2, count) * Pow(2, bits) == Pow(2, bits) * Pow(2, count);
    DivBelow(number, Pow(2, bits), Pow2(count));
    DivAbove(number, Pow(2, bits - 1), Pow2(count));
  }

  lemma Below(x: nat, d: nat)
    requires d > 0
    ensures x / d * d <= x < (x / d + 1) * d
  {
  }

  lemma DivAbove(x: nat, q: nat, d: nat)
    requires d > 0 && x >= q * d
    ensures x / d >= q
  {
    if x / d < q {
      MulMonotone(x / d + 1, q, d);
    }
  }

  /** Rounding by the dropped bits and whether anything else follows is rounding the whole number. */
  lemma RoundsRight(whole: nat, dropped: nat, count: nat, k: nat, tail: nat, up: bool)
    requires count > 0 && dropped < Pow(2, count) && tail < Pow(2, k)
    requires var middle := Pow(2, count - 1);
             up <==> dropped > middle || (dropped == middle && (whole % 2 == 1 || tail != 0))
    ensures RoundHalfEven((whole * Pow(2, count) + dropped) * Pow(2, k) + tail, Pow2(count + k))
            == if up then whole + 1 else whole
    ensures ((whole * Pow(2, count) + dropped) * Pow(2, k) + tail) / Pow2(count + k) == whole
  {
    PowAdd(2, count, k);
    assert Pow(2, count) == 2 * Pow(2, count - 1);
    WholeAndRest(whole, dropped, Pow(2, count), Pow(2, k), tail);
    RestAgainstHalf(dropped, Pow(2, count - 1), Pow(2, k), tail);
    MulAssoc(2, Pow(2, count - 1), Pow(2, k));
  }

  lemma WholeAndRest(whole: nat, dropped: nat, a: nat, p: nat, tail: nat)
    requires dropped < a && tail < p
    ensures a * p > 0 && 0 <= dropped * p + tail < a * p
    ensures ((whole * a + dropped) * p + tail) / (a * p) == whole
    ensures ((whole * a + dropped) * p + tail) % (a * p) == dropped * p + tail
  {
    MulPositive(a, p);
    MulAssoc(whole, a, p);
    MulMonotone(dropped + 1, a, p);
    MulMonotone(0, dropped, p);
    SumTimes(whole * a, dropped, p);
    SumTimes(dropped, 1, p);
    DivUnique((whole * a + dropped) * p + tail, a * p, whole, dropped * p + tail);
  }

  lemma SumTimes(a: int, b: int, c: int)
    ensures (a + b) * c == a * c + b * c
  {
  }

  lemma RestAgainstHalf(dropped: nat, half: nat, p: nat, tail: nat)
    requires tail < p
    ensures dropped > half ==> dropped * p + tail > half * p
    ensures dropped == half ==> dropped * p + tail == half * p + tail
    ensures dropped < half ==> dropped * p + tail < half * p
  {
    SumTimes(half, 1, p);
    SumTimes(dropped, 1, p);
    if dropped > half {
      MulMonotone(half + 1, dropped, p);
    } else if dropped < half {
      MulMonotone(dropped + 1, half, p);
    }
  }

  /** Reads digits of the radix 2^radixLog2 and keeps `bits` bits of the number; the sign is lost if bits are. */
  method RadixStringToIeee(s: string, radixLog2: nat, sign: bool, allowTrailingJunk: bool, bits: nat)
    returns (r: Parsed, trailing: nat, ghost dropped: nat)
    requires s != [] && 1 <= radixLog2 <= 5 && SignificandSize(bits)
    ensures var m := DigitsEnd(s, Radix(radixLog2), 0);
            && (r.Junk? <==> !allowTrailingJunk && !OnlySpaces(s[m..]))
            && (r.Number? ==> trailing == if allowTrailingJunk then m else |s|)
            && (r.Number? ==> RoundedToBits(RadixValue(s[..m], Radix(radixLog2)), bits, r.number, r.exponent, dropped))
            && (r.Number? ==> (r.negative <==> sign && RadixValue(s[..m], Radix(radixLog2)) < Pow(2, bits)))
  {
    hide Pow, DigitsEnd, RadixValue, OnlySpaces, RoundedToBits, AllRadixDigits, IsRadixDigit;
    var radix := Radix(radixLog2);
    trailing, dropped := 0, 0;
    var current := SkipZeros(s, radix);
    PowPositive(2, bits);
    SizeFits(bits);
    if current == |s| {
      FitsExactly(0, bits);
      EndOfDigits(s, radix, current);
      NothingLeft(s);
      return Number(sign, 0, 0), |s|, 0;
    }
    var number: int64 := 0;
    while current != |s|
      invariant 0 <= current <= |s| && AllRadixDigits(s[..current], radix)
        && number == RadixValue(s[..current], radix) < Pow(2, bits)
      invariant DigitsEnd(s, radix, 0) == DigitsEnd(s, radix, current)
    {
      DigitsEndStep(s, radix, current);
      if !IsRadixDigit(s[current], radix) {
        break;
      }
      ValueNext(s, radix, current);
      NextFits(number, radix, DigitValue(s[current], radix), bits);
      number := number * radix + DigitValue(s[current], radix);
      current := current + 1;
      var overflow: int32 := number / Pow2(bits);
      if overflow != 0 {
        r, trailing, dropped := RoundOverflow(s, radixLog2, allowTrailingJunk, bits, number, overflow, current);
        return;
      }
      NoOverflowYet(number, bits);
    }
    EndOfDigits(s, radix, current);
    if !allowTrailingJunk {
      var fine := AllSpaces(s, current);
      if !fine {
        return Junk, 0, 0;
      }
    }
    FitsExactly(number, bits);
    r := Number(sign, number, 0);
    trailing := if allowTrailingJunk then current else |s|;
  }

  /** One more digit stays in the 64-bit number, and what no longer fits in a small int. */
  lemma NextFits(number: nat, radix: nat, digit: nat, bits: nat)
    requires SignificandSize(bits) && number < Pow(2, bits) && 2 <= radix <= 32 && digit < radix
    ensures 0 <= number * radix + digit < 0x400_0000_0000_0000 && (number * radix + digit) / Pow2(bits) < 32
  {
    SizeFits(bits);
    hide Pow;
    MulMonotone(number + 1, Pow(2, bits), radix);
    MulMonotone(radix, 32, Pow(2, bits));
    MulMonotone(0, number, radix);
    assert (number + 1) * radix == number * radix + radix;
    assert radix * Pow(2, bits) == Pow(2, bits) * radix;
    DivBelow(number * radix + digit, 32, Pow2(bits));
  }

  lemma NothingLeft(s: string)
    ensures OnlySpaces(s[|s|..])
  {
  }

  lemma FitsExactly(n: nat, bits: nat)
    requires n < Pow(2, bits)
    ensures RoundedToBits(n, bits, n, 0, 0)
  {
    assert Pow(2, 0) == 1;
  }

  lemma NoOverflowYet(n: nat, bits: nat)
    requires n / Pow2(bits) == 0
    ensures n < Pow(2, bits)
  {
    Below(n, Pow2(bits));
  }

  lemma DigitsEndStep(s: string, radix: nat, i: nat)
    requires i < |s|
    ensures DigitsEnd(s, radix, i) == if IsRadixDigit(s[i], radix) then DigitsEnd(s, radix, i + 1) else i
  {
  }

  lemma EndOfDigits(s: string, radix: nat, i: nat)
    requires i <= |s| && (i < |s| ==> !IsRadixDigit(s[i], radix))
    ensures DigitsEnd(s, radix, i) == i
  {
  }

  /** Zeros in front do not count. */
  method SkipZeros(s: string, radix: nat) returns (current: nat)
    requires s != [] && 2 <= radix <= 32
    ensures current <= |s| && AllRadixDigits(s[..current], radix) && RadixValue(s[..current], radix) == 0
    ensures DigitsEnd(s, radix, 0) == DigitsEnd(s, radix, current)
    ensures current < |s| ==> s[current] != '0'
  {
    hide DigitsEnd, RadixValue, AllRadixDigits;
    current := 0;
    while current < |s| && s[current] == '0'
      invariant current <= |s| && forall i :: 0 <= i < current ==> s[i] == '0'
      invariant DigitsEnd(s, radix, 0) == DigitsEnd(s, radix, current)
    {
      DigitsEndStep(s, radix, current);
      current := current + 1;
    }
    ZeroValue(s[..current], radix);
  }

  /** Decides the direction of rounding once the digits no longer fit. */
  method RoundOverflow(s: string, radixLog2: nat, allowTrailingJunk: bool, bits: nat, number0: int64, overflow: int32,
                       from: nat)
    returns (r: Parsed, trailing: nat, ghost dropped: nat)
    requires number0 >= 0 && overflow < 32
    requires 1 <= radixLog2 <= 5 && SignificandSize(bits) && from <= |s| && AllRadixDigits(s[..from], Radix(radixLog2))
    requires number0 == RadixValue(s[..from], Radix(radixLog2)) && overflow == number0 / Pow2(bits) > 0
    requires DigitsEnd(s, Radix(radixLog2), 0) == DigitsEnd(s, Radix(radixLog2), from)
    ensures var m := DigitsEnd(s, Radix(radixLog2), 0);
            && (r.Junk? <==> !allowTrailingJunk && !OnlySpaces(s[m..]))
            && (r.Number? ==> trailing == if allowTrailingJunk then m else |s|)
            && (r.Number? ==> RoundedToBits(RadixValue(s[..m], Radix(radixLog2)), bits, r.number, r.exponent, dropped))
            && (r.Number? ==> !r.negative && RadixValue(s[..m], Radix(radixLog2)) >= Pow(2, bits))
  {
    hide Pow, DigitsEnd, RadixValue, OnlySpaces, RoundedToBits, AllRadixDigits, IsRadixDigit, RoundHalfEven;
    SizeFits(bits);
    var overflowBitsCount := CountBits(overflow);
    OverflowParts(number0, bits, overflowBitsCount);
    SplitNumber(number0, Pow2(overflowBitsCount));
    SmallMask(overflowBitsCount);
    var droppedBits: int32 := number0 % Pow2(overflowBitsCount);
    var number: int64 := number0 / Pow2(overflowBitsCount);
    trailing, dropped := 0, 0;
    var current, tailBits, zeroTail;
    ghost var tail;
    current, tailBits, zeroTail, tail := ReadTail(s, radixLog2, number0, from);
    if !allowTrailingJunk {
      var fine := AllSpaces(s, current);
      if !fine {
        return Junk, 0, 0;
      }
    }
    trailing := if allowTrailingJunk then current else |s|;
    var exponent := overflowBitsCount + tailBits;
    dropped := exponent;
    var middleValue := Pow2(overflowBitsCount - 1);
    var up := droppedBits > middleValue || (droppedBits == middleValue && (number % 2 != 0 || !zeroTail));
    RoundsRight(number, droppedBits, overflowBitsCount, tailBits, tail, up);
    ghost var rounded := if up then number + 1 else number;
    if up {
      number := number + 1;
    }
    CarryOut(bits, number, exponent);
    if number / Pow2(bits) % 2 != 0 {
      exponent := exponent + 1;
      number := number / 2;
    }
    Rounded(RadixValue(s[..current], Radix(radixLog2)), bits, number, exponent, dropped, rounded);
    StaysLarge(number0, bits, tailBits, tail);
    // Only a number of which no bit is dropped is negated.
    r := Number(false, number, exponent);
  }

  lemma SmallMask(count: nat)
    requires count <= 5
    ensures Pow2(count) <= 32
  {
    PowMonotone(2, count, 5);
    assert Pow(2, 5) == 32;
  }

  lemma StaysLarge(number: nat, bits: nat, tailBits: nat, tail: nat)
    requires number / Pow2(bits) > 0
    ensures number * Pow(2, tailBits) + tail >= Pow(2, bits)
  {
    Below(number, Pow2(bits));
    PowPositive(2, tailBits);
    hide Pow;
    MulMonotone(1, number / Pow2(bits), Pow2(bits));
    MulMonotone(1, Pow(2, tailBits), number);
  }

  lemma SplitNumber(n: nat, d: nat)
    requires d > 0
    ensures n == n / d * d + n % d && 0 <= n % d < d && n / d >= 0
  {
  }

  /** Rounding up may carry out of the highest bit. */
  lemma CarryOut(bits: nat, number: nat, exponent: nat)
    requires bits > 0 && number <= Pow(2, bits)
    ensures number / Pow2(bits) % 2 != 0 <==> number == Pow(2, bits)
    ensures number == Pow(2, bits) ==> number / 2 == Pow(2, bits - 1) < Pow(2, bits)
                                       && (number / 2) * Pow(2, exponent + 1) == number * Pow(2, exponent)
  {
    var p := Pow(2, bits - 1);
    assert Pow(2, bits) == 2 * p && Pow(2, exponent + 1) == 2 * Pow(2, exponent);
    PowPositive(2, bits - 1);
    hide Pow;
    if number == Pow(2, bits) {
      DivUnique(number, Pow2(bits), 1, 0);
      assert number / 2 == p;
      MulAssoc(p, 2, Pow(2, exponent));
    } else {
      DivUnique(number, Pow2(bits), 0, number);
    }
  }

  lemma Rounded(n: nat, bits: nat, number: nat, exponent: nat, e: nat, rounded: nat)
    requires bits > 0 && e > 0 && number < Pow(2, bits) && number * Pow(2, exponent) == rounded * Pow(2, e)
    requires exponent == e || (exponent == e + 1 && number == Pow(2, bits - 1))
    requires RoundHalfEven(n, Pow2(e)) == rounded && Pow(2, bits - 1) <= n / Pow2(e) < Pow(2, bits)
    ensures RoundedToBits(n, bits, number, exponent, e)
  {
  }

  /** The digits that no longer fit only matter by their number and by whether they are all zero. */
  method ReadTail(s: string, radixLog2: nat, number0: nat, from: nat)
    returns (current: nat, tailBits: nat, zeroTail: bool, ghost tail: nat)
    requires 1 <= radixLog2 <= 5 && from <= |s| && AllRadixDigits(s[..from], Radix(radixLog2))
    requires number0 == RadixValue(s[..from], Radix(radixLog2))
    requires DigitsEnd(s, Radix(radixLog2), 0) == DigitsEnd(s, Radix(radixLog2), from)
    ensures current == DigitsEnd(s, Radix(radixLog2), 0) <= |s| && AllRadixDigits(s[..current], Radix(radixLog2))
    ensures RadixValue(s[..current], Radix(radixLog2)) == number0 * Pow(2, tailBits) + tail && tail < Pow(2, tailBits)
    ensures zeroTail <==> tail == 0
  {
    NoBits();
    hide Pow, DigitsEnd, RadixValue, AllRadixDigits, IsRadixDigit, DigitValue;
    var radix := Radix(radixLog2);
    current, tailBits, zeroTail, tail := from, 0, true, 0;
    while current < |s| && IsRadixDigit(s[current], radix)
      invariant from <= current <= |s| && DigitsEnd(s, radix, 0) == DigitsEnd(s, radix, current)
      invariant AllRadixDigits(s[..current], radix)
      invariant RadixValue(s[..current], radix) == number0 * Pow(2, tailBits) + tail && tail < Pow(2, tailBits)
      invariant zeroTail <==> tail == 0
    {
      DigitsEndStep(s, radix, current);
      ValueNext(s, radix, current);
      ZeroDigit(s[current], radix);
      LongerTail(number0, tailBits, tail, radixLog2, DigitValue(s[current], radix));
      tail := tail * radix + DigitValue(s[current], radix);
      zeroTail := zeroTail && s[current] == '0';
      tailBits := tailBits + radixLog2;
      current := current + 1;
    }
    EndOfDigits(s, radix, current);
  }

  lemma NoBits()
    ensures Pow(2, 0) == 1
  {
  }

  lemma ZeroDigit(c: char, radix: nat)
    requires 2 <= radix <= 32 && IsRadixDigit(c, radix)
    ensures DigitValue(c, radix) == 0 <==> c == '0'
  {
  }

  lemma LongerTail(n: nat, k: nat, tail: nat, radixLog2: nat, digit: nat)
    requires 1 <= radixLog2 <= 5 && tail < Pow(2, k) && digit < Radix(radixLog2)
    ensures var radix := Radix(radixLog2);
            && (n * Pow(2, k) + tail) * radix + digit == n * Pow(2, k + radixLog2) + (tail * radix + digit)
            && tail * radix + digit < Pow(2, k + radixLog2) && (tail * radix + digit == 0 <==> tail == 0 && digit == 0)
  {
    var radix := Radix(radixLog2);
    PowAdd(2, k, radixLog2);
    hide Pow;
    MulAssoc(n, Pow(2, k), radix);
    MulMonotone(tail + 1, Pow(2, k), radix);
    assert (tail + 1) * radix == tail * radix + radix;
    assert (n * Pow(2, k) + tail) * radix == (n * Pow(2, k)) * radix + tail * radix;
    if tail > 0 {
      MulMonotone(1, tail, radix);
    }
  }
}
