/** Fast printing of a fixed number of digits after the decimal point, in 64- and 128-bit arithmetic. */
module FixedDtoa {
  import opened Arith
  import opened Machine
  import opened Digits
  import opened DecimalOrder
  import opened PrintSpec
  import opened StartValues
  import opened BignumDtoa

  /** The 128-bit numbers of the source: high * 2^64 + low. */
  class UInt128 {
    var high: uint64
    var low: uint64

    ghost function Value(): (v: nat)
      reads this
    {
      high * TWO_64 + low
    }

    constructor (h: uint64, l: uint64)
      ensures high == h && low == l
    {
      high, low := h, l;
    }

    method Multiply(multiplicand: uint32)
      requires Value() * multiplicand < TWO_64 * TWO_64
      modifies this
      ensures Value() == old(Value()) * multiplicand
    {
      ghost var a0, a1, a2, a3 := PartProducts(high, low, multiplicand);
      var accumulator: uint64 := (low % TWO_32) * multiplicand;
      var part: uint32 := accumulator % TWO_32;
      accumulator := accumulator / TWO_32;
      accumulator := accumulator + (low / TWO_32) * multiplicand;
      low := Wrap64(accumulator * TWO_32) + part;
      accumulator := accumulator / TWO_32;
      accumulator := accumulator + (high % TWO_32) * multiplicand;
      part := accumulator % TWO_32;
      accumulator := accumulator / TWO_32;
      accumulator := accumulator + (high / TWO_32) * multiplicand;
      assert accumulator == a3 && part == a2 % TWO_32 && Wrap64(a3 * TWO_32) == a3 * TWO_32;
      high := Wrap64(accumulator * TWO_32) + part;
    }

    /** The four 32-bit columns of the product, with their carries. */
    static lemma PartProducts(h: uint64, l: uint64, m: uint32) returns (a0: nat, a1: nat, a2: nat, a3: nat)
      requires (h * TWO_64 + l) * m < TWO_64 * TWO_64
      ensures a0 == (l % TWO_32) * m < TWO_64
      ensures a1 == a0 / TWO_32 + (l / TWO_32) * m < TWO_64
      ensures a2 == a1 / TWO_32 + (h % TWO_32) * m < TWO_64
      ensures a3 == a2 / TWO_32 + (h / TWO_32) * m < TWO_32
      ensures (a3 * TWO_32 + a2 % TWO_32) * TWO_64 + (Wrap64(a1 * TWO_32) + a0 % TWO_32) == (h * TWO_64 + l) * m
      ensures Wrap64(a1 * TWO_32) + a0 % TWO_32 < TWO_64
    {
      var l0, l1, h0, h1 := l % TWO_32, l / TWO_32, h % TWO_32, h / TWO_32;
      ColumnFits(l0, m, 0);
      ColumnFits(l1, m, l0 * m / TWO_32);
      a0 := l0 * m;
      var b1, b2, b3 := l1 * m, h0 * m, h1 * m;
      a1 := a0 / TWO_32 + b1;
      ColumnFits(h0, m, a1 / TWO_32);
      a2 := a1 / TWO_32 + b2;
      ColumnFits(h1, m, a2 / TWO_32);
      a3 := a2 / TWO_32 + b3;
      assert Wrap64(a1 * TWO_32) == (a1 % TWO_32) * TWO_32 by {
        DivUnique(a1 * TWO_32, TWO_64, a1 / TWO_32, (a1 % TWO_32) * TWO_32);
      }
      assert (h * TWO_64 + l) * m == ((b3 * TWO_32 + b2) * TWO_32 + b1) * TWO_32 + a0 by {
        assert h == h1 * TWO_32 + h0 && l == l1 * TWO_32 + l0;
        FourColumns(h1, h0, l1, l0, m);
      }
      assert (a3 * TWO_32 + a2 % TWO_32) * TWO_64 + ((a1 % TWO_32) * TWO_32 + a0 % TWO_32)
          == ((b3 * TWO_32 + b2) * TWO_32 + b1) * TWO_32 + a0;
    }

    static lemma ColumnFits(x: nat, m: uint32, carry: nat)
      requires x < TWO_32 && carry < TWO_32
      ensures 0 <= x * m && carry + x * m < TWO_64 && (carry + x * m) / TWO_32 < TWO_32
    {
      MulMonotone(x, TWO_32 - 1, m);
      MulMonotone(0, x, m);
    }

    static lemma FourColumns(h1: int, h0: int, l1: int, l0: int, m: int)
      ensures ((h1 * TWO_32 + h0) * TWO_64 + (l1 * TWO_32 + l0)) * m
              == ((h1 * m * TWO_32 + h0 * m) * TWO_32 + l1 * m) * TWO_32 + l0 * m
    {
    }

    /** Shifts right for a positive amount and left for a negative one. */
    method Shift(shiftAmount: int)
      requires -64 <= shiftAmount <= 64
      requires shiftAmount < 0 ==> Value() * Pow(2, -shiftAmount) < TWO_64 * TWO_64
      modifies this
      ensures shiftAmount >= 0 ==> Pow(2, shiftAmount) > 0 && Value() == old(Value()) / Pow(2, shiftAmount)
      ensures shiftAmount < 0 ==> Value() == old(Value()) * Pow(2, -shiftAmount)
    {
      SixtyFour();
      if shiftAmount == 0 {
        return;
      } else if shiftAmount == -64 {
        LeftBySixtyFour(high, low);
        high := low;
        low := 0;
      } else if shiftAmount == 64 {
        DivUnique(Value(), TWO_64, high, low);
        low := high;
        high := 0;
      } else if shiftAmount <= 0 {
        ghost var p, q := Pow(2, -shiftAmount), Pow(2, 64 + shiftAmount);
        Complement(-shiftAmount);
        ShiftLeftParts(high, low, p, q);
        high := Wrap64(high * Pow(2, -shiftAmount));
        high := high + low / Pow(2, 64 + shiftAmount);
        low := Wrap64(low * Pow(2, -shiftAmount));
      } else {
        ghost var p, q := Pow(2, shiftAmount), Pow(2, 64 - shiftAmount);
        Complement(shiftAmount);
        ShiftRightParts(high, low, p, q);
        low := low / Pow(2, shiftAmount);
        low := low + Wrap64(high * Pow(2, 64 - shiftAmount));
        high := high / Pow(2, shiftAmount);
      }
    }

    static lemma SixtyFour()
      ensures Pow(2, 64) == TWO_64 && Pow(2, 0) == 1
    {
      assert Pow(2, 8) == 256;
      PowAdd(2, 8, 8);
      PowAdd(2, 16, 16);
      PowAdd(2, 32, 32);
    }

    static lemma Complement(k: nat)
      requires k <= 64
      ensures Pow(2, k) > 0 && Pow(2, 64 - k) > 0 && Pow(2, k) * Pow(2, 64 - k) == TWO_64
    {
      SixtyFour();
      PowPositive(2, k);
      PowPositive(2, 64 - k);
      PowAdd(2, k, 64 - k);
    }

    static lemma LeftBySixtyFour(h: uint64, l: uint64)
      requires (h * TWO_64 + l) * TWO_64 < TWO_64 * TWO_64
      ensures h == 0
    {
    }

    static lemma ShiftLeftParts(h: uint64, l: uint64, p: nat, q: nat)
      requires p > 0 && q > 0 && p * q == TWO_64
      requires (h * TWO_64 + l) * p < TWO_64 * TWO_64
      ensures h * p >= 0 && l * p >= 0
      ensures 0 <= l / q && Wrap64(h * p) + l / q < TWO_64
      ensures (Wrap64(h * p) + l / q) * TWO_64 + Wrap64(l * p) == (h * TWO_64 + l) * p
    {
      MulMonotone(0, h, p);
      MulMonotone(0, l, p);
      var a, b := l / q, l % q;
      assert l * p == a * TWO_64 + b * p by {
        MulAssoc(a, q, p);
        assert q * p == p * q;
      }
      MulMonotone(b, q - 1, p);
      assert (q - 1) * p == TWO_64 - p;
      MulMonotone(0, b, p);
      DivUnique(l * p, TWO_64, a, b * p);
      assert (h * TWO_64 + l) * p == (h * p) * TWO_64 + l * p by {
        MulAssoc(h, TWO_64, p);
        MulAssoc(h, p, TWO_64);
      }
      assert (h * p + a) * TWO_64 < TWO_64 * TWO_64;
      DivUnique(h * p, TWO_64, 0, h * p);
    }

    static lemma ShiftRightParts(h: uint64, l: uint64, p: nat, q: nat)
      requires p > 0 && q > 0 && p * q == TWO_64
      ensures h * q >= 0
      ensures 0 <= l / p && 0 <= h / p < TWO_64 && l / p + Wrap64(h * q) < TWO_64
      ensures (h / p) * TWO_64 + (l / p + Wrap64(h * q)) == (h * TWO_64 + l) / p
    {
      var a, b, c, d := h / p, h % p, l / p, l % p;
      MulMonotone(0, h, q);
      assert h * q == a * TWO_64 + b * q by {
        MulAssoc(a, p, q);
      }
      MulMonotone(b, p - 1, q);
      assert (p - 1) * q == TWO_64 - q;
      MulMonotone(0, b, q);
      DivUnique(h * q, TWO_64, a, b * q);
      DivBelow(l, q, p);
      assert a < TWO_64 by {
        MulMonotone(1, p, a);
      }
      ShiftedQuotient(h, l, a, b, c, d, p, q);
      DivUnique(h * TWO_64 + l, p, a * TWO_64 + (c + b * q), d);
    }

    static lemma ShiftedQuotient(h: int, l: int, a: int, b: int, c: int, d: int, p: int, q: int)
      requires p * q == TWO_64 && h == p * a + b && l == p * c + d
      ensures h * TWO_64 + l == p * (a * TWO_64 + (c + b * q)) + d
    {
      MulAssoc(p, a, TWO_64);
      MulAssoc(p, b, q);
      MulAssoc(b, p, q);
      assert p * b == b * p;
    }

    /** Leaves the remainder modulo 2^power and returns the quotient. */
    method DivModPowerOf2(power: nat) returns (result: nat)
      requires 0 < power < 128 && Pow(2, power) > 0 && Value() / Pow(2, power) < TWO_31
      modifies this
      ensures result == old(Value()) / Pow(2, power) && Value() == old(Value()) % Pow(2, power)
    {
      SixtyFour();
      if power >= 64 {
        PowPositive(2, power - 64);
        PowAdd(2, power - 64, 64);
        HighDivision(high, low, Pow(2, power - 64));
        result := high / Pow(2, power - 64);
        high := high - result * Pow(2, power - 64);
      } else {
        Complement(power);
        LowDivision(high, low, Pow(2, power), Pow(2, 64 - power));
        var partLow := low / Pow(2, power);
        var partHigh: uint64 := Wrap64(high * Pow(2, 64 - power));
        result := partLow + partHigh;
        high := 0;
        low := low - partLow * Pow(2, power);
      }
    }

    static lemma HighDivision(h: uint64, l: uint64, p: nat)
      requires p > 0
      ensures p * TWO_64 > 0
      ensures 0 <= (h / p) * p <= h
      ensures h / p == (h * TWO_64 + l) / (p * TWO_64)
      ensures (h - (h / p) * p) * TWO_64 + l == (h * TWO_64 + l) % (p * TWO_64)
    {
      var a, b := h / p, h % p;
      assert a * p == p * a;
      assert h * TWO_64 == (p * TWO_64) * a + b * TWO_64 by {
        MulAssoc(p, TWO_64, a);
        MulAssoc(p, a, TWO_64);
        assert TWO_64 * a == a * TWO_64;
      }
      MulMonotone(b, p - 1, TWO_64);
      MulMonotone(0, a, p);
      DivUnique(h * TWO_64 + l, p * TWO_64, a, b * TWO_64 + l);
    }

    static lemma LowDivision(h: uint64, l: uint64, p: nat, q: nat)
      requires p > 0 && q > 0 && p * q == TWO_64 && (h * TWO_64 + l) / p < TWO_31
      ensures h * q >= 0 && l / p >= 0 && 0 <= (l / p) * p <= l
      ensures l / p + Wrap64(h * q) == (h * TWO_64 + l) / p
      ensures l - (l / p) * p == (h * TWO_64 + l) % p
    {
      MulMonotone(0, h, q);
      var a, b := l / p, l % p;
      assert a * p == p * a;
      MulMonotone(0, a, p);
      assert h * TWO_64 == p * (h * q) by {
        MulAssoc(p, h, q);
        MulAssoc(h, p, q);
        assert p * h == h * p;
      }
      DivUnique(h * TWO_64 + l, p, h * q + a, b);
      DivUnique(h * q, TWO_64, 0, h * q);
    }

    method IsZero() returns (b: bool)
      ensures b == (Value() == 0)
    {
      b := high == 0 && low == 0;
    }

    method BitAt(position: nat) returns (bit: nat)
      requires position < 128
      ensures Pow(2, position) > 0 && bit == (Value() / Pow(2, position)) % 2
    {
      SixtyFour();
      PowPositive(2, position);
      if position >= 64 {
        PowPositive(2, position - 64);
        PowAdd(2, position - 64, 64);
        HighDivision(high, low, Pow(2, position - 64));
        bit := (high / Pow(2, position - 64)) % 2;
      } else {
        Complement(position);
        LowBit(high, low, Pow(2, position), Pow(2, 64 - position), Pow(2, 63 - position));
        bit := (low / Pow(2, position)) % 2;
      }
    }

    static lemma LowBit(h: uint64, l: uint64, p: nat, q: nat, r: nat)
      requires p > 0 && p * q == TWO_64 && q == 2 * r
      ensures (l / p) % 2 == ((h * TWO_64 + l) / p) % 2
    {
      assert h * TWO_64 == p * (2 * (h * r)) by {
        MulAssoc(p, h, q);
        MulAssoc(h, p, q);
        assert p * h == h * p;
        MulAssoc(h, 2, r);
        assert h * 2 == 2 * h;
        MulAssoc(2, h, r);
      }
      DivUnique(h * TWO_64 + l, p, 2 * (h * r) + l / p, l % p);
      EvenPlus(h * r, l / p);
    }

    static lemma EvenPlus(x: int, y: int)
      ensures (2 * x + y) % 2 == y % 2
    {
    }
  }

  // ---- Filling in digits ----

  lemma DecimalCons(c: char, s: string)
    requires IsDigit(c) && AllDigits(s)
    ensures AllDigits([c] + s) && Decimal([c] + s) == DigitOf(c) * Pow(10, |s|) + Decimal(s)
  {
    hide Pow;
    assert Decimal([c]) == DigitOf(c) by {
      assert [c][..0] == [];
    }
    DecimalConcat([c], s);
    hide Decimal;
  }

  lemma NextPower(k: nat)
    ensures Pow(10, k + 1) == 10 * Pow(10, k) && Pow(10, 0) == 1
  {
  }

  /** Appends `number` with exactly `requestedLength` digits. */
  method FillDigits32FixedLength(n: nat, requestedLength: nat, buffer: array<char>, length: nat)
    returns (newLength: nat)
    requires n < Pow(10, requestedLength) && length + requestedLength <= buffer.Length
    modifies buffer
    ensures newLength == length + requestedLength
    ensures buffer[..length] == old(buffer[..length])
    ensures AllDigits(buffer[length..newLength]) && Decimal(buffer[length..newLength]) == n
  {
    hide Pow;
    NextPower(0);
    var number := n;
    var i := requestedLength - 1;
    assert buffer[length + i + 1..length + requestedLength] == [];
    while i >= 0
      invariant -1 <= i < requestedLength && 0 <= number < Pow(10, i + 1)
      invariant buffer[..length] == old(buffer[..length])
      invariant AllDigits(buffer[length + i + 1..length + requestedLength])
      invariant number * Pow(10, requestedLength - 1 - i) + Decimal(buffer[length + i + 1..length + requestedLength])
        == n
    {
      ghost var s := buffer[length + i + 1..length + requestedLength];
      buffer[length + i] := DigitChar(number % 10);
      assert buffer[length + i..length + requestedLength] == [DigitChar(number % 10)] + s;
      DecimalCons(DigitChar(number % 10), s);
      NextPower(i);
      NextPower(|s|);
      SplitLast(number, Pow(10, |s|), Pow(10, i));
      number := number / 10;
      i := i - 1;
    }
    newLength := length + requestedLength;
  }

  lemma SplitLast(x: nat, p: int, q: nat)
    requires x < 10 * q
    ensures (x / 10) * (10 * p) + (x % 10) * p == x * p
    ensures x / 10 < q
  {
    MulAssoc(x / 10, 10, p);
    assert x == (x / 10) * 10 + x % 10;
  }

  /** The digits of s from the last to the first. */
  function Backwards(s: string): (r: string)
    ensures |r| == |s| && forall i :: 0 <= i < |r| ==> r[i] == s[|s| - 1 - i]
  {
    seq(|s|, i requires 0 <= i < |s| => s[|s| - 1 - i])
  }

  lemma BackwardsSnoc(s: string, c: char)
    ensures Backwards(s + [c]) == [c] + Backwards(s) && |Backwards(s)| == |s|
  {
  }

  /** Appends `number` without leading zeros; zero has no digits. */
  method FillDigits32(n: nat, ghost maxDigits: nat, buffer: array<char>, length: nat) returns (newLength: nat)
    requires n < Pow(10, maxDigits) && length + maxDigits <= buffer.Length
    modifies buffer
    ensures length <= newLength <= length + maxDigits
    ensures buffer[..length] == old(buffer[..length])
    ensures AllDigits(buffer[length..newLength]) && Decimal(buffer[length..newLength]) == n
  {
    hide Pow, Backwards, Decimal;
    var numberLength := FillReversed(n, maxDigits, buffer, length);
    Exchange(buffer, length, length + numberLength);
    newLength := length + numberLength;
  }

  /** Writes the digits in reverse order. */
  method FillReversed(n: nat, ghost maxDigits: nat, buffer: array<char>, length: nat) returns (numberLength: nat)
    requires n < Pow(10, maxDigits) && length + maxDigits <= buffer.Length
    modifies buffer
    ensures numberLength <= maxDigits
    ensures buffer[..length] == old(buffer[..length])
    ensures AllDigits(Backwards(buffer[length..length + numberLength]))
    ensures Decimal(Backwards(buffer[length..length + numberLength])) == n
  {
    hide Pow, Backwards;
    NextPower(0);
    var number := n;
    numberLength := 0;
    assert buffer[length..length] == [];
    NothingBackwards();
    while number != 0
      invariant 0 <= number && numberLength <= maxDigits && number < Pow(10, maxDigits - numberLength)
      invariant buffer[..length] == old(buffer[..length])
      invariant AllDigits(Backwards(buffer[length..length + numberLength]))
      invariant number * Pow(10, numberLength) + Decimal(Backwards(buffer[length..length + numberLength])) == n
      decreases number
    {
      ghost var s := buffer[length..length + numberLength];
      var digit := number % 10;
      NextPower(numberLength);
      if numberLength < maxDigits {
        NextPower(maxDigits - numberLength - 1);
      }
      assert numberLength < maxDigits;
      SplitLast(number, Pow(10, numberLength), Pow(10, maxDigits - numberLength - 1));
      BackwardsSnoc(s, DigitChar(digit));
      DecimalCons(DigitChar(digit), Backwards(s));
      number := number / 10;
      buffer[length + numberLength] := DigitChar(digit);
      numberLength := numberLength + 1;
      assert buffer[length..length + numberLength] == s + [DigitChar(digit)];
    }
  }

  lemma NothingBackwards()
    ensures Backwards([]) == [] && Decimal([]) == 0
  {
  }

  /** Reverses the cells from `from` up to `to`. */
  method Exchange(buffer: array<char>, from: nat, to: nat)
    requires from <= to <= buffer.Length
    modifies buffer
    ensures buffer[from..to] == Backwards(old(buffer[from..to]))
    ensures buffer[..from] == old(buffer[..from])
  {
    var i, j := from, to - 1;
    while i < j
      invariant from <= i <= to && i + j == from + to - 1
      invariant forall k :: 0 <= k < from ==> buffer[k] == old(buffer[k])
      invariant forall k :: from <= k < i || j < k < to ==> buffer[k] == old(buffer[from + to - 1 - k])
      invariant forall k :: i <= k <= j ==> buffer[k] == old(buffer[k])
    {
      var tmp := buffer[i];
      buffer[i] := buffer[j];
      buffer[j] := tmp;
      i := i + 1;
      j := j - 1;
    }
  }

  const TEN_7: nat := 10000000

  lemma TenPowers()
    ensures Pow(10, 3) == 1000 && Pow(10, 7) == TEN_7 && Pow(10, 17) == 1000 * TEN_7 * TEN_7
    ensures Pow(10, 10) == 1000 * TEN_7 && Pow(10, 14) == TEN_7 * TEN_7 && Pow(10, 6) == 1000000
  {
    PowAdd(10, 3, 3);
    PowAdd(10, 3, 7);
    PowAdd(10, 7, 7);
    PowAdd(10, 3, 14);
  }

  /** Two consecutive stretches of digits denote the combined number. */
  lemma JoinDigits(buffer: array<char>, a: nat, b: nat, c: nat)
    requires a <= b <= c <= buffer.Length
    requires AllDigits(buffer[a..b]) && AllDigits(buffer[b..c])
    ensures AllDigits(buffer[a..c])
    ensures Decimal(buffer[a..c]) == Decimal(buffer[a..b]) * Pow(10, c - b) + Decimal(buffer[b..c])
  {
    assert buffer[a..c] == buffer[a..b] + buffer[b..c];
    DecimalConcat(buffer[a..b], buffer[b..c]);
  }

  lemma KeptDigits(before: string, after: string, a: nat, b: nat)
    requires a <= b <= |before| && b <= |after| && before[..b] == after[..b]
    ensures before[a..b] == after[a..b]
  {
    assert before[a..b] == before[..b][a..];
  }

  /** Appends a number below 10^17 with 17 digits. */
  method FillDigits64FixedLength(n: uint64, buffer: array<char>, length: nat) returns (newLength: nat)
    requires n < Pow(10, 17) && length + 17 <= buffer.Length
    modifies buffer
    ensures newLength == length + 17
    ensures buffer[..length] == old(buffer[..length])
    ensures AllDigits(buffer[length..newLength]) && Decimal(buffer[length..newLength]) == n
  {
    TenPowers();
    hide Pow;
    var part2 := n % TEN_7;
    var number := n / TEN_7;
    var part1 := number % TEN_7;
    var part0 := number / TEN_7;
    assert part0 < 1000;
    var end := FillDigits32FixedLength(part0, 3, buffer, length);
    newLength := FillTwoParts(part0, part1, part2, buffer, length, end);
  }

  /** Appends seven digits twice. */
  method FillTwoParts(ghost head: nat, part1: nat, part2: nat, buffer: array<char>, start: nat, length: nat)
    returns (newLength: nat)
    requires start <= length && length + 14 <= buffer.Length && part1 < TEN_7 && part2 < TEN_7
    requires AllDigits(buffer[start..length]) && Decimal(buffer[start..length]) == head
    modifies buffer
    ensures newLength == length + 14
    ensures buffer[..length] == old(buffer[..length])
    ensures AllDigits(buffer[start..newLength])
      && Decimal(buffer[start..newLength]) == (head * TEN_7 + part1) * TEN_7 + part2
  {
    newLength := FillOnePart(head, part1, buffer, start, length);
    newLength := FillOnePart(head * TEN_7 + part1, part2, buffer, start, newLength);
  }

  method FillOnePart(ghost head: nat, part: nat, buffer: array<char>, start: nat, length: nat) returns (newLength: nat)
    requires start <= length && length + 7 <= buffer.Length && part < TEN_7
    requires AllDigits(buffer[start..length]) && Decimal(buffer[start..length]) == head
    modifies buffer
    ensures newLength == length + 7
    ensures buffer[..length] == old(buffer[..length])
    ensures AllDigits(buffer[start..newLength]) && Decimal(buffer[start..newLength]) == head * TEN_7 + part
  {
    TenPowers();
    hide Pow;
    ghost var before := buffer[..];
    newLength := FillDigits32FixedLength(part, 7, buffer, length);
    KeptDigits(before, buffer[..], start, length);
    assert buffer[start..length] == before[start..length];
    JoinDigits(buffer, start, length, newLength);
  }

  /** Appends a 64-bit number without leading zeros. */
  method FillDigits64(n: uint64, buffer: array<char>, length: nat) returns (newLength: nat)
    requires length + 20 <= buffer.Length
    modifies buffer
    ensures length <= newLength <= length + 20
    ensures buffer[..length] == old(buffer[..length])
    ensures AllDigits(buffer[length..newLength]) && Decimal(buffer[length..newLength]) == n
  {
    TenPowers();
    var part2 := n % TEN_7;
    var number := n / TEN_7;
    var part1 := number % TEN_7;
    var part0 := number / TEN_7;
    assert part0 < Pow(10, 6) by {
      assert n < TWO_64;
    }
    hide Pow, Decimal;
    assert n == (part0 * TEN_7 + part1) * TEN_7 + part2;
    if part0 != 0 {
      newLength := FillDigits32(part0, 6, buffer, length);
      newLength := FillTwoParts(part0, part1, part2, buffer, length, newLength);
    } else if part1 != 0 {
      newLength := FillDigits32(part1, 7, buffer, length);
      newLength := FillOnePart(part1, part2, buffer, length, newLength);
    } else {
      newLength := FillDigits32(part2, 7, buffer, length);
    }
  }

  // ---- Rounding and trimming ----

  /** Adds one unit to the last digit; an empty buffer becomes 1. */
  method RoundUp(buffer: array<char>, length: nat, decimalPoint: int) returns (newLength: nat, newPoint: int)
    requires length <= buffer.Length && 0 < buffer.Length && AllDigits(buffer[..length])
    modifies buffer
    ensures newLength == Max(1, length) && AllDigits(buffer[..newLength])
    ensures length == 0 ==> newPoint == 1 && Decimal(buffer[..newLength]) == 1
    ensures length > 0 ==> newPoint - decimalPoint in {0, 1}
    ensures length > 0 ==> Decimal(buffer[..newLength]) * (if newPoint == decimalPoint then 1 else 10)
                           == old(Decimal(buffer[..length])) + 1
  {
    if length == 0 {
      buffer[0] := '1';
      assert buffer[..1] == [] + ['1'];
      DecimalSnoc([], '1');
      return 1, 1;
    }
    hide Pow, Decimal, Wide;
    ghost var s := buffer[..length];
    IncrementWide(s);
    buffer[length - 1] := (buffer[length - 1] as int + 1) as char;
    assert buffer[..length] == s[..length - 1] + [buffer[length - 1]];
    CarryDigits(buffer, length);
    newPoint := SettleFirst(buffer, length, decimalPoint);
    newLength := length;
  }

  /** A first digit of ten becomes one, and the decimal point moves. */
  method SettleFirst(buffer: array<char>, length: nat, decimalPoint: int) returns (newPoint: int)
    requires 0 < length <= buffer.Length && AllWide(buffer[..length]) && AllDigits(buffer[1..length])
    requires Wide(buffer[..length]) <= Pow(10, length)
    modifies buffer
    ensures newPoint - decimalPoint in {0, 1} && AllDigits(buffer[..length])
    ensures Decimal(buffer[..length]) * (if newPoint == decimalPoint then 1 else 10) == old(Wide(buffer[..length]))
  {
    newPoint := decimalPoint;
    ghost var wide := buffer[..length];
    assert wide[1..] == buffer[1..length];
    if buffer[0] == ':' {
      AllNines(wide);
      buffer[0] := '1';
      newPoint := decimalPoint + 1;
      assert buffer[..length] == ['1'] + wide[1..];
    } else {
      assert AllDigits(wide) by {
        assert forall k :: 0 < k < length ==> wide[k] == wide[1..][k - 1];
      }
      WideIsDecimal(wide);
    }
  }

  lemma IncrementWide(s: string)
    requires AllDigits(s) && s != []
    ensures var t := s[..|s| - 1] + [(s[|s| - 1] as int + 1) as char];
            && AllWide(t) && AllDigits(t[..|s| - 1])
            && Wide(t) == Decimal(s) + 1 <= Pow(10, |s|)
  {
    var last := (s[|s| - 1] as int + 1) as char;
    var t := s[..|s| - 1] + [last];
    assert t[..|s| - 1] == s[..|s| - 1];
    WideIsDecimal(s[..|s| - 1]);
    WideSnoc(s[..|s| - 1], last);
    DecimalBound(s);
  }

  /** Removes trailing and leading zeros. */
  method TrimZeros(buffer: array<char>, oldLength: nat, oldPoint: int) returns (length: nat, decimalPoint: int)
    requires oldLength <= buffer.Length && AllDigits(buffer[..oldLength])
    modifies buffer
    ensures length <= oldLength && AllDigits(buffer[..length])
    ensures length > 0 ==> buffer[0] != '0' && buffer[length - 1] != '0'
    ensures (decimalPoint - length) - (oldPoint - oldLength) >= 0
    ensures Decimal(buffer[..length]) * Pow(10, (decimalPoint - length) - (oldPoint - oldLength))
      == old(Decimal(buffer[..oldLength]))
  {
    hide Decimal, Pow;
    length, decimalPoint := oldLength, oldPoint;
    while length > 0 && buffer[length - 1] == '0'
      invariant length <= oldLength
      invariant forall k :: length <= k < oldLength ==> buffer[k] == '0'
    {
      length := length - 1;
    }
    DropZerosAtEnd(buffer[..oldLength], length);
    assert buffer[..oldLength][..length] == buffer[..length];
    var firstNonZero := 0;
    while firstNonZero < length && buffer[firstNonZero] == '0'
      invariant 0 <= firstNonZero <= length
      invariant forall k :: 0 <= k < firstNonZero ==> buffer[k] == '0'
    {
      firstNonZero := firstNonZero + 1;
    }
    ghost var s := buffer[..length];
    DropZerosAtStart(s, firstNonZero);
    if firstNonZero != 0 {
      for i := firstNonZero to length
        invariant forall k :: 0 <= k < i - firstNonZero ==> buffer[k] == s[k + firstNonZero]
        invariant forall k :: i <= k < length ==> buffer[k] == s[k]
      {
        buffer[i - firstNonZero] := buffer[i];
      }
      length := length - firstNonZero;
      decimalPoint := decimalPoint - firstNonZero;
      assert forall k :: 0 <= k < length ==> buffer[..length][k] == s[firstNonZero..][k];
    } else {
      assert s[0..] == s;
    }
    assert buffer[..length] == s[firstNonZero..];
  }

  lemma {:induction false} DropZerosAtEnd(s: string, n: nat)
    requires AllDigits(s) && n <= |s| && forall k :: n <= k < |s| ==> s[k] == '0'
    ensures Decimal(s) == Decimal(s[..n]) * Pow(10, |s| - n)
    decreases |s|
  {
    if n < |s| {
      DropZerosAtEnd(s[..|s| - 1], n);
      assert s[..|s| - 1][..n] == s[..n];
      MulAssoc(Decimal(s[..n]), Pow(10, |s| - 1 - n), 10);
    } else {
      assert s[..n] == s;
    }
  }

  lemma {:induction false} DropZerosAtStart(s: string, n: nat)
    requires AllDigits(s) && n <= |s| && forall k :: 0 <= k < n ==> s[k] == '0'
    ensures Decimal(s) == Decimal(s[n..])
  {
    if n > 0 {
      DropZerosAtStart(s, n - 1);
      assert s[n - 1..] == [s[n - 1]] + s[n..];
      DecimalCons(s[n - 1], s[n..]);
    }
  }

  // ---- Fractions ----

  /** After i digits, the number (n0 + f0 / 2^p) * 10^i is the digits' number d plus rest / 2^(p - i). */
  ghost predicate Fraction(n0: nat, f0: nat, p: nat, i: nat, d: nat, rest: nat)
  {
    && i <= p && rest < Pow(2, p - i)
    && (n0 * Pow(2, p) + f0) * Pow(10, i) == d * Pow(2, p) + rest * Pow(2, i)
  }

  lemma FractionStart(n0: nat, f0: nat, p: nat)
    requires f0 < Pow(2, p)
    ensures Fraction(n0, f0, p, 0, n0, f0)
  {
    assert Pow(10, 0) == 1 && Pow(2, 0) == 1;
  }

  lemma StepPowers(p: nat, i: nat, rest: nat)
    requires i <= p && 0 < rest < Pow(2, p - i)
    ensures i < p && Pow(2, p - i - 1) > 0 && Pow(2, p - i) == 2 * Pow(2, p - i - 1)
    ensures Pow(2, p - i - 1) * Pow(2, i + 1) == Pow(2, p)
    ensures Pow(2, i + 1) == 2 * Pow(2, i) && Pow(10, i + 1) == 10 * Pow(10, i)
  {
    assert Pow(2, 0) == 1;
    PowOrder(2, 0, p - i);
    PowPositive(2, p - i - 1);
    PowAdd(2, p - i - 1, i + 1);
  }

  /** Multiplying by five and moving the binary point down by one yields the next digit. */
  lemma FractionStep(n0: nat, f0: nat, p: nat, i: nat, d: nat, rest: nat)
    requires Fraction(n0, f0, p, i, d, rest) && rest > 0
    ensures i < p && Pow(2, p - i - 1) > 0
    ensures var digit := (rest * 5) / Pow(2, p - i - 1);
            0 <= digit <= 9 && Fraction(n0, f0, p, i + 1, d * 10 + digit, (rest * 5) % Pow(2, p - i - 1))
  {
    hide Pow;
    StepPowers(p, i, rest);
    var q := Pow(2, p - i - 1);
    var digit, r := (rest * 5) / q, (rest * 5) % q;
    DivBelow(rest * 5, 10, q);
    var x, two, ten, big := n0 * Pow(2, p) + f0, Pow(2, i), Pow(10, i), Pow(2, p);
    assert digit >= 0;
    FractionArithmetic(x, ten, d, big, rest, two, digit, q, r);
  }

  lemma FractionArithmetic(x: int, ten: int, d: int, big: int, rest: int, two: int, digit: int, q: int, r: int)
    requires x * ten == d * big + rest * two
    requires rest * 5 == digit * q + r && q * (2 * two) == big
    ensures x * (10 * ten) == (d * 10 + digit) * big + r * (2 * two)
  {
    calc {
      x * (10 * ten);
      { MulAssoc(x, 10, ten); MulAssoc(10, x, ten); }
      10 * (x * ten);
      10 * (d * big) + 10 * (rest * two);
      { MulAssoc(d, 10, big); MulAssoc(10, d, big); MulAssoc(rest, 5, 2 * two); MulAssoc(rest, 2, two); MulAssoc(2,
          rest, two); }
      (d * 10) * big + (rest * 5) * (2 * two);
      { assert (digit * q + r) * (2 * two) == (digit * q) * (2 * two) + r * (2 * two); MulAssoc(digit, q, 2 * two); }
      (d * 10) * big + digit * big + r * (2 * two);
      (d * 10 + digit) * big + r * (2 * two);
    }
  }

  /** The digits so far, one more if the bit under the binary point is set, are the rounded number. */
  lemma FractionEnd(n0: nat, f0: nat, p: nat, i: nat, d: nat, rest: nat, fc: nat)
    requires Fraction(n0, f0, p, i, d, rest) && i <= fc && (i == fc || rest == 0)
    ensures Pow(2, p) > 0
    ensures var up := i < p && rest >= Pow(2, p - i - 1);
            && (up ==> i == fc)
            && (if up then d + 1 else d) * Pow(10, fc - i)
               == RoundHalfUp((n0 * Pow(2, p) + f0) * Pow(10, fc), Pow(2, p))
  {
    hide Pow, RoundHalfUp;
    PowPositive(2, p);
    EndPowers(p, i);
    PowAdd(10, i, fc - i);
    var x, big := n0 * Pow(2, p) + f0, Pow(2, p);
    if rest == 0 {
      ExactEnd(x, Pow(10, i), Pow(10, fc - i), d, big, Pow(2, i));
    } else {
      NextPower(0);
      StepPowers(p, i, rest);
      MulStrict(rest, Pow(2, p - i), Pow(2, i));
      MulMonotone(0, rest, Pow(2, i));
      HalfBit(rest, Pow(2, p - i - 1), Pow(2, i), big);
      RoundQuotient(x * Pow(10, fc), big, d, rest * Pow(2, i));
    }
  }

  lemma EndPowers(p: nat, i: nat)
    requires i <= p
    ensures Pow(2, i) > 0 && Pow(2, p - i) * Pow(2, i) == Pow(2, p)
    ensures i < p ==> Pow(2, p - i - 1) > 0 && Pow(2, p - i) == 2 * Pow(2, p - i - 1)
    ensures i == p ==> Pow(2, p - i) == 1
  {
    PowPositive(2, i);
    PowAdd(2, p - i, i);
    if i < p {
      PowPositive(2, p - i - 1);
    }
  }

  lemma ExactEnd(x: nat, ten: nat, t: nat, d: nat, big: nat, two: nat)
    requires big > 0 && x * ten == d * big + 0 * two
    ensures d * t == RoundHalfUp(x * (ten * t), big)
  {
    assert x * (ten * t) == (d * t) * big by {
      MulAssoc(x, ten, t);
      MulAssoc(d, big, t);
      MulAssoc(d, t, big);
      assert big * t == t * big;
    }
    MulMonotone(0, d, t);
    hide RoundHalfUp;
    RoundQuotient(x * (ten * t), big, d * t, 0);
  }

  lemma HalfBit(rest: nat, half: nat, two: nat, big: nat)
    requires two > 0 && big == (2 * half) * two
    ensures rest >= half <==> 2 * (rest * two) >= big
  {
    MulAssoc(2, half, two);
    if rest >= half {
      MulMonotone(half, rest, two);
    } else {
      MulStrict(rest, half, two);
    }
  }

  /** Five times the rest still fits into w bits. */
  lemma NoOverflow(rest: nat, i: nat, p: nat, w: nat)
    requires w >= 8 && p <= w && i <= p
    requires rest < Pow(2, p - i) && rest < Pow(2, w - 8) * Pow(5, i)
    ensures rest * 5 < Pow(2, w)
    ensures rest * 5 < Pow(2, w - 8) * Pow(5, i + 1)
  {
    MulAssoc(Pow(2, w - 8), Pow(5, i), 5);
    assert Pow(5, i + 1) == Pow(5, i) * 5;
    if i <= 2 {
      PowMonotone(5, i + 1, 3);
      PowAdd(2, w - 8, 8);
      assert Pow(5, 3) == 125 && Pow(2, 8) == 256;
      PowPositive(2, w - 8);
      hide Pow;
      MulMonotone(Pow(5, i + 1), 256, Pow(2, w - 8));
    } else {
      PowMonotone(2, p - i, w - 3);
      PowAdd(2, w - 3, 3);
      assert Pow(2, 3) == 8;
    }
  }

  /** The bit just below the binary point tells whether the rest is at least a half. */
  lemma TopBit(rest: nat, half: nat)
    requires half > 0 && rest < 2 * half
    ensures (rest / half) % 2 == 1 <==> rest >= half
  {
    if rest >= half {
      DivUnique(rest, half, 1, rest - half);
    } else {
      DivUnique(rest, half, 0, rest);
    }
  }

  /** What FillFractionals makes of a number with integral part n0 and fraction f / 2^p. */
  ghost predicate FractionPrinted(n0: nat, f: nat, p: nat, fractionalCount: nat, s: string, point: int)
  {
    && Pow(2, p) > 0 && AllDigits(s) && point - |s| + fractionalCount >= 0
    && Decimal(s) * Pow(10, point - |s| + fractionalCount)
       == RoundHalfUp((n0 * Pow(2, p) + f) * Pow(10, fractionalCount), Pow(2, p))
  }

  /** Rounds the digits of a fraction that has been printed as far as asked, or exactly. */
  method RoundFraction(up: bool, fractionalCount: nat, buffer: array<char>, length: nat, decimalPoint: int,
                       ghost n0: nat, ghost f: nat, ghost p: nat, ghost i: nat, ghost rest: nat)
    returns (newLength: nat, newPoint: int)
    requires 0 < buffer.Length && length <= buffer.Length && AllDigits(buffer[..length])
    requires Fraction(n0, f, p, i, Decimal(buffer[..length]), rest) && i <= fractionalCount
      && (i == fractionalCount || rest == 0)
    requires up <==> i < p && rest >= Pow(2, p - i - 1)
    requires i <= length && decimalPoint == length - i
    modifies buffer
    ensures newLength <= Max(1, length)
    ensures FractionPrinted(n0, f, p, fractionalCount, buffer[..newLength], newPoint)
  {
    hide Pow, Decimal, RoundHalfUp, Fraction;
    FractionEnd(n0, f, p, i, Decimal(buffer[..length]), rest, fractionalCount);
    NextPower(0);
    newLength, newPoint := length, decimalPoint;
    if up {
      newLength, newPoint := RoundUp(buffer, length, decimalPoint);
      NothingPrinted(buffer[..0]);
    }
  }

  lemma NothingPrinted(s: string)
    requires s == []
    ensures Decimal(s) == 0
  {
  }

  /** Fractions of up to 64 bits. */
  method FillFractionals64(f: uint64, exponent: int, fractionalCount: nat, buffer: array<char>, length: nat)
    returns (newLength: nat, newPoint: int)
    requires -64 <= exponent <= 0 && f < Pow(2, -exponent) && f < Pow(2, 56)
    requires length + fractionalCount < buffer.Length && AllDigits(buffer[..length])
    modifies buffer
    ensures newLength <= Max(1, length + fractionalCount)
    ensures FractionPrinted(old(Decimal(buffer[..length])), f, -exponent, fractionalCount, buffer[..newLength],
                            newPoint)
  {
    hide Decimal, RoundHalfUp, Fraction, FractionPrinted;
    ghost var n0, p := Decimal(buffer[..length]), -exponent;
    assert Pow(5, 0) == 1;
    UInt128.SixtyFour();
    hide Pow;
    FractionStart(n0, f, p);
    var fractionals: uint64, point := f, -exponent;
    newLength := length;
    var i := 0;
    while i < fractionalCount
      invariant 0 <= i <= fractionalCount && i <= p && point == p - i && newLength == length + i
      invariant AllDigits(buffer[..newLength]) && Fraction(n0, f, p, i, Decimal(buffer[..newLength]), fractionals)
      invariant fractionals < Pow(2, point) && fractionals < Pow(2, 56) * Pow(5, i)
    {
      if fractionals == 0 {
        break;
      }
      NoOverflow(fractionals, i, p, 64);
      FractionStep(n0, f, p, i, Decimal(buffer[..newLength]), fractionals);
      fractionals := fractionals * 5;
      point := point - 1;
      var digit := fractionals / Pow(2, point);
      Remainder(fractionals, Pow(2, point));
      newLength := AppendDigit(digit, buffer, newLength);
      fractionals := fractionals - digit * Pow(2, point);
      i := i + 1;
    }
    var roundUp := false;
    if point > 0 {
      StepDown(point);
      TopBit(fractionals, Pow(2, point - 1));
      roundUp := (fractionals / Pow(2, point - 1)) % 2 == 1;
    } else {
      NothingBehindPoint(fractionals, point);
      assert fractionals == 0;
    }
    newLength, newPoint := RoundFraction(roundUp, fractionalCount, buffer, newLength, length, n0, f, p, i, fractionals);
  }

  lemma StepDown(point: nat)
    requires point > 0
    ensures Pow(2, point - 1) > 0 && Pow(2, point) == 2 * Pow(2, point - 1)
  {
    PowPositive(2, point - 1);
  }

  /** Where there is no bit to look at, there is nothing left to round. */
  lemma NothingBehindPoint(fractionals: nat, point: nat)
    requires fractionals < Pow(2, point) && point == 0
    ensures fractionals == 0
  {
  }

  lemma Remainder(x: nat, q: nat)
    requires q > 0
    ensures x - (x / q) * q == x % q
  {
  }

  method AppendDigit(digit: nat, buffer: array<char>, length: nat) returns (newLength: nat)
    requires digit <= 9 && length < buffer.Length && AllDigits(buffer[..length])
    modifies buffer
    ensures newLength == length + 1 && buffer[..length] == old(buffer[..length])
    ensures AllDigits(buffer[..newLength])
      && Decimal(buffer[..newLength]) == old(Decimal(buffer[..length])) * 10 + digit
  {
    hide Decimal;
    ghost var s := buffer[..length];
    buffer[length] := DigitChar(digit);
    newLength := length + 1;
    assert buffer[..newLength] == s + [DigitChar(digit)];
    DecimalSnoc(s, DigitChar(digit));
  }

  /** Fractions of 65 to 128 bits, with the binary point moved to bit 128. */
  method FillFractionals128(f: uint64, exponent: int, fractionalCount: nat, buffer: array<char>, length: nat)
    returns (newLength: nat, newPoint: int)
    requires -128 <= exponent < -64 && f < Pow(2, 56) && fractionalCount <= 20
    requires length + fractionalCount < buffer.Length && AllDigits(buffer[..length])
    modifies buffer
    ensures newLength <= Max(1, length + fractionalCount)
    ensures FractionPrinted(old(Decimal(buffer[..length])), f, -exponent, fractionalCount, buffer[..newLength],
                            newPoint)
  {
    hide Decimal, RoundHalfUp, Fraction, FractionPrinted, UInt128.Value;
    ghost var n0, x := Decimal(buffer[..length]), f * Pow(2, 128 + exponent);
    assert Pow(5, 0) == 1;
    hide Pow;
    var fractionals := AlignFraction(f, exponent);
    FractionStart(n0, x, 128);
    var point := 128;
    newLength := length;
    var i := 0;
    while i < fractionalCount
      invariant 0 <= i <= fractionalCount && i <= 128 && point == 128 - i && newLength == length + i
      invariant fresh(fractionals)
      invariant AllDigits(buffer[..newLength])
        && Fraction(n0, x, 128, i, Decimal(buffer[..newLength]), fractionals.Value())
      invariant fractionals.Value() < Pow(2, point) && fractionals.Value() < Pow(2, 120) * Pow(5, i)
    {
      var zero := fractionals.IsZero();
      if zero {
        break;
      }
      point, newLength := FractionalStep128(fractionals, point, buffer, newLength, n0, x, i);
      i := i + 1;
    }
    var roundUp := false;
    if point > 0 {
      StepDown(point);
      TopBit(fractionals.Value(), Pow(2, point - 1));
      var bit := fractionals.BitAt(point - 1);
      roundUp := bit == 1;
    }
    newLength, newPoint := RoundFraction(roundUp, fractionalCount, buffer, newLength, length, n0, x, 128, i,
                                         fractionals.Value());
    PrintedScaled(n0, f, -exponent, fractionalCount, buffer[..newLength], newPoint);
  }

  lemma Next128(n0: nat, x: nat, i: nat, d: nat, rest: nat)
    requires i < 20 && Fraction(n0, x, 128, i, d, rest) && rest > 0
    requires rest < Pow(2, 128 - i) && rest < Pow(2, 120) * Pow(5, i)
    ensures rest * 5 < TWO_64 * TWO_64 && Pow(2, 127 - i) > 0
    ensures var digit, next := (rest * 5) / Pow(2, 127 - i), (rest * 5) % Pow(2, 127 - i);
            && 0 <= digit <= 9 && Fraction(n0, x, 128, i + 1, d * 10 + digit, next)
            && next < Pow(2, 127 - i) && next < Pow(2, 120) * Pow(5, i + 1)
  {
    assert Pow(2, 128) == TWO_64 * TWO_64 by {
      UInt128.SixtyFour();
      PowAdd(2, 64, 64);
    }
    hide Pow, Fraction;
    NoOverflow(rest, i, 128, 128);
    FractionStep(n0, x, 128, i, d, rest);
    AtMost(rest * 5, Pow(2, 127 - i));
  }

  lemma AtMost(x: nat, q: nat)
    requires q > 0
    ensures x % q <= x
  {
  }

  /** Prints the next digit of the fraction. */
  method FractionalStep128(fractionals: UInt128, point: nat, buffer: array<char>, length: nat, ghost n0: nat,
                           ghost x: nat, ghost i: nat)
    returns (newPoint: nat, newLength: nat)
    requires i < 20 && point == 128 - i && length < buffer.Length && AllDigits(buffer[..length])
    requires Fraction(n0, x, 128, i, Decimal(buffer[..length]), fractionals.Value()) && fractionals.Value() > 0
    requires fractionals.Value() < Pow(2, point) && fractionals.Value() < Pow(2, 120) * Pow(5, i)
    modifies fractionals, buffer
    ensures newPoint == point - 1 && newLength == length + 1 && AllDigits(buffer[..newLength])
    ensures Fraction(n0, x, 128, i + 1, Decimal(buffer[..newLength]), fractionals.Value())
    ensures fractionals.Value() < Pow(2, newPoint) && fractionals.Value() < Pow(2, 120) * Pow(5, i + 1)
  {
    hide Pow, Decimal, Fraction, UInt128.Value, AllDigits;
    Next128(n0, x, i, Decimal(buffer[..length]), fractionals.Value());
    fractionals.Multiply(5);
    newPoint := point - 1;
    var digit := fractionals.DivModPowerOf2(newPoint);
    newLength := AppendDigit(digit, buffer, length);
  }

  method AlignFraction(f: uint64, exponent: int) returns (fractionals: UInt128)
    requires -128 <= exponent < -64 && f < Pow(2, 56)
    ensures fresh(fractionals) && fractionals.Value() == f * Pow(2, 128 + exponent) < Pow(2, 120)
    ensures fractionals.Value() < Pow(2, 128)
  {
    UInt128.SixtyFour();
    PowAdd(2, 128 + exponent, -exponent - 64);
    PowPositive(2, -exponent - 64);
    BitsBelow(f, Pow(2, 128 + exponent), 56, 128 + exponent);
    PowMonotone(2, 56 + 128 + exponent, 120);
    PowMonotone(2, 120, 128);
    hide Pow;
    var c := Pow(2, 128 + exponent);
    MulAssoc(f, c, Pow(2, -exponent - 64));
    DivUnique(f * TWO_64, Pow(2, -exponent - 64), f * c, 0);
    fractionals := new UInt128(f, 0);
    fractionals.Shift(-exponent - 64);
  }

  /** Moving the binary point does not change what is printed. */
  lemma PrintedScaled(n0: nat, f: nat, p: nat, fc: nat, s: string, point: int)
    requires p <= 128 && FractionPrinted(n0, f * Pow(2, 128 - p), 128, fc, s, point)
    ensures FractionPrinted(n0, f, p, fc, s, point)
  {
    PowAdd(2, p, 128 - p);
    PowPositive(2, p);
    PowPositive(2, 128 - p);
    var c, d, t := Pow(2, 128 - p), Pow(2, p), Pow(10, fc);
    hide Pow, Decimal, RoundHalfUp;
    ScaleNumber(n0, f, d, c, t);
    RoundScaled((n0 * d + f) * t, d, c);
  }

  lemma ScaleNumber(n0: nat, f: nat, d: nat, c: nat, t: nat)
    ensures (n0 * d + f) * t >= 0
    ensures (n0 * (d * c) + f * c) * t == ((n0 * d + f) * t) * c
  {
    MulMonotone(0, n0, d);
    MulMonotone(0, n0 * d + f, t);
    MulAssoc(n0, d, c);
    assert n0 * (d * c) + f * c == (n0 * d + f) * c;
    MulAssoc(n0 * d + f, c, t);
    MulAssoc(n0 * d + f, t, c);
    assert c * t == t * c;
  }

  lemma RoundScaled(x: nat, d: nat, c: nat)
    requires d > 0 && c > 0
    ensures d * c > 0 && x * c >= 0 && RoundHalfUp(x * c, d * c) == RoundHalfUp(x, d)
  {
    MulPositive(d, c);
    MulMonotone(0, x, c);
    MulAssoc(2, x, c);
    MulAssoc(2, d, c);
    assert (2 * x + d) * c == 2 * (x * c) + d * c;
    DivCancel(2 * x + d, 2 * d, c);
  }

  /** Prints the fraction f * 2^exponent behind the digits of the integral part. */
  method FillFractionals(f: uint64, exponent: int, fractionalCount: nat, buffer: array<char>, length: nat)
    returns (newLength: nat, newPoint: int)
    requires -128 <= exponent <= 0 && f < Pow(2, -exponent) && f < Pow(2, 56) && fractionalCount <= 20
    requires length + fractionalCount < buffer.Length && AllDigits(buffer[..length])
    modifies buffer
    ensures newLength <= Max(1, length + fractionalCount)
    ensures FractionPrinted(old(Decimal(buffer[..length])), f, -exponent, fractionalCount, buffer[..newLength],
                            newPoint)
  {
    if -exponent <= 64 {
      newLength, newPoint := FillFractionals64(f, exponent, fractionalCount, buffer, length);
    } else {
      newLength, newPoint := FillFractionals128(f, exponent, fractionalCount, buffer, length);
    }
  }

  // ---- The driver ----

  const SIGNIFICAND_SIZE: int := 53
  const FIVE_17: nat := 0xB1_A2BC_2EC5

  lemma FiveSeventeen()
    ensures Pow(5, 17) == FIVE_17 && FIVE_17 * Pow(2, 17) == Pow(10, 17) && Pow(10, 5) == 100000 && Pow(2, 17) == 131072
    ensures Pow(2, 53) == 9007199254740992
  {
    assert Pow(5, 4) == 625 && Pow(2, 9) == 512 && Pow(2, 8) == 256;
    PowAdd(5, 4, 4);
    PowAdd(5, 8, 8);
    PowAdd(5, 1, 16);
    PowAdd(2, 8, 9);
    PowAdd(2, 17, 17);
    PowAdd(2, 34, 17);
    PowAdd(2, 51, 2);
    PowProduct(2, 5, 17);
  }

  /** Prints f * 2^e with the help of a division by 10^17. */
  method FillLarge(significand: uint64, exponent: int, buffer: array<char>) returns (length: nat)
    requires significand < Pow(2, 53) && 12 <= exponent <= 20 && 22 <= buffer.Length
    modifies buffer
    ensures length <= 22 && AllDigits(buffer[..length])
    ensures Decimal(buffer[..length]) == significand * Pow(2, exponent)
  {
    FiveSeventeen();
    hide Decimal;
    var dividend: uint64 := significand;
    var divisor: uint64 := FIVE_17;
    var quotient: uint32;
    var remainder: uint64;
    if exponent > 17 {
      SmallShift(exponent - 17);
      PowAdd(2, exponent - 17, 17);
      hide Pow;
      SplitHigh(significand, Pow(2, exponent - 17), Pow(2, exponent));
      dividend := dividend * Pow(2, exponent - 17);
      quotient := dividend / divisor;
      remainder := (dividend % divisor) * Pow(2, 17);
    } else {
      SmallShift(17 - exponent);
      PowAdd(2, 17 - exponent, exponent);
      PowPositive(2, exponent);
      hide Pow;
      SplitLow(significand, Pow(2, 17 - exponent), Pow(2, exponent));
      divisor := divisor * Pow(2, 17 - exponent);
      quotient := dividend / divisor;
      remainder := (dividend % divisor) * Pow(2, exponent);
    }
    length := FillDigits32(quotient, 5, buffer, 0);
    ghost var before := buffer[..];
    var end := FillDigits64FixedLength(remainder, buffer, length);
    KeptDigits(before, buffer[..], 0, length);
    JoinDigits(buffer, 0, length, end);
    assert buffer[0..end] == buffer[..end] && buffer[0..length] == before[0..length];
    length := end;
  }

  lemma SmallShift(k: nat)
    requires k <= 5
    ensures 1 <= Pow(2, k) <= 32 && (k <= 3 ==> Pow(2, k) <= 8)
  {
    assert Pow(2, 5) == 32 && Pow(2, 3) == 8 && Pow(2, 0) == 1;
    PowMonotone(2, 0, k);
    PowMonotone(2, k, 5);
    if k <= 3 {
      PowMonotone(2, k, 3);
    }
  }

  lemma SplitHigh(f: nat, a: nat, b: nat)
    requires f < 9007199254740992 && 1 <= a <= 8
    requires b == a * 131072
    ensures 0 <= f * a < TWO_64
    ensures var q, r := (f * a) / FIVE_17, ((f * a) % FIVE_17) * 131072;
            0 <= q < 100000 && 0 <= r < FIVE_17 * 131072 && f * b == q * (FIVE_17 * 131072) + r
  {
    MulMonotone(a, 8, f);
    MulMonotone(0, a, f);
    var x := f * a;
    assert f * b == x * 131072 by {
      MulAssoc(f, a, 131072);
    }
  }

  lemma SplitLow(f: nat, a: nat, b: nat)
    requires f < 9007199254740992 && 1 <= a <= 32 && b > 0
    requires a * b == 131072
    ensures 0 < FIVE_17 * a < TWO_64
    ensures var d := FIVE_17 * a; var q, r := f / d, (f % d) * b;
            0 <= q < 100000 && 0 <= r < FIVE_17 * 131072 && f * b == q * (FIVE_17 * 131072) + r
  {
    MulMonotone(1, a, FIVE_17);
    MulMonotone(a, 32, FIVE_17);
    var d := FIVE_17 * a;
    assert d * b == FIVE_17 * 131072 by {
      MulAssoc(FIVE_17, a, b);
    }
    var q, m := f / d, f % d;
    DivBelow(f, 100000, d);
    MulStrict(m, d, b);
    MulMonotone(0, m, b);
    assert f * b == q * (d * b) + m * b by {
      assert f == q * d + m;
      MulAssoc(q, d, b);
    }
  }

  /** An integer is its own rounding. */
  lemma IntegerPrinted(f: nat, e: nat, fc: nat, s: string)
    requires AllDigits(s) && Decimal(s) == f * Pow(2, e)
    ensures Printed(f, e, false, FixedMode, fc, s, |s|)
  {
    var n := f * Pow(2, e);
    assert Pow(2, 0) == 1 && Pow(10, 0) == 1;
    RatioPositive(f, e, 0, 0);
    MulMonotone(0, n, Pow(10, fc));
    hide Ratio, RoundedHalfUp, Scaled2;
    RoundingTransfers(n, 1, n * Pow(10, fc), fc, Scaled2(f, e), 0);
  }

  lemma FractionIsPrinted(f: nat, e: int, n0: nat, rest: nat, fc: nat, s: string, point: int)
    requires -1074 <= e < 0 && FractionPrinted(n0, rest, -e, fc, s, point) && f == n0 * Pow(2, -e) + rest
    ensures Printed(f, e, false, FixedMode, fc, s, point)
  {
    var d := Pow(2, -e);
    assert Pow(2, 0) == 1 && Pow(10, 0) == 1;
    RatioNegativePositive(f, e, 0, 0);
    MulMonotone(0, f, Pow(10, fc));
    RoundHalfUpBounds(f * Pow(10, fc), d);
    hide Ratio, RoundedHalfUp, Scaled2, Pow, RoundHalfUp, Decimal;
    RoundingTransfers(f, d, RoundHalfUp(f * Pow(10, fc), d), fc, Scaled2(f, e), 0);
  }

  lemma TinyPrinted(f: nat, e: int, fc: nat)
    requires f < Pow(2, 53) && -1074 <= e < -128 && fc <= 20
    ensures Printed(f, e, false, FixedMode, fc, [], 0 - fc)
  {
    TinyGap(f, e);
    RoundsToZero(Scaled2(f, e), -21, 0 - fc);
    NextPower(0);
  }

  lemma TenToTwentyOne()
    ensures Pow(10, 21) <= Pow(2, 70)
  {
    assert Pow(10, 3) == 1000 && Pow(2, 10) == 1024;
    PowTimes(10, 3, 7);
    PowTimes(2, 10, 7);
    PowBaseMonotone(1000, 1024, 7);
  }

  lemma TinyGap(f: nat, e: int)
    requires f < Pow(2, 53) && -1074 <= e < -128
    ensures Gap(1, -21, Scaled2(f, e)) > 0
  {
    assert TenUp(-21) == 1 && TenDown(-21) == Pow(10, 21);
    hide Pow;
    TenToTwentyOne();
    BitsBelow(f, Pow(2, e + SCALE), 53, e + SCALE);
    BitsBelow(Scaled2(f, e), Pow(10, 21), 53 + e + SCALE, 70);
    PowMonotone(2, 53 + e + SCALE + 70, SCALE);
  }

  lemma TrimmedPrinted(f: nat, e: int, fc: nat, s: string, point: int, t: string, newPoint: int)
    requires -1074 <= e && Printed(f, e, false, FixedMode, fc, s, point)
    requires AllDigits(t) && (newPoint - |t|) - (point - |s|) >= 0
    requires Decimal(t) * Pow(10, (newPoint - |t|) - (point - |s|)) == Decimal(s)
    ensures Printed(f, e, false, FixedMode, fc, t, newPoint)
    ensures t == [] ==> Printed(f, e, false, FixedMode, fc, t, 0 - fc)
  {
    var a, b := (newPoint - |t|) - (point - |s|), point - |s| + fc;
    PowAdd(10, a, b);
    MulAssoc(Decimal(t), Pow(10, a), Pow(10, b));
  }

  predicate Trimmed(s: string)
  {
    s != [] ==> s[0] != '0' && s[|s| - 1] != '0'
  }

  /** Prints significand * 2^exponent with at most fractionalCount digits after the decimal point, or gives up. */
  method FastFixedDtoa(significand: uint64, exponent: int, fractionalCount: nat, buffer: array<char>)
    returns (ok: bool, length: nat, decimalPoint: int)
    requires significand < Pow(2, 53) && -1074 <= exponent <= 971
    requires 22 + fractionalCount < buffer.Length
    modifies buffer
    ensures ok <==> exponent <= 20 && fractionalCount <= 20
    ensures ok ==> length < buffer.Length && buffer[length] == '\0' && Trimmed(buffer[..length])
    ensures ok ==> Printed(significand, exponent, false, FixedMode, fractionalCount, buffer[..length], decimalPoint)
    ensures ok && length == 0 ==> decimalPoint == 0 - fractionalCount
  {
    hide Pow, Decimal, Printed;
    if exponent > 20 {
      return false, 0, 0;
    }
    if fractionalCount > 20 {
      return false, 0, 0;
    }
    length, decimalPoint := FillAll(significand, exponent, fractionalCount, buffer);
    ghost var s, point := buffer[..length], decimalPoint;
    length, decimalPoint := TrimZeros(buffer, length, decimalPoint);
    ghost var t := buffer[..length];
    TrimmedPrinted(significand, exponent, fractionalCount, s, point, t, decimalPoint);
    buffer[length] := '\0';
    if length == 0 {
      decimalPoint := 0 - fractionalCount;
    }
    assert buffer[..length] == t;
    ok := true;
  }

  /** All digits, before leading and trailing zeros are removed. */
  method FillAll(significand: uint64, exponent: int, fractionalCount: nat, buffer: array<char>)
    returns (length: nat, decimalPoint: int)
    requires significand < Pow(2, 53) && -1074 <= exponent <= 20 && fractionalCount <= 20
    requires 22 + fractionalCount < buffer.Length
    modifies buffer
    ensures length < buffer.Length && AllDigits(buffer[..length])
    ensures Printed(significand, exponent, false, FixedMode, fractionalCount, buffer[..length], decimalPoint)
  {
    hide Pow, Decimal, Printed, FractionPrinted;
    if exponent + SIGNIFICAND_SIZE > 64 {
      length := FillLarge(significand, exponent, buffer);
      decimalPoint := length;
      IntegerPrinted(significand, exponent, fractionalCount, buffer[..length]);
    } else if exponent >= 0 {
      FitsSixtyFour(significand, exponent);
      length := FillDigits64(significand * Pow(2, exponent), buffer, 0);
      decimalPoint := length;
      assert buffer[0..length] == buffer[..length];
      IntegerPrinted(significand, exponent, fractionalCount, buffer[..length]);
    } else if exponent > -SIGNIFICAND_SIZE {
      length, decimalPoint := FillMixed(significand, exponent, fractionalCount, buffer);
    } else if exponent < -128 {
      buffer[0] := '\0';
      length := 0;
      decimalPoint := 0 - fractionalCount;
      TinyPrinted(significand, exponent, fractionalCount);
      assert buffer[..0] == [];
    } else {
      PowMonotone(2, 53, -exponent);
      PowMonotone(2, 53, 56);
      NothingPrinted(buffer[..0]);
      length, decimalPoint := FillFractionals(significand, exponent, fractionalCount, buffer, 0);
      FractionIsPrinted(significand, exponent, 0, significand, fractionalCount, buffer[..length], decimalPoint);
      OnlyDigits(significand, exponent, fractionalCount, buffer[..length], decimalPoint);
    }
  }

  lemma OnlyDigits(f: nat, e: int, fc: nat, s: string, point: int)
    requires -1074 <= e && Printed(f, e, false, FixedMode, fc, s, point)
    ensures AllDigits(s)
  {
  }

  lemma FitsSixtyFour(f: nat, e: nat)
    requires f < Pow(2, 53) && e <= 11
    ensures 0 <= f * Pow(2, e) < TWO_64
  {
    UInt128.SixtyFour();
    PowPositive(2, e);
    BitsBelow(f, Pow(2, e), 53, e);
    PowMonotone(2, 53 + e, 64);
    MulMonotone(0, f, Pow(2, e));
  }

  /** A number with both an integral and a fractional part. */
  method FillMixed(significand: uint64, exponent: int, fractionalCount: nat, buffer: array<char>)
    returns (length: nat, decimalPoint: int)
    requires significand < Pow(2, 53) && -53 < exponent < 0 && fractionalCount <= 20
    requires 22 + fractionalCount < buffer.Length
    modifies buffer
    ensures length < buffer.Length && AllDigits(buffer[..length])
    ensures Printed(significand, exponent, false, FixedMode, fractionalCount, buffer[..length], decimalPoint)
  {
    hide Pow, Decimal, Printed, FractionPrinted;
    var one := Pow(2, -exponent);
    SplitSignificand(significand, -exponent);
    var integrals := significand / one;
    var fractionals := significand - integrals * one;
    if integrals > TWO_32 - 1 {
      length := FillDigits64(integrals, buffer, 0);
    } else {
      TenDigits();
      length := FillDigits32(integrals, 10, buffer, 0);
    }
    assert buffer[0..length] == buffer[..length];
    length, decimalPoint := FillFractionals(fractionals, exponent, fractionalCount, buffer, length);
    FractionIsPrinted(significand, exponent, integrals, fractionals, fractionalCount, buffer[..length], decimalPoint);
    OnlyDigits(significand, exponent, fractionalCount, buffer[..length], decimalPoint);
  }

  lemma TenDigits()
    ensures TWO_32 <= Pow(10, 10)
  {
    TenPowers();
  }

  lemma SplitSignificand(f: nat, k: nat)
    requires f < Pow(2, 53)  && k < 53
    ensures Pow(2, k) > 0 && 0 <= f - (f / Pow(2, k)) * Pow(2, k) < Pow(2, k)
    ensures f - (f / Pow(2, k)) * Pow(2, k) < Pow(2, 56) && 0 <= f / Pow(2, k) < TWO_64
  {
    UInt128.SixtyFour();
    PowPositive(2, k);
    PowMonotone(2, 53, 56);
    PowMonotone(2, 53, 64);
    PowMonotone(2, k, 56);
    hide Pow;
    Quotient(f, Pow(2, k));
  }

  lemma Quotient(f: nat, q: nat)
    requires q > 0
    ensures 0 <= f - (f / q) * q < q && 0 <= f / q <= f
  {
    Remainder(f, q);
    MulMonotone(1, q, f / q);
  }

  // ---- The fast form and the slow form agree ----

  /** Without leading zeros the number determines the length, and without trailing ones the last digit shows. */
  lemma TrimmedNumber(s: string)
    requires AllDigits(s) && Trimmed(s)
    ensures s == [] <==> Decimal(s) == 0
    ensures s != [] ==> Pow(10, |s| - 1) <= Decimal(s) < Pow(10, |s|) && Decimal(s) % 10 != 0
  {
    if s != [] {
      assert Decimal(s) % 10 == DigitOf(s[|s| - 1]);
      hide Decimal, Wide, Pow;
      WideIsDecimal(s);
      WideLead(s);
      DecimalBound(s);
      PowPositive(10, |s| - 1);
      MulMonotone(1, DigitOf(s[0]), Pow(10, |s| - 1));
    }
  }

  lemma SameNumber(s: string, t: string)
    requires AllDigits(s) && AllDigits(t) && Trimmed(s) && Trimmed(t) && s != []
    requires Decimal(s) == Decimal(t)
    ensures s == t
  {
    hide Decimal, Pow;
    TrimmedNumber(s);
    TrimmedNumber(t);
    PowPositive(10, |s| - 1);
    PowOrder(10, |s| - 1, |t|);
    PowOrder(10, |t| - 1, |s|);
    DecimalInjective(s, t);
  }

  lemma SamePower(x: nat, y: nat, a: nat, b: nat)
    requires a <= b && x * Pow(10, a) == y * Pow(10, b) && x % 10 != 0
    ensures a == b && x == y
  {
    PowAdd(10, a, b - a);
    PowPositive(10, a);
    NextPower(0);
    var ten := Pow(10, b - a);
    assert b > a ==> ten == 10 * Pow(10, b - a - 1);
    hide Pow;
    assert x * Pow(10, a) == (y * ten) * Pow(10, a) by {
      MulAssoc(y, ten, Pow(10, a));
      assert Pow(10, a) * ten == ten * Pow(10, a);
    }
    CancelFactor(x, y * ten, Pow(10, a));
    if a < b {
      TenDivides(y, Pow(10, b - a - 1));
    }
  }

  lemma TrimmedShift(s: string, t: string, a: nat, b: nat)
    requires AllDigits(s) && AllDigits(t) && Trimmed(s) && Trimmed(t) && s != [] && a <= b
    requires Decimal(s) * Pow(10, a) == Decimal(t) * Pow(10, b)
    ensures a == b && s == t
  {
    hide Decimal, Pow;
    TrimmedNumber(s);
    SamePower(Decimal(s), Decimal(t), a, b);
    SameNumber(s, t);
  }

  lemma TenDivides(x: nat, y: nat)
    ensures (x * (10 * y)) % 10 == 0
  {
    assert x * (10 * y) == 10 * (x * y) by {
      MulAssoc(x, 10, y);
      MulAssoc(10, x, y);
    }
    DivUnique(x * (10 * y), 10, x * y, 0);
  }

  /** Whatever the slow printer prints for the same number denotes the same decimal number as the fast
      form's digits; after trimming it is the same string with the same decimal point. */
  lemma FastRefinesSlow(f: nat, e: int, closer: bool, closer': bool, fc: nat, s: string, point: int, t: string,
                        point': int)
    requires -1074 <= e && Printed(f, e, closer, FixedMode, fc, s, point)
      && Printed(f, e, closer', FixedMode, fc, t, point')
    ensures Decimal(s) * Pow(10, point - |s| + fc) == Decimal(t) * Pow(10, point' - |t| + fc)
    ensures Trimmed(s) && Trimmed(t) ==> s == t && (s != [] ==> point == point')
  {
    var a, b := point - |s| + fc, point' - |t| + fc;
    RoundedUnique(Scaled2(f, e), Decimal(s) * Pow(10, a), Decimal(t) * Pow(10, b), 0 - fc);
    if Trimmed(s) && Trimmed(t) {
      if s == [] || t == [] {
        TrimmedNumber(s);
        TrimmedNumber(t);
        PowPositive(10, a);
        PowPositive(10, b);
        NoZeroProduct(Decimal(s), Pow(10, a));
        NoZeroProduct(Decimal(t), Pow(10, b));
      } else if a <= b {
        TrimmedShift(s, t, a, b);
      } else {
        TrimmedShift(t, s, b, a);
      }
    }
  }

  lemma NoZeroProduct(x: nat, y: nat)
    requires y > 0
    ensures x * y == 0 <==> x == 0
  {
    if x > 0 {
      MulPositive(x, y);
    }
  }
}
