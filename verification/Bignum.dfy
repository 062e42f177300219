/**
 The fixed-capacity big integer: 28-bit bigits in an array that is never reallocated, a hidden
 exponent counting zero bigits below them, and the operations that work on the array in place.
*/
module Bignums {
  import opened Arith
  import opened Machine
  import opened Bigits
  import opened Digits

  const CAPACITY: nat := 128

  const FIVE_13: uint32 := 1220703125
  const FIVE_27: uint64 := 0x6765c793_fa10079d
  const FIVE_1_TO_12: seq<uint32> :=
    [5, 25, 125, 625, 3125, 15625, 78125, 390625, 1953125, 9765625, 48828125, 244140625]

  /** What is left of a number when all factors of two are divided out. */
  function OddPart(n: nat): nat
    requires n > 0
  {
    if n % 2 == 0 then OddPart(n / 2) else n
  }

  /** The number of binary digits of a number. */
  function BitSize(n: nat): nat
  {
    if n == 0 then 0 else 1 + BitSize(n / 2)
  }

  function Sign(x: int): int
  {
    if x < 0 then -1 else if x == 0 then 0 else 1
  }

  class Bignum {
    const bigits: array<uint32>
    var usedDigits: nat
    var exponent: nat

    /** Every used cell holds a bigit, every other cell holds zero. */
    ghost predicate Clean()
      reads this, bigits
    {
      && bigits.Length == CAPACITY
      && usedDigits <= CAPACITY
      && AllBigits(bigits[..], usedDigits)
      && forall i :: usedDigits <= i < CAPACITY ==> bigits[i] == 0
    }

    ghost predicate IsClamped()
      requires Clean()
      reads this, bigits
    {
      && (usedDigits > 0 ==> bigits[usedDigits - 1] != 0)
      && (usedDigits == 0 ==> exponent == 0)
    }

    ghost predicate Valid()
      reads this, bigits
    {
      Clean() && IsClamped()
    }

    ghost function Mantissa(): nat
      requires usedDigits <= bigits.Length
      reads this, bigits
    {
      Val(bigits[..], usedDigits)
    }

    ghost function Value(): nat
      requires usedDigits <= bigits.Length
      reads this, bigits
    {
      Scaled(Mantissa(), exponent)
    }

    /** The two numbers live in different storage. */
    ghost predicate Apart(other: Bignum)
    {
      other != this && other.bigits != bigits
    }

    function BigitLength(): nat
      reads this
    {
      usedDigits + exponent
    }

    // ---- Facts about the representation ----

    lemma LengthBounds()
      requires Valid() && usedDigits > 0
      ensures Pow(BASE, BigitLength() - 1) <= Value() < Pow(BASE, BigitLength())
      ensures Pow(BASE, usedDigits - 1) <= Mantissa() < Pow(BASE, usedDigits)
    {
      var s := bigits[..];
      ValTop(s, usedDigits);
      ValBound(s, usedDigits);
      var p, e := Pow(BASE, usedDigits - 1), Pow(BASE, exponent);
      assert p <= Mantissa() by {
        MulMonotone(1, s[usedDigits - 1], p);
      }
      PowPositive(BASE, exponent);
      PowAdd(BASE, usedDigits - 1, exponent);
      PowAdd(BASE, usedDigits, exponent);
      MulMonotone(p, Mantissa(), e);
      MulStrict(Mantissa(), Pow(BASE, usedDigits), e);
    }

    /** A small value needs few bigits, whatever its exponent. */
    lemma LengthFromValue(k: nat)
      requires Valid() && Value() < Pow(BASE, k)
      ensures BigitLength() <= k
    {
      if usedDigits > 0 {
        LengthBounds();
        PowOrder(BASE, BigitLength() - 1, k);
      }
    }

    lemma ZeroIff()
      requires Valid()
      ensures Value() == 0 <==> usedDigits == 0
    {
      if usedDigits > 0 {
        LengthBounds();
        PowPositive(BASE, BigitLength() - 1);
      }
    }

    lemma MantissaBelowValue()
      requires Valid()
      ensures Mantissa() <= Value()
    {
      PowPositive(BASE, exponent);
      MulMonotone(1, Pow(BASE, exponent), Mantissa());
    }

    // ---- Assignment ----

    constructor ()
      ensures Valid() && Value() == 0
      ensures fresh(bigits)
    {
      bigits := new uint32[CAPACITY];
      usedDigits, exponent := 0, 0;
      new;
      for i := 0 to CAPACITY
        invariant usedDigits == 0 && exponent == 0
        invariant forall j :: 0 <= j < i ==> bigits[j] == 0
        invariant fresh(bigits)
      {
        bigits[i] := 0;
      }
    }

    method Zero()
      requires Clean()
      modifies this, bigits
      ensures Valid() && Value() == 0 && usedDigits == 0
    {
      for i := 0 to usedDigits
        invariant bigits.Length == CAPACITY && usedDigits == old(usedDigits)
        invariant forall j :: 0 <= j < i ==> bigits[j] == 0
        invariant forall j :: usedDigits <= j < CAPACITY ==> bigits[j] == 0
      {
        bigits[i] := 0;
      }
      usedDigits, exponent := 0, 0;
    }

    /** Drops leading zero bigits; the number stays the same. */
    method Clamp()
      requires Clean()
      modifies this
      ensures Valid() && Value() == old(Value())
      ensures usedDigits <= old(usedDigits) && exponent <= old(exponent)
    {
      while usedDigits > 0 && bigits[usedDigits - 1] == 0
        invariant Clean()
        invariant exponent == old(exponent)
        invariant usedDigits <= old(usedDigits)
        invariant Mantissa() == old(Mantissa())
      {
        usedDigits := usedDigits - 1;
      }
      if usedDigits == 0 {
        exponent := 0;
      }
    }

    method AssignUInt16(value: uint16)
      requires Clean()
      modifies this, bigits
      ensures Valid() && Value() == value && exponent == 0
    {
      Zero();
      if value == 0 {
        return;
      }
      bigits[0] := value;
      usedDigits := 1;
      assert Val(bigits[..], 1) == Val(bigits[..], 0) + bigits[0] * Pow(BASE, 0);
    }

    method AssignUInt64(value: uint64)
      requires Clean()
      modifies this, bigits
      ensures Valid() && Value() == value && exponent == 0
    {
      hide CarryDenotes;
      Zero();
      if value == 0 {
        return;
      }
      var needed := 64 / BIGIT_SIZE + 1;
      var rest: uint64 := value;
      assert CarryDenotes(bigits[..], 0, value, value) by {
        CarryStart(bigits[..], value);
      }
      for i := 0 to needed
        invariant bigits.Length == CAPACITY && usedDigits == 0 && exponent == 0
        invariant AllBigits(bigits[..], i)
        invariant forall j :: i <= j < CAPACITY ==> bigits[j] == 0
        invariant CarryDenotes(bigits[..], i, rest, value)
      {
        ghost var s := bigits[..];
        bigits[i] := rest % BASE;
        assert bigits[..] == s[i := bigits[i]];
        CarrySplit(s, i, rest, value, bigits[i]);
        rest := rest / BASE;
      }
      usedDigits := needed;
      CarryVanishes(bigits[..], rest, value);
      Clamp();
    }

    method AssignBignum(other: Bignum)
      requires Clean() && other.Valid() && Apart(other)
      modifies this, bigits
      ensures Valid() && Value() == other.Value()
      ensures usedDigits == other.usedDigits && exponent == other.exponent
    {
      exponent := other.exponent;
      for i := 0 to other.usedDigits
        invariant bigits.Length == CAPACITY && usedDigits == old(usedDigits) && exponent == other.exponent
        invariant other.Valid()
        invariant forall j :: 0 <= j < i ==> bigits[j] == other.bigits[j]
        invariant forall j :: i <= j < CAPACITY ==> bigits[j] == old(bigits[j])
      {
        bigits[i] := other.bigits[i];
      }
      // Clear the excess bigits, if there were any.
      var i := other.usedDigits;
      while i < usedDigits
        invariant other.usedDigits <= i
        invariant bigits.Length == CAPACITY && usedDigits == old(usedDigits) && exponent == other.exponent
        invariant forall j :: 0 <= j < other.usedDigits ==> bigits[j] == other.bigits[j]
        invariant forall j :: other.usedDigits <= j < i && j < CAPACITY ==> bigits[j] == 0
        invariant forall j :: i <= j < CAPACITY ==> bigits[j] == old(bigits[j])
      {
        bigits[i] := 0;
        i := i + 1;
      }
      usedDigits := other.usedDigits;
      ValFrame(bigits[..], other.bigits[..], usedDigits);
    }

    // ---- Multiplication by machine integers and shifts ----

    /** The loop that closes both multiplications: appends what is left of the carry. */
    method AppendCarry(c: uint64, ghost total: int)
      requires Clean()
      requires c == 0 ==> IsClamped()
      requires CarryDenotes(bigits[..], usedDigits, c, total) && total < Pow(BASE, CAPACITY)
      modifies this, bigits
      ensures Valid() && Mantissa() == total
      ensures exponent == old(exponent)
    {
      hide CarryDenotes, CarryProduct, Pow;
      var carry: uint64 := c;
      while carry != 0
        invariant Clean()
        invariant carry == 0 ==> IsClamped()
        invariant exponent == old(exponent)
        invariant CarryDenotes(bigits[..], usedDigits, carry, total)
        decreases carry
      {
        CarryFits(bigits[..], usedDigits, carry, total, CAPACITY);
        ghost var s := bigits[..];
        bigits[usedDigits] := carry % BASE;
        assert bigits[..] == s[usedDigits := bigits[usedDigits]];
        CarrySplit(s, usedDigits, carry, total, bigits[usedDigits]);
        usedDigits := usedDigits + 1;
        carry := carry / BASE;
      }
      CarryNone(bigits[..], usedDigits, total);
    }

    method MultiplyByUInt32(factor: uint32)
      requires Valid()
      requires Mantissa() * factor < Pow(BASE, CAPACITY)
      modifies this, bigits
      ensures Valid() && Value() == old(Value()) * factor
      ensures factor != 0 ==> exponent == old(exponent) && Mantissa() == old(Mantissa()) * factor
    {
      hide CarryDenotes, CarryProduct, Pow;
      if factor == 1 {
        return;
      }
      if factor == 0 {
        Zero();
        return;
      }
      if usedDigits == 0 {
        return;
      }
      ghost var s := bigits[..];
      var carry: uint64 := 0;
      CarryStartProduct(s, factor);
      for i := 0 to usedDigits
        invariant bigits.Length == CAPACITY && usedDigits == old(usedDigits) && exponent == old(exponent)
        invariant carry < factor
        invariant AllBigits(bigits[..], i)
        invariant forall j :: i <= j < CAPACITY ==> bigits[j] == s[j]
        invariant CarryProduct(bigits[..], s, i, factor, carry)
      {
        ProductBound(factor, bigits[i], carry);
        var product: uint64 := factor * bigits[i] + carry;
        ghost var t := bigits[..];
        bigits[i] := product % BASE;
        assert bigits[..] == t[i := bigits[i]];
        MultiplyStep(t, s, i, factor, carry, bigits[i], product / BASE);
        carry := product / BASE;
      }
      FinishMultiply(s, carry, factor);
    }

    /** Common end of the two multiplications. */
    method FinishMultiply(ghost s: seq<uint32>, carry: uint64, ghost factor: nat)
      requires Clean() && |s| == CAPACITY && factor > 0
      requires usedDigits > 0 ==> s[usedDigits - 1] > 0
      requires usedDigits == 0 ==> exponent == 0 && carry == 0
      requires CarryProduct(bigits[..], s, usedDigits, factor, carry)
      requires factor * Val(s, usedDigits) < Pow(BASE, CAPACITY)
      modifies this, bigits
      ensures Valid()
      ensures exponent == old(exponent)
      ensures Mantissa() == old(Val(s, usedDigits)) * factor
      ensures Value() == old(Scaled(Val(s, usedDigits), exponent)) * factor
    {
      hide CarryDenotes, CarryProduct, Pow, Scaled;
      ghost var n := usedDigits;
      if carry == 0 && usedDigits > 0 {
        ProductTop(bigits[..], s, usedDigits, factor);
      }
      ProductTotal(bigits[..], s, n, factor, carry, exponent);
      AppendCarry(carry, factor * Val(s, n));
    }

    static lemma ProductTotal(t: seq<uint32>, s: seq<uint32>, n: nat, f: nat, carry: nat, e: nat)
      requires n <= |t| && n <= |s| && CarryProduct(t, s, n, f, carry)
      ensures CarryDenotes(t, n, carry, f * Val(s, n)) && f * Val(s, n) >= 0
      ensures f * Val(s, n) == Val(s, n) * f
      ensures Scaled(f * Val(s, n), e) == Scaled(Val(s, n), e) * f
    {
      hide Pow, Val, CarryDenotes;
      MulMonotone(0, f, Val(s, n));
      MulAssoc(f, Val(s, n), Pow(BASE, e));
      hide Pow, Val, CarryProduct, CarryDenotes;
    }

    method MultiplyByUInt64(factor: uint64)
      requires Valid()
      requires Mantissa() * factor < Pow(BASE, CAPACITY)
      modifies this, bigits
      ensures Valid() && Value() == old(Value()) * factor
      ensures factor != 0 ==> exponent == old(exponent) && Mantissa() == old(Mantissa()) * factor
    {
      hide CarryDenotes, CarryProduct, Pow;
      if factor == 1 {
        return;
      }
      if factor == 0 {
        Zero();
        return;
      }
      ghost var s := bigits[..];
      var carry: uint64 := 0;
      var low: uint64 := factor % TWO_32;
      var high: uint64 := factor / TWO_32;
      CarryStartProduct(s, factor);
      for i := 0 to usedDigits
        invariant bigits.Length == CAPACITY && usedDigits == old(usedDigits) && exponent == old(exponent)
        invariant carry < factor && (i == 0 ==> carry == 0)
        invariant AllBigits(bigits[..], i)
        invariant forall j :: i <= j < CAPACITY ==> bigits[j] == s[j]
        invariant CarryProduct(bigits[..], s, i, factor, carry)
      {
        ghost var t := bigits[..];
        var out: uint32, next: uint64 := MultiplyBigit(factor, low, high, bigits[i], carry);
        bigits[i] := out;
        assert bigits[..] == t[i := bigits[i]];
        MultiplyStep(t, s, i, factor, carry, out, next);
        carry := next;
      }
      FinishMultiply(s, carry, factor);
    }

    /** The body of the loop above: the split 64-bit product yields the bigit and the carry of the
        full product, so the new carry stays below the factor and its 64-bit sum does not wrap. */
    static method MultiplyBigit(factor: uint64, low: uint64, high: uint64, bigit: uint32, carry: uint64)
      returns (out: uint32, next: uint64)
      requires low == factor % TWO_32 && high == factor / TWO_32
      requires bigit < BASE && carry < factor
      ensures out < BASE && next < factor
      ensures factor * bigit + carry == out + next * BASE
    {
      SplitProduct(factor, bigit, carry);
      var productLow: uint64 := low * bigit;
      var productHigh: uint64 := high * bigit;
      var tmp: uint64 := carry % BASE + productLow;
      out := tmp % BASE;
      next := carry / BASE + tmp / BASE + productHigh * 16;
    }

    static lemma SplitProduct(factor: uint64, bigit: uint32, carry: uint64)
      requires carry < factor && bigit < BASE
      ensures var low := factor % TWO_32; var high := factor / TWO_32;
              var tmp := carry % BASE + low * bigit;
              var next := carry / BASE + tmp / BASE + (high * bigit) * 16;
              && 0 <= low * bigit < TWO_64 && 0 <= high * bigit && (high * bigit) * 16 < TWO_64 && tmp < TWO_64
              && factor * bigit + carry == tmp % BASE + next * BASE
              && next < factor
    {
      var low, high := factor % TWO_32, factor / TWO_32;
      MulMonotone(low, TWO_32 - 1, bigit);
      MulMonotone(high, TWO_32 - 1, bigit);
      MulMonotone(0, low, bigit);
      MulMonotone(0, high, bigit);
      var l, h := low * bigit, high * bigit;
      assert factor * bigit == l + h * TWO_32 by {
        MulAssoc(TWO_32, high, bigit);
      }
      var tmp := carry % BASE + l;
      var next := carry / BASE + tmp / BASE + h * 16;
      assert factor * bigit + carry == tmp % BASE + next * BASE;
      ProductBound(factor, bigit, carry);
      MulCancelStrict(next, factor, BASE);
    }

    method ShiftLeft(shiftAmount: nat)
      requires Valid()
      requires usedDigits < CAPACITY
      modifies this, bigits
      ensures Valid() && Value() == old(Value()) * Pow(2, shiftAmount)
      ensures old(usedDigits) > 0 ==> exponent == old(exponent) + shiftAmount / BIGIT_SIZE
      ensures usedDigits <= old(usedDigits) + 1
    {
      if usedDigits == 0 {
        return;
      }
      hide Pow, Val, Scaled;
      ghost var m, e := Mantissa(), exponent;
      exponent := exponent + shiftAmount / BIGIT_SIZE;
      var localShift := shiftAmount % BIGIT_SIZE;
      BigitsShiftLeft(localShift);
      ShiftedValue(m, e, shiftAmount);
    }

    static lemma ShiftedValue(m: nat, e: nat, shift: nat)
      ensures m * Pow(2, shift % BIGIT_SIZE) >= 0
      ensures Scaled(m * Pow(2, shift % BIGIT_SIZE), e + shift / BIGIT_SIZE) == Scaled(m, e) * Pow(2, shift)
    {
      var q, r := shift / BIGIT_SIZE, shift % BIGIT_SIZE;
      PowAdd(BASE, e, q);
      PowAdd(2, BIGIT_SIZE * q, r);
      PowTwoBase(q);
      MulRegroup(m, Pow(2, r), Pow(BASE, e), Pow(BASE, q));
      PowPositive(2, r);
      MulMonotone(0, m, Pow(2, r));
      hide Pow;
      assert Pow(2, r) * Pow(BASE, q) == Pow(BASE, q) * Pow(2, r);
    }

    method BigitsShiftLeft(shiftAmount: nat)
      requires Clean() && 0 < usedDigits < CAPACITY && bigits[usedDigits - 1] != 0
      requires shiftAmount < BIGIT_SIZE
      modifies this, bigits
      ensures Valid()
      ensures Mantissa() == old(Mantissa()) * Pow(2, shiftAmount)
      ensures exponent == old(exponent)
      ensures usedDigits <= old(usedDigits) + 1
    {
      hide CarryDenotes, CarryProduct, Pow;
      ghost var s := bigits[..];
      ghost var factor: nat := Pow(2, shiftAmount);
      PowSmall(shiftAmount);
      CarryStartProduct(s, factor);
      var carry: uint32 := 0;
      for i := 0 to usedDigits
        invariant bigits.Length == CAPACITY && usedDigits == old(usedDigits) && exponent == old(exponent)
        invariant carry < factor
        invariant AllBigits(bigits[..], i)
        invariant forall j :: i <= j < CAPACITY ==> bigits[j] == s[j]
        invariant CarryProduct(bigits[..], s, i, factor, carry)
      {
        ghost var t := bigits[..];
        var out: uint32, newCarry: uint32 := ShiftBigit(bigits[i], carry, shiftAmount);
        bigits[i] := out;
        assert bigits[..] == t[i := bigits[i]];
        MultiplyStep(t, s, i, factor, carry, out, newCarry);
        carry := newCarry;
      }
      ShiftTotal(bigits[..], s, usedDigits, factor, carry);
      AppendShiftCarry(carry, Val(s, usedDigits) * factor);
    }

    method AppendShiftCarry(carry: uint32, ghost total: int)
      requires Clean() && usedDigits < CAPACITY && carry < BASE
      requires carry == 0 ==> IsClamped()
      requires CarryDenotes(bigits[..], usedDigits, carry, total)
      modifies this, bigits
      ensures Valid() && Mantissa() == total
      ensures exponent == old(exponent) && usedDigits <= old(usedDigits) + 1
    {
      hide CarryDenotes, Pow;
      if carry != 0 {
        ghost var t := bigits[..];
        CarrySplit(t, usedDigits, carry, total, carry);
        bigits[usedDigits] := carry;
        assert bigits[..] == t[usedDigits := bigits[usedDigits]];
        usedDigits := usedDigits + 1;
      }
      CarryNone(bigits[..], usedDigits, total);
    }

    static lemma ShiftTotal(t: seq<uint32>, s: seq<uint32>, n: nat, f: nat, carry: nat)
      requires 0 < n <= |t| && n <= |s| && AllBigits(t, n) && s[n - 1] > 0 && f > 0
      requires CarryProduct(t, s, n, f, carry)
      ensures CarryDenotes(t, n, carry, Val(s, n) * f)
      ensures carry == 0 ==> t[n - 1] != 0
    {
      if carry == 0 {
        ProductTop(t, s, n, f);
      }
      hide Pow, Val, CarryDenotes;
      assert f * Val(s, n) == Val(s, n) * f;
    }

    /** The body of the loop above. */
    static method ShiftBigit(bigit: uint32, carry: uint32, k: nat) returns (out: uint32, newCarry: uint32)
      requires k < BIGIT_SIZE && bigit < BASE && carry < Pow(2, k)
      ensures out < BASE && newCarry < Pow(2, k)
      ensures Pow(2, k) * bigit + carry == out + newCarry * BASE
    {
      ShiftStep(bigit, carry, k);
      newCarry := bigit / Pow(2, BIGIT_SIZE - k);
      out := Wrap32(Wrap32(bigit * Pow(2, k)) + carry) % BASE;
    }

    static lemma PowSmall(k: nat)
      requires k <= BIGIT_SIZE
      ensures 0 < Pow(2, k) <= BASE && 0 < Pow(2, BIGIT_SIZE - k) <= BASE
      ensures Pow(2, k) * Pow(2, BIGIT_SIZE - k) == BASE
    {
      PowPositive(2, k);
      PowPositive(2, BIGIT_SIZE - k);
      PowAdd(2, k, BIGIT_SIZE - k);
      PowTwoBase(1);
      assert Pow(BASE, 1) == BASE * Pow(BASE, 0);
      MulMonotone(1, Pow(2, k), Pow(2, BIGIT_SIZE - k));
      MulMonotone(1, Pow(2, BIGIT_SIZE - k), Pow(2, k));
    }

    static lemma ShiftStep(bigit: uint32, carry: uint32, k: nat)
      requires k < BIGIT_SIZE && bigit < BASE && carry < Pow(2, k)
      ensures Pow(2, BIGIT_SIZE - k) > 0
      ensures Pow(2, k) * bigit + carry
              == Wrap32(Wrap32(bigit * Pow(2, k)) + carry) % BASE + (bigit / Pow(2, BIGIT_SIZE - k)) * BASE
      ensures 0 <= bigit / Pow(2, BIGIT_SIZE - k) < Pow(2, k)
    {
      PowSmall(k);
      hide Pow;
      ShiftQuotient(bigit, carry, Pow(2, k), Pow(2, BIGIT_SIZE - k));
    }

    /** Shifting left by k and taking the top k bits are the two halves of one product. */
    static lemma ShiftQuotient(bigit: nat, carry: nat, f: nat, g: nat)
      requires f > 0 && g > 0 && f * g == BASE && carry < f && bigit < BASE
      ensures f * bigit + carry == Wrap32(Wrap32(bigit * f) + carry) % BASE + (bigit / g) * BASE
      ensures 0 <= bigit / g < f
    {
      var q, r := bigit / g, bigit % g;
      MulMonotone(0, bigit, f);
      WrapTwice(bigit * f, carry);
      DivBelow(bigit, f, g);
      hide Wrap32;
      assert bigit * f == q * BASE + r * f by {
        assert bigit == g * q + r;
        MulAssoc(q, g, f);
      }
      MulMonotone(r, g - 1, f);
      assert (g - 1) * f == BASE - f;
      MulMonotone(0, r, f);
      DivUnique(bigit * f + carry, BASE, q, r * f + carry);
    }

    /** Wrapping at 2^32 does not disturb the low 28 bits. */
    static lemma WrapTwice(x: nat, y: nat)
      ensures Wrap32(Wrap32(x) + y) % BASE == (x + y) % BASE
    {
      var a := x / TWO_32;
      var z := x % TWO_32 + y;
      var b := z / TWO_32;
      assert x + y == (z % TWO_32) + (a + b) * 16 * BASE;
      var w := z % TWO_32;
      DivUnique(x + y, BASE, (a + b) * 16 + w / BASE, w % BASE);
    }

    // ---- Comparison ----

    /** The bigit that counts multiples of BASE^index. */
    function BigitAt(index: nat): uint32
      requires Valid()
      reads this, bigits
    {
      if index >= BigitLength() then 0
      else if index < exponent then 0
      else bigits[index - exponent]
    }

    /** A bigit is what a quotient by a power of the base gains from one position to the next. */
    lemma HighStep(i: nat)
      requires Valid()
      ensures Pow(BASE, i) > 0 && Pow(BASE, i + 1) > 0
      ensures Value() / Pow(BASE, i) == (Value() / Pow(BASE, i + 1)) * BASE + BigitAt(i)
      ensures BigitAt(i) < BASE
    {
      PowPositive(BASE, i);
      PowPositive(BASE, i + 1);
      if i >= BigitLength() {
        HighIsZero(i);
        HighIsZero(i + 1);
      } else if i < exponent {
        LowIsZero(i);
        LowIsZero(i + 1);
        PowAdd(BASE, exponent - i - 1, 1);
        MulAssoc(Mantissa(), Pow(BASE, exponent - i - 1), Pow(BASE, 1));
        assert Pow(BASE, 1) == BASE * Pow(BASE, 0);
      } else {
        HighOfMantissa(i);
        HighOfMantissa(i + 1);
      }
    }

    lemma HighIsZero(i: nat)
      requires Valid() && i >= BigitLength()
      ensures Pow(BASE, i) > 0 && Value() / Pow(BASE, i) == 0
    {
      PowPositive(BASE, i);
      if usedDigits > 0 {
        LengthBounds();
        PowMonotone(BASE, BigitLength(), i);
      }
      DivUnique(Value(), Pow(BASE, i), 0, Value());
    }

    /** Below the exponent there are only zeros. */
    lemma LowIsZero(i: nat)
      requires Valid() && i <= exponent
      ensures Pow(BASE, i) > 0
      ensures Value() / Pow(BASE, i) == Mantissa() * Pow(BASE, exponent - i)
      ensures Value() == (Value() / Pow(BASE, i)) * Pow(BASE, i)
    {
      PowPositive(BASE, i);
      PowAdd(BASE, exponent - i, i);
      var h := Mantissa() * Pow(BASE, exponent - i);
      MulAssoc(Mantissa(), Pow(BASE, exponent - i), Pow(BASE, i));
      DivUnique(Value(), Pow(BASE, i), h, 0);
    }

    lemma HighOfMantissa(i: nat)
      requires Valid() && exponent <= i <= BigitLength()
      ensures Pow(BASE, i) > 0
      ensures Value() / Pow(BASE, i) == ValFrom(bigits[..], i - exponent, usedDigits)
    {
      var k := i - exponent;
      PowPositive(BASE, k);
      PowPositive(BASE, exponent);
      PowAdd(BASE, k, exponent);
      DivCancel(Mantissa(), Pow(BASE, k), Pow(BASE, exponent));
      ValQuotient(bigits[..], k, usedDigits);
    }

    /** Fewer bigits, smaller number. */
    lemma LengthOrder(other: Bignum)
      requires Valid() && other.Valid() && BigitLength() < other.BigitLength()
      ensures Value() < Pow(BASE, other.BigitLength() - 1) <= other.Value()
    {
      other.LengthBounds();
      PowMonotone(BASE, BigitLength(), other.BigitLength() - 1);
      PowPositive(BASE, other.BigitLength() - 1);
      if usedDigits > 0 {
        LengthBounds();
      }
    }

    static method Compare(a: Bignum, b: Bignum) returns (r: int)
      requires a.Valid() && b.Valid()
      ensures r == Sign(a.Value() - b.Value())
    {
      hide Pow;
      var lengthA, lengthB := a.BigitLength(), b.BigitLength();
      if lengthA < lengthB {
        a.LengthOrder(b);
        return -1;
      }
      if lengthA > lengthB {
        b.LengthOrder(a);
        return 1;
      }
      a.HighIsZero(lengthA);
      b.HighIsZero(lengthB);
      var stop := Min(a.exponent, b.exponent);
      var i := lengthA - 1;
      while i >= stop
        invariant stop - 1 <= i < lengthA
        invariant Pow(BASE, i + 1) > 0
        invariant a.Value() / Pow(BASE, i + 1) == b.Value() / Pow(BASE, i + 1)
      {
        a.HighStep(i);
        b.HighStep(i);
        var bigitA, bigitB := a.BigitAt(i), b.BigitAt(i);
        if bigitA < bigitB {
          HighLess(a.Value(), b.Value(), Pow(BASE, i));
          return -1;
        }
        if bigitA > bigitB {
          HighLess(b.Value(), a.Value(), Pow(BASE, i));
          return 1;
        }
        i := i - 1;
      }
      a.LowIsZero(stop);
      b.LowIsZero(stop);
      return 0;
    }

    static lemma HighLess(x: nat, y: nat, p: nat)
      requires p > 0 && x / p < y / p
      ensures x < y
    {
      if y <= x {
        DivMonotone(y, x, p);
      }
    }

    /** Compares a + b with c without forming the sum. */
    static method PlusCompare(a: Bignum, b: Bignum, c: Bignum) returns (r: int)
      requires a.Valid() && b.Valid() && c.Valid()
      ensures r == Sign(a.Value() + b.Value() - c.Value())
      decreases if a.BigitLength() < b.BigitLength() then 1 else 0
    {
      hide Pow;
      if a.BigitLength() < b.BigitLength() {
        r := PlusCompare(b, a, c);
        return;
      }
      if a.BigitLength() + 1 < c.BigitLength() {
        SumTooShort(a, b, c);
        return -1;
      }
      if a.BigitLength() > c.BigitLength() {
        c.LengthOrder(a);
        return 1;
      }
      if a.exponent >= b.BigitLength() && a.BigitLength() < c.BigitLength() {
        SumWithoutCarry(a, b, c);
        return -1;
      }
      r := CompareColumns(a, b, c);
    }

    /** Compares from the highest bigit of c down to the lowest of all. */
    static method CompareColumns(a: Bignum, b: Bignum, c: Bignum) returns (r: int)
      requires a.Valid() && b.Valid() && c.Valid()
      requires a.BigitLength() <= c.BigitLength() && b.BigitLength() <= c.BigitLength()
      ensures r == Sign(a.Value() + b.Value() - c.Value())
    {
      hide Pow, Val, Scaled;
      a.HighIsZero(c.BigitLength());
      b.HighIsZero(c.BigitLength());
      c.HighIsZero(c.BigitLength());
      var borrow: uint32 := 0;
      var minExponent := Min(Min(a.exponent, b.exponent), c.exponent);
      var i := c.BigitLength() - 1;
      while i >= minExponent
        invariant minExponent - 1 <= i < c.BigitLength()
        invariant Pow(BASE, i + 1) > 0
        invariant borrow == 0 || borrow == BASE
        invariant (c.Value() / Pow(BASE, i + 1) - a.Value() / Pow(BASE, i + 1) - b.Value() / Pow(BASE, i + 1)) * BASE
          == borrow
      {
        a.HighStep(i);
        b.HighStep(i);
        c.HighStep(i);
        ghost var p := Pow(BASE, i);
        ghost var lead := c.Value() / p - a.Value() / p - b.Value() / p;
        var chunkA, chunkB, chunkC := a.BigitAt(i), b.BigitAt(i), c.BigitAt(i);
        var sum: uint32 := chunkA + chunkB;
        assert lead == borrow + chunkC - sum;
        LeadDecides(a.Value(), b.Value(), c.Value(), p);
        if sum > chunkC + borrow {
          return 1;
        } else {
          borrow := chunkC + borrow - sum;
          if borrow > 1 {
            return -1;
          }
          borrow := borrow * BASE;
        }
        i := i - 1;
      }
      a.LowIsZero(minExponent);
      b.LowIsZero(minExponent);
      c.LowIsZero(minExponent);
      ExactLead(a.Value(), b.Value(), c.Value(), Pow(BASE, minExponent), borrow);
      if borrow == 0 {
        return 0;
      }
      return -1;
    }

    static lemma SumTooShort(a: Bignum, b: Bignum, c: Bignum)
      requires a.Valid() && b.Valid() && c.Valid()
      requires b.BigitLength() <= a.BigitLength() && a.BigitLength() + 1 < c.BigitLength()
      ensures a.Value() + b.Value() < c.Value()
    {
      var n := a.BigitLength();
      c.LengthBounds();
      PowMonotone(BASE, n + 1, c.BigitLength() - 1);
      PowMonotone(BASE, b.BigitLength(), n);
      PowPositive(BASE, n);
      if a.usedDigits > 0 { a.LengthBounds(); }
      if b.usedDigits > 0 { b.LengthBounds(); }
    }

    /** When b lies entirely below the bigits of a, the sum is no longer than a. */
    static lemma SumWithoutCarry(a: Bignum, b: Bignum, c: Bignum)
      requires a.Valid() && b.Valid() && c.Valid()
      requires b.BigitLength() <= a.exponent && a.BigitLength() < c.BigitLength()
      ensures a.Value() + b.Value() < c.Value()
    {
      PowMonotone(BASE, b.BigitLength(), a.exponent);
      if b.usedDigits > 0 { b.LengthBounds(); }
      PowPositive(BASE, a.exponent);
      if a.usedDigits > 0 { a.LengthBounds(); }
      c.LengthBounds();
      PowMonotone(BASE, a.BigitLength(), c.BigitLength() - 1);
      PowAdd(BASE, a.usedDigits, a.exponent);
      hide *;
      RoomBelow(a.Mantissa(), Pow(BASE, a.usedDigits), Pow(BASE, a.exponent), b.Value());
    }

    static lemma RoomBelow(m: nat, limit: nat, p: nat, low: nat)
      requires m < limit && low < p
      ensures m * p + low < limit * p
    {
      MulMonotone(m + 1, limit, p);
    }

    /** How far the high part of z leads those of x and y decides the order, unless it is 0 or 1. */
    static lemma LeadDecides(x: nat, y: nat, z: nat, p: nat)
      requires p > 0
      ensures z / p - x / p - y / p < 0 ==> x + y > z
      ensures z / p - x / p - y / p > 1 ==> x + y < z
    {
      var hx, hy, hz := x / p, y / p, z / p;
      assert x == p * hx + x % p && y == p * hy + y % p && z == p * hz + z % p;
      if hz - hx - hy < 0 {
        MulMonotone(hz + 1, hx + hy, p);
      }
      if hz - hx - hy > 1 {
        MulMonotone(hx + hy + 2, hz, p);
      }
    }

    static lemma ExactLead(x: nat, y: nat, z: nat, p: nat, borrow: nat)
      requires p > 0
      requires x == (x / p) * p && y == (y / p) * p && z == (z / p) * p
      requires (z / p - x / p - y / p) * BASE == borrow
      ensures borrow == 0 ==> x + y == z
      ensures borrow > 0 ==> x + y < z
    {
      var hx, hy, hz := x / p, y / p, z / p;
      if borrow > 0 {
        MulMonotone(1, hz - hx - hy, p);
      }
    }

    // ---- Addition and subtraction ----

    /** Makes hidden zero bigits of this number explicit, so that its exponent is not above the other's. */
    method Align(other: Bignum)
      requires Valid() && exponent > other.exponent ==> BigitLength() - other.exponent <= CAPACITY
      requires Valid() && other.Valid() && Apart(other)
      modifies this, bigits
      ensures Valid() && Value() == old(Value())
      ensures BigitLength() == old(BigitLength())
      ensures exponent == Min(old(exponent), other.exponent)
    {
      if exponent > other.exponent {
        ExpandZeros(exponent - other.exponent);
      }
    }

    method ExpandZeros(zeroDigits: nat)
      requires Valid() && 0 < zeroDigits <= exponent && usedDigits + zeroDigits <= CAPACITY
      modifies this, bigits
      ensures Valid() && Value() == old(Value())
      ensures usedDigits == old(usedDigits) + zeroDigits && exponent == old(exponent) - zeroDigits
    {
      hide Pow, Val, Scaled, MovedUp;
      ghost var s, n := bigits[..], usedDigits;
      MoveUp(zeroDigits);
      AlignedValue(s, bigits[..], n, zeroDigits, exponent);
      usedDigits := usedDigits + zeroDigits;
      exponent := exponent - zeroDigits;
    }

    /** t holds the first n cells of s, z cells higher, and zeros below them. */
    static ghost predicate MovedUp(s: seq<uint32>, t: seq<uint32>, n: nat, z: nat)
      requires n <= |s| && n + z <= |t|
    {
      && (forall i :: z <= i < n + z ==> t[i] == s[i - z])
      && (forall i :: 0 <= i < z ==> t[i] == 0)
    }

    static lemma AlignedValue(s: seq<uint32>, t: seq<uint32>, n: nat, z: nat, e: nat)
      requires n <= |s| && n + z <= |t| && z <= e && MovedUp(s, t, n, z)
      ensures Scaled(Val(t, n + z), e - z) == Scaled(Val(s, n), e)
      ensures n > 0 ==> t[n + z - 1] == s[n - 1]
    {
      ValShift(s, t, n, z);
      PowAdd(BASE, z, e - z);
      hide Pow, Val;
      MulAssoc(Val(s, n), Pow(BASE, z), Pow(BASE, e - z));
    }

    /** The two copying loops of Align. */
    method MoveUp(zeroDigits: nat)
      requires Clean() && usedDigits + zeroDigits <= CAPACITY
      modifies bigits
      ensures MovedUp(old(bigits[..]), bigits[..], usedDigits, zeroDigits)
      ensures forall j :: usedDigits + zeroDigits <= j < CAPACITY ==> bigits[j] == 0
      ensures AllBigits(bigits[..], usedDigits + zeroDigits)
    {
      var i := usedDigits - 1;
      while i >= 0
        invariant -1 <= i < usedDigits
        invariant forall j :: i + 1 + zeroDigits <= j < usedDigits + zeroDigits
                   ==> bigits[j] == old(bigits[j - zeroDigits])
        invariant forall j :: 0 <= j <= i ==> bigits[j] == old(bigits[j])
        invariant forall j :: usedDigits + zeroDigits <= j < CAPACITY ==> bigits[j] == 0
      {
        bigits[i + zeroDigits] := bigits[i];
        i := i - 1;
      }
      for j := 0 to zeroDigits
        invariant forall k :: 0 <= k < j ==> bigits[k] == 0
        invariant forall k :: zeroDigits <= k < usedDigits + zeroDigits ==> bigits[k] == old(bigits[k - zeroDigits])
        invariant forall k :: usedDigits + zeroDigits <= k < CAPACITY ==> bigits[k] == 0
      {
        bigits[j] := 0;
      }
    }
    /** What is left of a sum when the carry has vanished denotes this number plus the other one. */
    static lemma SumDenotes(t: seq<uint32>, s: seq<uint32>, n: nat, k: nat, m: nat, x: nat)
      requires |s| == |t| == CAPACITY && k <= CAPACITY && n <= CAPACITY && m == Max(n, k)
      requires Changed(t, s, k, 0, x)
      requires forall j :: k <= j < CAPACITY ==> t[j] == s[j]
      requires forall j :: n <= j < CAPACITY ==> s[j] == 0
      ensures Val(t, m) == Val(s, n) + x
    {
      ChangedEnd(t, s, k, x);
      if k >= n {
        ValZeros(s, n, k);
      } else {
        ChangedExtend(t, s, k, n, x);
      }
    }

    static lemma {:induction false} ChangedExtend(t: seq<uint32>, s: seq<uint32>, k: nat, n: nat, x: int)
      requires k <= n <= |s| && n <= |t| && Changed(t, s, k, 0, x)
      requires forall j :: k <= j < n ==> t[j] == s[j]
      ensures Val(t, n) == Val(s, n) + x
    {
      if k < n {
        ChangedExtend(t, s, k, n - 1, x);
      }
    }

    /** Enough bigits for the sum of two numbers. */
    static lemma SumFits(m: nat, o: nat, n: nat, k: nat, limit: nat)
      requires m < Pow(BASE, n) && o < Pow(BASE, k) && n < limit && k < limit
      ensures m + o < Pow(BASE, limit)
    {
      PowMonotone(BASE, n, limit - 1);
      PowMonotone(BASE, k, limit - 1);
    }

    method AddBignum(other: Bignum)
      requires Valid() && other.Valid() && Apart(other)
      requires 1 + Max(BigitLength(), other.BigitLength()) - Min(exponent, other.exponent) <= CAPACITY
      modifies this, bigits
      ensures Valid() && Value() == old(Value()) + other.Value()
      ensures exponent == Min(old(exponent), other.exponent)
    {
      Align(other);
      AddAligned(other);
    }

    method AddAligned(other: Bignum)
      requires Valid() && other.Valid() && Apart(other) && exponent <= other.exponent
      requires 1 + Max(BigitLength(), other.BigitLength()) - exponent <= CAPACITY
      modifies this, bigits
      ensures Valid() && Value() == old(Value()) + other.Value()
      ensures exponent == old(exponent)
    {
      hide Changed, Pow, Val;
      ghost var s, n, o, ot := bigits[..], usedDigits, other.bigits[..], other.usedDigits;
      var offset := other.exponent - exponent;
      SumRoom(s, n, o, ot, offset);
      var carry := AddBigits(other, offset);
      var bigitPos := PropagateCarry(s, offset + other.usedDigits, carry, Val(o, ot) * Pow(BASE, offset));
      SumResult(bigits[..], s, n, o, ot, offset, bigitPos, exponent);
      usedDigits := Max(bigitPos, usedDigits);
    }

    /** The two loops of AddBignum leave the clamped sum. */
    static lemma SumResult(t: seq<uint32>, s: seq<uint32>, n: nat, o: seq<uint32>, ot: nat, off: nat, pos: nat, e: nat)
      requires |s| == |t| == CAPACITY && n <= CAPACITY && off + ot <= pos <= CAPACITY && ot <= |o|
      requires AllBigits(s, n) && AllBigits(o, ot) && AllBigits(t, CAPACITY)
      requires 0 <= Val(o, ot) * Pow(BASE, off) && Changed(t, s, pos, 0, Val(o, ot) * Pow(BASE, off))
      requires forall j :: pos <= j < CAPACITY ==> t[j] == s[j]
      requires forall j :: n <= j < CAPACITY ==> s[j] == 0
      requires n > 0 ==> s[n - 1] != 0
      requires ot > 0 ==> o[ot - 1] != 0
      requires ot == 0 ==> off == 0
      requires off + ot < pos ==> t[pos - 1] != 0
      ensures var m := Max(pos, n);
              && (m > 0 ==> t[m - 1] != 0)
              && (forall j :: m <= j < CAPACITY ==> t[j] == 0)
              && Val(t, m) * Pow(BASE, e) == Val(s, n) * Pow(BASE, e) + Val(o, ot) * Pow(BASE, e + off)
    {
      hide Changed, Pow, Val;
      var m := Max(pos, n);
      SumDenotes(t, s, n, pos, m, Val(o, ot) * Pow(BASE, off));
      SumTop(t, s, n, o, ot, off, m);
      AddedValue(Val(s, n), Val(o, ot), off, e);
    }

    static lemma SumRoom(s: seq<uint32>, n: nat, o: seq<uint32>, ot: nat, off: nat)
      requires n <= |s| && ot <= |o| && AllBigits(s, n) && AllBigits(o, ot)
      requires n < CAPACITY && ot + off < CAPACITY
      ensures 0 <= Val(o, ot) * Pow(BASE, off)
      ensures Val(s, n) + Val(o, ot) * Pow(BASE, off) < Pow(BASE, CAPACITY)
    {
      hide Pow, Val;
      ValBound(s, n);
      ValBound(o, ot);
      PowPositive(BASE, off);
      MulMonotone(0, Val(o, ot), Pow(BASE, off));
      MulStrict(Val(o, ot), Pow(BASE, ot), Pow(BASE, off));
      PowAdd(BASE, ot, off);
      SumFits(Val(s, n), Val(o, ot) * Pow(BASE, off), n, ot + off, CAPACITY);
    }

    /** The top bigit of a sum is nonzero: either the last carry went there, or one of the operands reaches it. */
    static lemma SumTop(t: seq<uint32>, s: seq<uint32>, n: nat, o: seq<uint32>, ot: nat, off: nat, m: nat)
      requires n <= |s| && ot <= |o| && m <= |t| && AllBigits(s, n) && AllBigits(o, ot) && AllBigits(t, m)
      requires Val(t, m) == Val(s, n) + Val(o, ot) * Pow(BASE, off)
      requires n > 0 ==> s[n - 1] != 0
      requires ot > 0 ==> o[ot - 1] != 0
      requires m > 0 && t[m - 1] == 0 ==> m == n || (m == ot + off && ot > 0)
      ensures m > 0 ==> t[m - 1] != 0
    {
      hide Pow, Val;
      PowPositive(BASE, off);
      MulMonotone(0, Val(o, ot), Pow(BASE, off));
      if m > 0 && m == n {
        TopAtLeast(s, n);
        TopFromValue(t, m);
      } else if m > 0 && m == ot + off && ot > 0 {
        NonzeroTop(o, ot, off);
        TopFromValue(t, m);
      }
    }

    static lemma TopAtLeast(s: seq<uint32>, n: nat)
      requires 0 < n <= |s| && AllBigits(s, n) && s[n - 1] != 0
      ensures Pow(BASE, n - 1) <= Val(s, n)
    {
      ValTop(s, n);
      MulMonotone(1, s[n - 1], Pow(BASE, n - 1));
    }

    static lemma NonzeroTop(s: seq<uint32>, n: nat, off: nat)
      requires 0 < n <= |s| && AllBigits(s, n) && s[n - 1] != 0
      ensures Pow(BASE, n - 1 + off) <= Val(s, n) * Pow(BASE, off)
    {
      TopAtLeast(s, n);
      MulMonotone(Pow(BASE, n - 1), Val(s, n), Pow(BASE, off));
      PowAdd(BASE, n - 1, off);
    }

    static lemma TopFromValue(t: seq<uint32>, m: nat)
      requires 0 < m <= |t| && AllBigits(t, m)
      requires Pow(BASE, m - 1) <= Val(t, m)
      ensures t[m - 1] != 0
    {
      ValBound(t, m - 1);
    }

    /** First loop of AddBignum: adds the bigits of the other number from cell offset on. */
    method AddBigits(other: Bignum, offset: nat) returns (carry: uint32)
      requires Valid() && other.Valid() && Apart(other)
      requires usedDigits < CAPACITY && offset + other.usedDigits < CAPACITY
      modifies bigits
      ensures carry <= 1
      ensures forall j :: offset + other.usedDigits <= j < CAPACITY ==> bigits[j] == old(bigits[j])
      ensures AllBigits(bigits[..], CAPACITY)
      ensures Changed(bigits[..], old(bigits[..]), offset + other.usedDigits, carry,
                      Val(other.bigits[..], other.usedDigits) * Pow(BASE, offset))
    {
      hide Changed, Pow;
      ghost var s, o := bigits[..], other.bigits[..];
      carry := 0;
      assert Val(o, 0) * Pow(BASE, offset) == 0;
      ChangedStart(s, offset);
      for i := 0 to other.usedDigits
        invariant carry <= 1
        invariant forall j :: offset + i <= j < CAPACITY ==> bigits[j] == s[j]
        invariant forall j :: 0 <= j < CAPACITY ==> bigits[j] < BASE
        invariant Changed(bigits[..], s, offset + i, carry, Val(o, i) * Pow(BASE, offset))
      {
        var sum: uint32 := bigits[offset + i] + other.bigits[i] + carry;
        ghost var t := bigits[..];
        bigits[offset + i] := sum % BASE;
        assert bigits[..] == t[offset + i := bigits[offset + i]];
        ChangedStep(t, s, offset + i, carry, Val(o, i) * Pow(BASE, offset), o[i], bigits[offset + i], sum / BASE);
        ShiftedStep(o, i, offset);
        carry := sum / BASE;
      }
    }

    /** Second loop of AddBignum: moves the carry up, from cell start on, until it vanishes. */
    method PropagateCarry(ghost s: seq<uint32>, start: nat, c: uint32, ghost x: nat) returns (bigitPos: nat)
      requires bigits.Length == |s| == CAPACITY && usedDigits <= CAPACITY && start <= CAPACITY && c <= 1
      requires AllBigits(bigits[..], CAPACITY)
      requires forall j :: start <= j < CAPACITY ==> bigits[j] == s[j]
      requires forall j :: usedDigits <= j < CAPACITY ==> s[j] == 0
      requires Val(s, usedDigits) + x < Pow(BASE, CAPACITY)
      requires Changed(bigits[..], s, start, c, x)
      modifies bigits
      ensures start <= bigitPos <= CAPACITY
      ensures AllBigits(bigits[..], CAPACITY)
      ensures forall j :: bigitPos <= j < CAPACITY ==> bigits[j] == s[j]
      ensures start < bigitPos ==> bigits[bigitPos - 1] != 0
      ensures Changed(bigits[..], s, bigitPos, 0, x)
    {
      hide Changed, Pow;
      var carry: uint32 := c;
      bigitPos := start;
      while carry != 0
        invariant start <= bigitPos <= CAPACITY && carry <= 1
        invariant carry == 0 && start < bigitPos ==> bigits[bigitPos - 1] != 0
        invariant AllBigits(bigits[..], CAPACITY)
        invariant forall j :: bigitPos <= j < CAPACITY ==> bigits[j] == s[j]
        invariant Changed(bigits[..], s, bigitPos, carry, x)
        decreases CAPACITY - bigitPos
      {
        assert bigitPos < CAPACITY by {
          if usedDigits <= bigitPos {
            ValZeros(s, usedDigits, bigitPos);
            CarryNeedsCell(bigits[..], s, bigitPos, CAPACITY, carry, x);
          }
        }
        var sum: uint32 := bigits[bigitPos] + carry;
        ghost var t := bigits[..];
        bigits[bigitPos] := sum % BASE;
        assert bigits[..] == t[bigitPos := bigits[bigitPos]];
        ChangedStep(t, s, bigitPos, carry, x, 0, bigits[bigitPos], sum / BASE);
        assert x + 0 * Pow(BASE, bigitPos) == x;
        carry := sum / BASE;
        bigitPos := bigitPos + 1;
      }
    }

    /** The weight of bigit i of a number shifted up by off cells. */
    static lemma ShiftedStep(o: seq<uint32>, i: nat, off: nat)
      requires i < |o|
      ensures Val(o, i) * Pow(BASE, off) + o[i] * Pow(BASE, i + off) == Val(o, i + 1) * Pow(BASE, off)
    {
      PowAdd(BASE, i, off);
      MulAssoc(o[i], Pow(BASE, i), Pow(BASE, off));
    }

    static lemma AddedValue(m: int, o: int, off: nat, e: nat)
      ensures (m + o * Pow(BASE, off)) * Pow(BASE, e) == m * Pow(BASE, e) + o * Pow(BASE, e + off)
    {
      PowAdd(BASE, off, e);
      MulAssoc(o, Pow(BASE, off), Pow(BASE, e));
      hide *;
    }
    method AddUInt64(operand: uint64)
      requires Valid()
      requires BigitLength() < CAPACITY - 2
      modifies this, bigits
      ensures Valid() && Value() == old(Value()) + operand
      ensures operand != 0 ==> exponent == 0
      ensures operand == 0 ==> exponent == old(exponent)
    {
      if operand == 0 {
        return;
      }
      var other := new Bignum();
      other.AssignUInt64(operand);
      other.LengthFromValue(3) by {
        assert Pow(BASE, 3) == BASE * (BASE * (BASE * 1));
      }
      AddBignum(other);
    }

    /** Removes a smaller number. */
    method SubtractBignum(other: Bignum)
      requires Valid() && other.Valid() && Apart(other)
      requires other.Value() <= Value()
      requires exponent > other.exponent ==> BigitLength() - other.exponent <= CAPACITY
      modifies this, bigits
      ensures Valid() && Value() == old(Value()) - other.Value()
      ensures exponent <= other.exponent
    {
      Align(other);
      SubtractAligned(other);
    }

    method SubtractAligned(other: Bignum)
      requires Valid() && other.Valid() && Apart(other) && exponent <= other.exponent
      requires other.Value() <= Value()
      modifies this, bigits
      ensures Valid() && Value() == old(Value()) - other.Value()
      ensures exponent <= other.exponent
    {
      hide Changed, Pow, Val;
      ghost var s, n, o, ot := bigits[..], usedDigits, other.bigits[..], other.usedDigits;
      ghost var x := Val(o, ot) * Pow(BASE, other.exponent - exponent);
      RemovalFits(other, 1);
      var offset := other.exponent - exponent;
      var i, borrow := SubtractBigits(other, offset);
      PropagateBorrow(s, i + offset, borrow, x);
      RemovedValue(Val(s, n), Val(o, ot), 1, offset, exponent);
      Clamp();
    }

    /** A multiple of the other number that is not above this one fits below it, bigit for bigit. */
    lemma RemovalFits(other: Bignum, factor: nat)
      requires Valid() && other.Valid() && exponent <= other.exponent
      requires factor * other.Value() <= Value()
      ensures 0 <= factor * (Val(other.bigits[..], other.usedDigits) * Pow(BASE, other.exponent - exponent))
        <= Val(bigits[..], usedDigits)
      ensures factor > 0 ==> other.exponent - exponent + other.usedDigits <= usedDigits
    {
      hide Pow, Val;
      var o, off := Val(other.bigits[..], other.usedDigits), other.exponent - exponent;
      var p, e := Pow(BASE, off), Pow(BASE, exponent);
      PowAdd(BASE, off, exponent);
      PowPositive(BASE, exponent);
      PowPositive(BASE, off);
      MulAssoc(o, p, e);
      MulAssoc(factor, o * p, e);
      MulCancel(factor * (o * p), Val(bigits[..], usedDigits), e);
      MulMonotone(0, o, p);
      MulMonotone(0, o * p, factor);
      if factor > 0 && other.usedDigits > 0 {
        MulMonotone(1, factor, other.Value());
        if BigitLength() < other.BigitLength() {
          LengthOrder(other);
        }
      }
    }

    static lemma RemovedValue(m: int, o: int, factor: int, off: nat, e: nat)
      ensures (m - factor * (o * Pow(BASE, off))) * Pow(BASE, e) == m * Pow(BASE, e) - factor * (o * Pow(BASE, e + off))
    {
      PowAdd(BASE, off, e);
      MulAssoc(o, Pow(BASE, off), Pow(BASE, e));
      MulAssoc(factor, o * Pow(BASE, off), Pow(BASE, e));
      hide *;
    }

    /** First loop of SubtractBignum. */
    method SubtractBigits(other: Bignum, offset: nat) returns (i: nat, borrow: uint32)
      requires Clean() && other.Valid() && Apart(other)
      requires offset + other.usedDigits <= usedDigits
      modifies bigits
      ensures i == other.usedDigits && borrow <= 1
      ensures AllBigits(bigits[..], usedDigits)
      ensures forall j :: offset + i <= j < CAPACITY ==> bigits[j] == old(bigits[j])
      ensures Changed(bigits[..], old(bigits[..]), i + offset, 0 - borrow,
                      -(Val(other.bigits[..], other.usedDigits) * Pow(BASE, offset)))
    {
      hide Changed, Pow;
      ghost var s, o := bigits[..], other.bigits[..];
      borrow := 0;
      assert Val(o, 0) * Pow(BASE, offset) == 0;
      ChangedStart(s, offset);
      i := 0;
      while i < other.usedDigits
        invariant i <= other.usedDigits && borrow <= 1
        invariant AllBigits(bigits[..], usedDigits)
        invariant forall j :: offset + i <= j < CAPACITY ==> bigits[j] == s[j]
        invariant Changed(bigits[..], s, i + offset, 0 - borrow, -(Val(o, i) * Pow(BASE, offset)))
      {
        var difference: uint32 := Wrap32(bigits[i + offset] - other.bigits[i] - borrow);
        BorrowStep(bigits[i + offset] - other.bigits[i] - borrow);
        ghost var t := bigits[..];
        bigits[i + offset] := difference % BASE;
        assert bigits[..] == t[i + offset := bigits[i + offset]];
        ChangedStep(t, s, i + offset, 0 - borrow, -(Val(o, i) * Pow(BASE, offset)), -(o[i] as int), bigits[i + offset],
                    0 - difference / TWO_31);
        ShiftedStepDown(o, i, offset, 1);
        borrow := difference / TWO_31;
        i := i + 1;
      }
    }

    /** Wrapping arithmetic finds the bigit and the borrow of a difference that is at least -2^28. */
    static lemma BorrowStep(d: int)
      requires 0 - BASE <= d < BASE
      ensures var w := Wrap32(d);
              && w % BASE - (w / TWO_31) * BASE == d
              && (w / TWO_31 == if d < 0 then 1 else 0)
    {
    }

    static lemma ShiftedStepDown(o: seq<uint32>, i: nat, off: nat, factor: int)
      requires i < |o|
      ensures -(factor * (Val(o, i) * Pow(BASE, off))) + (0 - factor * o[i]) * Pow(BASE, i + off)
        == -(factor * (Val(o, i + 1) * Pow(BASE, off)))
    {
      ShiftedStep(o, i, off);
      hide Pow, Val;
      ScaledStep(factor, Val(o, i) * Pow(BASE, off), o[i], Pow(BASE, i + off), Val(o, i + 1) * Pow(BASE, off));
    }

    static lemma ScaledStep(f: int, a: int, b: int, p: int, c: int)
      requires a + b * p == c
      ensures -(f * a) + (0 - f * b) * p == -(f * c)
    {
      MulAssoc(f, b, p);
      assert f * c == f * a + f * (b * p);
    }

    /** Second loop of SubtractBignum: moves the borrow up until it vanishes. */
    method PropagateBorrow(ghost s: seq<uint32>, start: nat, b: uint32, ghost x: int)
      requires Clean() && |s| == CAPACITY && start <= usedDigits && b <= 1
      requires forall j :: start <= j < CAPACITY ==> bigits[j] == s[j]
      requires x <= Val(s, usedDigits)
      requires Changed(bigits[..], s, start, 0 - b, -x)
      modifies bigits
      ensures Clean()
      ensures Val(bigits[..], usedDigits) == Val(s, usedDigits) - x
    {
      hide Changed, Pow;
      var k, borrow: uint32 := start, b;
      while borrow != 0
        invariant start <= k <= usedDigits && borrow <= 1
        invariant Clean()
        invariant forall j :: k <= j < CAPACITY ==> bigits[j] == s[j]
        invariant Changed(bigits[..], s, k, 0 - borrow, -x)
        decreases usedDigits - k
      {
        NoBorrowLeft(bigits[..], s, k, usedDigits, borrow, x);
        var difference: uint32 := Wrap32(bigits[k] - borrow);
        BorrowStep(bigits[k] - borrow);
        ghost var t := bigits[..];
        bigits[k] := difference % BASE;
        assert bigits[..] == t[k := bigits[k]];
        ChangedStep(t, s, k, 0 - borrow, -x, 0, bigits[k], 0 - difference / TWO_31);
        assert -x + 0 * Pow(BASE, k) == -x;
        borrow := difference / TWO_31;
        k := k + 1;
      }
      ChangedExtend(bigits[..], s, k, usedDigits, -x);
    }

    /** Subtracts factor * other. */
    method SubtractTimes(other: Bignum, factor: nat)
      requires Valid() && other.Valid() && Apart(other) && exponent <= other.exponent
      requires factor < BASE && factor * other.Value() <= Value()
      modifies this, bigits
      ensures Valid() && Value() == old(Value()) - factor * other.Value()
      ensures exponent <= other.exponent
    {
      if factor < 3 {
        ghost var v := Value();
        for i := 0 to factor
          invariant Valid() && other.Valid() && exponent <= other.exponent
          invariant other.Value() == old(other.Value())
          invariant Value() == v - i * other.Value()
        {
          assert (i + 1) * other.Value() <= factor * other.Value() by {
            MulMonotone(i + 1, factor, other.Value());
          }
          SubtractBignum(other);
        }
        return;
      }
      hide Changed, Pow, Val;
      ghost var s, n, o, ot := bigits[..], usedDigits, other.bigits[..], other.usedDigits;
      ghost var x := factor * (Val(o, ot) * Pow(BASE, other.exponent - exponent));
      RemovalFits(other, factor);
      var exponentDiff := other.exponent - exponent;
      var borrow := SubtractProducts(other, factor, exponentDiff);
      RemovedValue(Val(s, n), Val(o, ot), factor, exponentDiff, exponent);
      var early := SubtractBorrow(s, other.usedDigits + exponentDiff, borrow, x);
      if early {
        // The top bigit was not touched, so the number is still clamped.
        return;
      }
      Clamp();
    }

    /** First loop of SubtractTimes: the borrow also carries the high part of each product. */
    method SubtractProducts(other: Bignum, factor: nat, exponentDiff: nat) returns (borrow: uint32)
      requires Clean() && other.Valid() && Apart(other) && 0 < factor < BASE
      requires exponentDiff + other.usedDigits <= usedDigits
      modifies bigits
      ensures borrow <= factor
      ensures AllBigits(bigits[..], usedDigits)
      ensures forall j :: exponentDiff + other.usedDigits <= j < CAPACITY ==> bigits[j] == old(bigits[j])
      ensures Changed(bigits[..], old(bigits[..]), other.usedDigits + exponentDiff, 0 - borrow,
                      -(factor * (Val(other.bigits[..], other.usedDigits) * Pow(BASE, exponentDiff))))
    {
      hide Changed, Pow;
      ghost var s, o := bigits[..], other.bigits[..];
      borrow := 0;
      assert factor * (Val(o, 0) * Pow(BASE, exponentDiff)) == 0;
      ChangedStart(s, exponentDiff);
      for i := 0 to other.usedDigits
        invariant borrow <= factor
        invariant AllBigits(bigits[..], usedDigits)
        invariant forall j :: exponentDiff + i <= j < CAPACITY ==> bigits[j] == s[j]
        invariant Changed(bigits[..], s, i + exponentDiff, 0 - borrow,
                          -(factor * (Val(o, i) * Pow(BASE, exponentDiff))))
      {
        ghost var t := bigits[..];
        var out: uint32, next: uint32 := RemoveProduct(bigits[i + exponentDiff], other.bigits[i], factor, borrow);
        bigits[i + exponentDiff] := out;
        assert bigits[..] == t[i + exponentDiff := out];
        ChangedStep(t, s, i + exponentDiff, 0 - borrow, -(factor * (Val(o, i) * Pow(BASE, exponentDiff))),
                    0 - factor * o[i], out, 0 - next);
        ShiftedStepDown(o, i, exponentDiff, factor);
        borrow := next;
      }
    }

    /** The body of the loop above. */
    static method RemoveProduct(bigit: uint32, otherBigit: uint32, factor: nat, borrow: uint32)
      returns (out: uint32, next: uint32)
      requires bigit < BASE && otherBigit < BASE && factor < BASE && borrow <= factor
      ensures out < BASE && next <= factor
      ensures out - next * BASE == bigit - factor * otherBigit - borrow
    {
      assert 0 <= factor * otherBigit <= factor * (BASE - 1) by {
        MulMonotone(0, otherBigit, factor);
        MulMonotone(otherBigit, BASE - 1, factor);
      }
      var product: uint64 := factor * otherBigit;
      var remove: uint64 := borrow + product;
      assert remove <= factor * BASE;
      var difference: uint32 := Wrap32(bigit - remove % BASE);
      BorrowStep(bigit - remove % BASE);
      out := difference % BASE;
      assert remove / BASE < factor || (remove / BASE == factor && remove % BASE == 0);
      next := difference / TWO_31 + remove / BASE;
    }

    /** Second loop of SubtractTimes. Returns early, without a need for clamping, as soon as the borrow is zero. */
    method SubtractBorrow(ghost s: seq<uint32>, start: nat, b: uint32, ghost x: int) returns (early: bool)
      requires Clean() && |s| == CAPACITY && start <= usedDigits && b < BASE
      requires forall j :: start <= j < CAPACITY ==> bigits[j] == s[j]
      requires x <= Val(s, usedDigits)
      requires Changed(bigits[..], s, start, 0 - b, -x)
      modifies bigits
      ensures Clean()
      ensures Val(bigits[..], usedDigits) == Val(s, usedDigits) - x
      ensures early ==> usedDigits > 0 && bigits[usedDigits - 1] == s[usedDigits - 1]
    {
      hide Changed, Pow;
      var borrow: uint32 := b;
      for i := start to usedDigits
        invariant Clean() && borrow < BASE
        invariant forall j :: i <= j < CAPACITY ==> bigits[j] == s[j]
        invariant Changed(bigits[..], s, i, 0 - borrow, -x)
      {
        if borrow == 0 {
          ChangedExtend(bigits[..], s, i, usedDigits, -x);
          return true;
        }
        var difference: uint32 := Wrap32(bigits[i] - borrow);
        BorrowStep(bigits[i] - borrow);
        ghost var t := bigits[..];
        bigits[i] := difference % BASE;
        assert bigits[..] == t[i := bigits[i]];
        ChangedStep(t, s, i, 0 - borrow, -x, 0, bigits[i], 0 - difference / TWO_31);
        assert -x + 0 * Pow(BASE, i) == -x;
        borrow := difference / TWO_31;
      }
      if borrow > 0 {
        NoBorrowLeft(bigits[..], s, usedDigits, usedDigits, borrow, x);
      }
      ChangedEnd(bigits[..], s, usedDigits, -x);
      return false;
    }
    /** Numbers below this bound leave enough room for every operation of the digit generators. */
    ghost predicate Small()
      reads this, bigits
    {
      Valid() && Value() < Pow(BASE, CAPACITY - 8)
    }

    lemma SmallFits()
      requires Small()
      ensures BigitLength() <= CAPACITY - 8
      ensures Mantissa() * 10 < Pow(BASE, CAPACITY)
    {
      LengthFromValue(CAPACITY - 8);
      MantissaBelowValue();
      PowMonotone(BASE, CAPACITY - 7, CAPACITY);
    }

    method Times10()
      requires Small()
      modifies this, bigits
      ensures Valid() && Value() == 10 * old(Value())
    {
      SmallFits();
      MultiplyByUInt32(10);
    }

    // ---- Division ----

    /** Divides by a number more than 2^-16 as large, in place: this number keeps the remainder. */
    method DivideModuloIntBignum(other: Bignum) returns (result: uint16)
      requires Valid() && other.Valid() && Apart(other) && other.usedDigits > 0
      requires Value() < TWO_16 * other.Value()
      requires exponent > other.exponent ==> BigitLength() - other.exponent <= CAPACITY
      modifies this, bigits
      ensures Valid() && other.Valid() && other.Value() == old(other.Value())
      ensures other.Value() > 0
      ensures result == old(Value()) / other.Value() && Value() == old(Value()) % other.Value()
    {
      other.ZeroIff();
      hide Pow, Val;
      ghost var v, d := Value(), other.Value();
      if BigitLength() < other.BigitLength() {
        LengthOrder(other);
        DivUnique(v, d, 0, v);
        return 0;
      }
      Align(other);
      LongEnough(other);
      result := ReduceToLength(other);
      NonzeroRemainder(other);
      var rest := DivideSameLength(other);
      AddQuotients(v, d, result, rest, Value());
      result := result + rest;
    }

    static lemma AddQuotients(v: nat, d: nat, q: nat, rest: nat, r: nat)
      requires 0 < d && r < d && v < TWO_16 * d && v == d * q + (d * rest + r)
      ensures q + rest < TWO_16 && q + rest == v / d && r == v % d
    {
      QuotientFits(v, d, q + rest);
      DivUnique(v, d, q + rest, r);
    }

    /** The loop that removes multiples of the other number until this one is not longer. */
    method ReduceToLength(other: Bignum) returns (result: uint16)
      requires Valid() && other.Valid() && Apart(other) && other.usedDigits > 0
      requires exponent <= other.exponent
      requires Value() < TWO_16 * other.Value()
      requires Pow(BASE, other.BigitLength() - 1) <= Value()
      modifies this, bigits
      ensures Valid() && exponent <= other.exponent && BigitLength() <= other.BigitLength()
      ensures old(Value()) == other.Value() * result + Value()
      ensures Pow(BASE, other.BigitLength() - 1) <= Value() || Pow(BASE, other.BigitLength()) <= Value() + other.Value()
    {
      hide Pow, Val;
      ghost var v, d := Value(), other.Value();
      result := 0;
      while BigitLength() > other.BigitLength()
        invariant Valid() && other.Valid() && exponent <= other.exponent
        invariant v == d * result + Value()
        invariant Pow(BASE, other.BigitLength() - 1) <= Value() || Pow(BASE, other.BigitLength()) <= Value() + d
        decreases Value()
      {
        MulMonotone(0, result, d);
        ReduceLength(other);
        ghost var r := result;
        var top := bigits[usedDigits - 1];
        SubtractTimes(other, top);
        assert d * (r + top) == d * r + top * d;
        QuotientFits(v, d, r + top);
        result := result + top;
      }
    }

    /** The lengths need not be equal afterwards: 2^56 less 2^56 - 1 is a number of one bigit. */
    static method LengthsMayDiffer() returns (a: Bignum, b: Bignum)
      ensures a.Valid() && b.Valid() && a.Value() == 1 && b.Value() == 0xFF_FFFF_FFFF_FFFF
      ensures a.BigitLength() < b.BigitLength()
    {
      hide Pow, Val, Scaled;
      a := new Bignum();
      b := new Bignum();
      a.AssignUInt64(0x100_0000_0000_0000);
      b.AssignUInt64(0xFF_FFFF_FFFF_FFFF);
      b.LongestOfTwo();
      var result := a.ReduceToLength(b);
      a.ShortRest(result);
    }

    lemma LongestOfTwo()
      requires Valid() && Value() == 0xFF_FFFF_FFFF_FFFF
      ensures usedDigits > 0 && BigitLength() == 2 && Pow(BASE, 1) == BASE
    {
      TwoBigits();
      hide Pow, Val;
      ZeroIff();
      LengthFromValue(2);
      LengthBounds();
    }

    lemma ShortRest(result: uint16)
      requires Valid() && BigitLength() <= 2 && 0x100_0000_0000_0000 == 0xFF_FFFF_FFFF_FFFF * result + Value()
      ensures Value() == 1 && BigitLength() <= 1
    {
      TwoBigits();
      hide Pow, Val;
      if usedDigits > 0 {
        LengthBounds();
        PowMonotone(BASE, BigitLength(), 2);
      } else {
        ZeroIff();
      }
      assert Value() < 0x100_0000_0000_0000;
      var q: int := result;
      assert 0xFF_FFFF_FFFF_FFFF * q <= 0x100_0000_0000_0000 && q > 0;
      assert q == 1;
      LengthFromValue(1);
    }

    static lemma TwoBigits()
      ensures Pow(BASE, 0) == 1 && Pow(BASE, 1) == BASE && Pow(BASE, 2) == 0x100_0000_0000_0000
    {
      assert Pow(BASE, 1) == BASE * Pow(BASE, 0);
      assert Pow(BASE, 2) == BASE * Pow(BASE, 1);
    }

    static lemma QuotientFits(v: nat, d: nat, q: nat)
      requires v < TWO_16 * d && d * q <= v
      ensures q < TWO_16
    {
      MulCancelStrict(q, TWO_16, d);
    }

    lemma LongEnough(other: Bignum)
      requires Valid() && other.Valid() && other.usedDigits > 0 && BigitLength() >= other.BigitLength()
      ensures usedDigits > 0
      ensures Pow(BASE, other.BigitLength() - 1) <= Value()
    {
      LengthBounds();
      PowMonotone(BASE, other.BigitLength() - 1, BigitLength() - 1);
    }

    /** The number whose bigits from the top one down are replaced by zeros, and the next multiple of its unit. */
    lemma TopBounds()
      requires Valid() && usedDigits > 0
      ensures 0 < Pow(BASE, BigitLength() - 1) <= bigits[usedDigits - 1] * Pow(BASE, BigitLength() - 1) <= Value()
      ensures Value() < (bigits[usedDigits - 1] + 1) * Pow(BASE, BigitLength() - 1)
      ensures bigits[usedDigits - 1] < BASE
    {
      var t, p, e := bigits[usedDigits - 1], Pow(BASE, usedDigits - 1), Pow(BASE, exponent);
      ValTop(bigits[..], usedDigits);
      PowAdd(BASE, usedDigits - 1, exponent);
      PowPositive(BASE, exponent);
      PowPositive(BASE, BigitLength() - 1);
      hide Pow, Val;
      MulAssoc(t, p, e);
      MulAssoc(t + 1, p, e);
      MulMonotone(t * p, Mantissa(), e);
      MulStrict(Mantissa(), (t + 1) * p, e);
      MulMonotone(1, t, Pow(BASE, BigitLength() - 1));
    }

    /** While this number is longer than the other, it is longer by one bigit, and its top bigit
        counts a multiple of the other number that can be taken away. */
    lemma ReduceLength(other: Bignum)
      requires Valid() && other.Valid() && other.usedDigits > 0 && BigitLength() > other.BigitLength()
      requires Value() < TWO_16 * other.Value()
      ensures usedDigits > 0
      ensures var top, len := bigits[usedDigits - 1], other.BigitLength();
              && 0 < top < TWO_16
              && 0 < other.Value() <= top * other.Value() <= Value()
              && Pow(BASE, len) <= (Value() - top * other.Value()) + other.Value()
    {
      var len := other.BigitLength();
      other.ZeroIff();
      other.LengthBounds();
      TopBounds();
      OneBigitLonger(other);
      hide Pow, Val;
      TakeTop(Value(), other.Value(), bigits[usedDigits - 1], Pow(BASE, len));
    }

    lemma OneBigitLonger(other: Bignum)
      requires Valid() && other.Valid() && other.usedDigits > 0 && BigitLength() > other.BigitLength()
      requires Value() < TWO_16 * other.Value()
      ensures BigitLength() == other.BigitLength() + 1
    {
      var len := other.BigitLength();
      other.LengthBounds();
      LengthBounds();
      if BigitLength() > len + 1 {
        PowMonotone(BASE, len + 1, BigitLength() - 1);
      }
    }

    static lemma TakeTop(v: nat, d: nat, top: nat, p: nat)
      requires 0 < d < p && 0 < top && top * p <= v < TWO_16 * d
      ensures top < TWO_16 && 0 < d <= top * d <= v && p <= (v - top * d) + d
    {
      MulCancelStrict(top, TWO_16, p);
      MulMonotone(1, top, d);
      MulMonotone(1, top, p - d);
      assert top * (p - d) == top * p - top * d;
    }

    lemma NonzeroRemainder(other: Bignum)
      requires Valid() && other.Valid() && other.usedDigits > 0
      requires Pow(BASE, other.BigitLength() - 1) <= Value()
        || Pow(BASE, other.BigitLength()) <= Value() + other.Value()
      ensures usedDigits > 0
    {
      ZeroIff();
      other.LengthBounds();
      PowPositive(BASE, other.BigitLength() - 1);
    }

    /** The part of the division that follows the length-reducing loop. This number need not be as
        long as the other one here; if it is shorter, the other number's top bigit is all ones. */
    method DivideSameLength(other: Bignum) returns (quotient: uint32)
      requires Valid() && other.Valid() && Apart(other) && other.usedDigits > 0 && usedDigits > 0
      requires exponent <= other.exponent && BigitLength() <= other.BigitLength()
      requires Pow(BASE, other.BigitLength() - 1) <= Value()
        || Pow(BASE, other.BigitLength()) <= Value() + other.Value()
      modifies this, bigits
      ensures Valid() && other.Valid() && other.Value() == old(other.Value())
      ensures old(Value()) == other.Value() * quotient + Value() && Value() < other.Value()
    {
      if other.usedDigits == 1 {
        quotient := DivideSingleBigit(other);
      } else {
        quotient := DivideByEstimate(other);
      }
    }

    /** The shortcut for a divisor with one bigit. */
    method DivideSingleBigit(other: Bignum) returns (quotient: uint32)
      requires Valid() && other.Valid() && Apart(other) && other.usedDigits == 1 && usedDigits > 0
      requires BigitLength() <= other.BigitLength()
      requires Pow(BASE, other.BigitLength() - 1) <= Value()
        || Pow(BASE, other.BigitLength()) <= Value() + other.Value()
      modifies this, bigits
      ensures Valid() && other.Valid() && other.Value() == old(other.Value())
      ensures old(Value()) == other.Value() * quotient + Value() && Value() < other.Value()
    {
      hide Pow, Val;
      var thisBigit := bigits[usedDigits - 1];
      var otherBigit := other.bigits[other.usedDigits - 1];
      SingleBigit(other);
      TopBounds();
      ghost var v, d, p := Value(), other.Value(), Pow(BASE, other.BigitLength() - 1);
      var rest: uint32;
      quotient, rest := DivideBigits(thisBigit, otherBigit);
      SingleBigitRemainder(v, d, thisBigit, otherBigit, quotient, rest, p);
      ReplaceTop(rest);
      Clamp();
    }

    /** Estimates the quotient from the top bigits and corrects it by repeated subtraction. */
    method DivideByEstimate(other: Bignum) returns (quotient: uint32)
      requires Valid() && other.Valid() && Apart(other) && other.usedDigits > 1 && usedDigits > 0
      requires exponent <= other.exponent && BigitLength() <= other.BigitLength()
      requires Pow(BASE, other.BigitLength() - 1) <= Value()
        || Pow(BASE, other.BigitLength()) <= Value() + other.Value()
      modifies this, bigits
      ensures Valid() && other.Valid() && other.Value() == old(other.Value())
      ensures old(Value()) == other.Value() * quotient + Value() && Value() < other.Value()
    {
      hide Pow, Val;
      ghost var v, d := Value(), other.Value();
      var thisBigit := bigits[usedDigits - 1];
      var otherBigit := other.bigits[other.usedDigits - 1];
      TopBounds();
      other.TopBounds();
      var divisionEstimate, exact := EstimateQuotient(thisBigit, otherBigit);
      TopEstimate(other, divisionEstimate, exact);
      SubtractTimes(other, divisionEstimate);
      quotient := divisionEstimate;
      if exact {
        // Not even a divisor with zeros below its top bigit could be subtracted once more.
        return;
      }
      quotient := CorrectQuotient(other, v, quotient);
    }

    static method EstimateQuotient(thisBigit: uint32, otherBigit: uint32) returns (estimate: uint32, exact: bool)
      requires 0 < thisBigit < BASE && 0 < otherBigit < BASE
      ensures estimate == thisBigit / (otherBigit + 1) && estimate < BASE
      ensures exact <==> otherBigit * (estimate + 1) > thisBigit
    {
      EstimateBound(thisBigit, otherBigit);
      estimate := thisBigit / (otherBigit + 1);
      var next: uint32 := otherBigit * (estimate + 1);
      exact := next > thisBigit;
    }

    /** Subtracts the other number, counting, until it no longer fits. */
    method CorrectQuotient(other: Bignum, ghost v: nat, estimate: uint32) returns (quotient: uint32)
      requires Valid() && other.Valid() && Apart(other) && exponent <= other.exponent
      requires 0 < other.Value() && v < BASE * other.Value()
      requires v == other.Value() * estimate + Value()
      modifies this, bigits
      ensures Valid()
      ensures v == other.Value() * quotient + Value() && Value() < other.Value()
    {
      hide Pow, Val;
      ghost var d := other.Value();
      quotient := estimate;
      var lessEqual := Compare(other, this);
      while lessEqual <= 0
        invariant Valid() && other.Valid() && exponent <= other.exponent
        invariant v == d * quotient + Value()
        invariant lessEqual == Sign(d - Value())
        decreases Value()
      {
        SubtractBignum(other);
        OneMore(v, d, quotient, Value());
        quotient := quotient + 1;
        lessEqual := Compare(other, this);
      }
    }

    static lemma OneMore(v: nat, d: nat, q: nat, r: nat)
      requires d > 0 && v < BASE * d && v == d * q + (r + d)
      ensures q + 1 < BASE && v == d * (q + 1) + r
    {
      MulCancelStrict(q + 1, BASE, d);
    }

    lemma SingleBigit(other: Bignum)
      requires Valid() && other.Valid() && other.usedDigits == 1 && usedDigits > 0
      requires BigitLength() <= other.BigitLength()
      requires Pow(BASE, other.BigitLength() - 1) <= Value()
        || Pow(BASE, other.BigitLength()) <= Value() + other.Value()
      ensures BigitLength() == other.BigitLength()
      ensures other.Value() == other.bigits[0] * Pow(BASE, other.BigitLength() - 1)
      ensures 0 < other.bigits[0] < BASE
    {
      var len := other.BigitLength();
      var p := Pow(BASE, len - 1);
      assert other.Value() == other.bigits[0] * p by {
        assert Val(other.bigits[..], 1) == Val(other.bigits[..], 0) + other.bigits[0] * Pow(BASE, 0);
      }
      assert Pow(BASE, len) == BASE * p;
      LengthBounds();
      hide Pow, Val;
      assert p <= Value() by {
        MulMonotone(other.bigits[0], BASE - 1, p);
      }
      if BigitLength() < len {
        PowMonotone(BASE, BigitLength(), len - 1);
      }
    }

    /** Writes a smaller top bigit. */
    method ReplaceTop(bigit: uint32)
      requires Valid() && usedDigits > 0 && bigit <= bigits[usedDigits - 1]
      modifies bigits
      ensures Clean()
      ensures Value() == old(Value()) - old(bigits[usedDigits - 1] - bigit) * Pow(BASE, old(BigitLength()) - 1)
    {
      ghost var t, n := bigits[..], usedDigits;
      ghost var gone := bigits[usedDigits - 1] - bigit;
      bigits[usedDigits - 1] := bigit;
      assert bigits[..] == t[n - 1 := bigit];
      ValUpdate(t, n - 1, bigit);
      TopChange(Val(t, n - 1), t[n - 1], bigit, n - 1, exponent);
    }

    static lemma TopChange(low: int, was: int, now: int, k: nat, e: nat)
      ensures (low + now * Pow(BASE, k)) * Pow(BASE, e)
        == (low + was * Pow(BASE, k)) * Pow(BASE, e) - (was - now) * Pow(BASE, k + e)
    {
      PowAdd(BASE, k, e);
      var p, q := Pow(BASE, k), Pow(BASE, e);
      MulAssoc(was - now, p, q);
      hide *;
      assert (low + was * p) * q - ((was - now) * p) * q == (low + now * p) * q;
    }

    static method DivideBigits(thisBigit: uint32, otherBigit: uint32) returns (quotient: uint32, rest: uint32)
      requires 0 < otherBigit
      ensures thisBigit == otherBigit * quotient + rest && rest < otherBigit && rest <= thisBigit
    {
      assert thisBigit == otherBigit * (thisBigit / otherBigit) + thisBigit % otherBigit;
      MulMonotone(1, otherBigit, thisBigit / otherBigit);
      quotient := thisBigit / otherBigit;
      rest := thisBigit - otherBigit as int * quotient as int;
    }

    static lemma SingleBigitRemainder(v: nat, d: nat, tb: nat, ob: nat, q: nat, r: nat, p: nat)
      requires 0 < ob && p > 0 && d == ob * p && tb == ob * q + r && r < ob
      requires tb * p <= v < (tb + 1) * p
      ensures (tb - r) * p == d * q && d * q <= v
      ensures v - d * q < d
    {
      MulAssoc(ob, q, p);
      MulAssoc(ob, p, q);
      assert (ob * q) * p == d * q by {
        assert q * p == p * q;
      }
      MulMonotone(r + 1, ob, p);
      MulMonotone(0, r, p);
      assert (tb + 1) * p == (ob * q) * p + (r + 1) * p;
    }

    /** The quotient of the top bigits is not too large, and it is exact when the next one would exceed the top. */
    lemma TopEstimate(other: Bignum, estimate: uint32, exact: bool)
      requires Valid() && other.Valid() && other.usedDigits > 1 && usedDigits > 0
      requires BigitLength() <= other.BigitLength()
      requires Pow(BASE, other.BigitLength() - 1) <= Value()
        || Pow(BASE, other.BigitLength()) <= Value() + other.Value()
      requires var tb, ob := bigits[usedDigits - 1], other.bigits[other.usedDigits - 1];
               0 <= ob < BASE && estimate == tb / (ob + 1) && (exact <==> ob * (estimate + 1) > tb)
      ensures 0 < other.Value() && Value() < BASE * other.Value()
      ensures estimate * other.Value() <= Value()
      ensures estimate * other.Value() == other.Value() * estimate
      ensures exact ==> Value() - estimate * other.Value() < other.Value()
    {
      var len := other.BigitLength();
      assert Pow(BASE, len) == BASE * Pow(BASE, len - 1);
      hide Pow, Val;
      var p, d, v := Pow(BASE, len - 1), other.Value(), Value();
      var tb, ob := bigits[usedDigits - 1], other.bigits[other.usedDigits - 1];
      TopBounds();
      other.TopBounds();
      LengthBounds();
      PowMonotone(BASE, BigitLength(), len);
      if BigitLength() == len {
        MulMonotone(p, d, BASE);
        EstimateFromTop(v, d, tb, ob, p);
      } else {
        PowMonotone(BASE, BigitLength(), len - 1);
        EstimateOfShorter(v, d, tb, ob, p);
      }
    }

    /** Only a divisor with top bigit BASE - 1 leaves a shorter number; the estimate is then zero. */
    static lemma EstimateOfShorter(v: nat, d: nat, tb: nat, ob: nat, p: nat)
      requires 0 < p && tb < BASE && ob < BASE
      requires v < p && BASE * p <= v + d && ob * p <= d < (ob + 1) * p
      ensures tb / (ob + 1) == 0 && v < d && v < BASE * d
    {
      if ob + 1 < BASE {
        MulMonotone(ob + 1, BASE - 1, p);
      }
      DivUnique(tb, ob + 1, 0, tb);
    }

    static lemma EstimateFromTop(v: nat, d: nat, tb: nat, ob: nat, p: nat)
      requires 0 < p && 0 < ob
      requires tb * p <= v < (tb + 1) * p
      requires ob * p <= d < (ob + 1) * p
      ensures var estimate := tb / (ob + 1);
              estimate * d <= v && (ob * (estimate + 1) > tb ==> v - estimate * d < d)
    {
      var estimate := tb / (ob + 1);
      MulMonotone(d, (ob + 1) * p, estimate);
      MulAssoc(estimate, ob + 1, p);
      MulMonotone(estimate * (ob + 1), tb, p);
      if ob * (estimate + 1) > tb {
        MulMonotone(tb + 1, ob * (estimate + 1), p);
        MulMonotone(ob * p, d, estimate + 1);
        MulAssoc(estimate + 1, ob, p);
      }
    }

    static lemma EstimateBound(tb: uint32, ob: uint32)
      requires 0 < ob < BASE && tb < BASE
      ensures 0 <= tb / (ob + 1) < BASE
      ensures 0 <= ob * (tb / (ob + 1) + 1) < TWO_32
    {
      var q := tb / (ob + 1);
      assert (ob + 1) * q <= tb;
      assert ob * (q + 1) == (ob + 1) * q - q + ob;
      MulMonotone(0, q + 1, ob);
    }
    // ---- Squares and powers ----

    /** Adds column i, for i below the number of bigits, to the accumulator. The bigits are read from
        their copy, which starts at copyOffset. */
    method AddLowColumn(ghost s: seq<uint32>, copyOffset: nat, i: nat, acc: uint64) returns (accumulator: uint64)
      requires bigits.Length == CAPACITY && usedDigits <= |s| && 2 * usedDigits <= CAPACITY
      requires copyOffset == usedDigits && i < usedDigits && AllBigits(s, usedDigits)
      requires forall j :: usedDigits <= j < 2 * usedDigits ==> bigits[j] == s[j - usedDigits]
      requires acc <= usedDigits * BASE
      ensures accumulator == acc + Column(s, usedDigits, usedDigits, i)
    {
      hide ColumnTerm, Column;
      ghost var n := usedDigits;
      var index1: int, index2: int := i, 0;
      accumulator := acc;
      ColumnOfNothing(s, n, i);
      while index1 >= 0
        invariant -1 <= index1 && index1 + index2 == i && index2 <= n
        invariant accumulator == acc + Column(s, n, index2, i)
      {
        var chunk1, chunk2 := bigits[copyOffset + index1], bigits[copyOffset + index2];
        AccumulatorFits(s, n, index2 + 1, i, acc);
        ColumnNext(s, n, index2, i);
        accumulator := accumulator + chunk1 as int * chunk2 as int;
        index1, index2 := index1 - 1, index2 + 1;
      }
      ColumnEnd(s, n, i, n);
    }

    /** The same for the columns from the number of bigits on, whose copies are still to be read. */
    method AddHighColumn(ghost s: seq<uint32>, copyOffset: nat, i: nat, acc: uint64) returns (accumulator: uint64)
      requires bigits.Length == CAPACITY && usedDigits <= |s| && 2 * usedDigits <= CAPACITY
      requires copyOffset == usedDigits <= i < 2 * usedDigits && AllBigits(s, usedDigits)
      requires forall j :: i <= j < 2 * usedDigits ==> bigits[j] == s[j - usedDigits]
      requires acc <= usedDigits * BASE
      ensures accumulator == acc + Column(s, usedDigits, usedDigits, i)
    {
      hide ColumnTerm, Column;
      ghost var n := usedDigits;
      var index1 := usedDigits - 1;
      var index2 := i - index1;
      accumulator := acc;
      ColumnStart(s, n, i, index2);
      while index2 < usedDigits
        invariant index1 + index2 == i && i - n < index2 <= n
        invariant accumulator == acc + Column(s, n, index2, i)
      {
        var chunk1, chunk2 := bigits[copyOffset + index1], bigits[copyOffset + index2];
        AccumulatorFits(s, n, index2 + 1, i, acc);
        ColumnNext(s, n, index2, i);
        accumulator := accumulator + chunk1 as int * chunk2 as int;
        index1, index2 := index1 - 1, index2 + 1;
      }
    }

    static lemma ColumnOfNothing(s: seq<uint32>, n: nat, k: nat)
      requires n <= |s|
      ensures Column(s, n, 0, k) == 0
    {
    }

    static lemma AccumulatorFits(s: seq<uint32>, n: nat, m: nat, k: nat, acc: nat)
      requires m <= n <= |s| && AllBigits(s, n) && 2 * n <= CAPACITY && acc <= n * BASE
      ensures 0 <= acc + Column(s, n, m, k) < TWO_64
      ensures (acc + Column(s, n, m, k)) / BASE <= n * BASE
    {
      ColumnBound(s, n, m, k);
      MulMonotone(m, n, (BASE - 1) * (BASE - 1));
      DivBelow(acc + Column(s, n, m, k), n * BASE + 1, BASE);
    }

    /** Replaces the number by its square. */
    method Square()
      requires Valid() && 2 * usedDigits <= CAPACITY
      modifies this, bigits
      ensures Valid() && Value() == old(Value()) * old(Value())
      ensures old(exponent) == 0 ==> exponent == 0
    {
      hide CarryDenotes, Pow, Column, Columns, Val;
      ghost var s, n := bigits[..], usedDigits;
      var productLength := 2 * usedDigits;
      var copyOffset := usedDigits;
      CopyUp(copyOffset);
      var accumulator := LowHalf(s, copyOffset);
      accumulator := HighHalf(s, copyOffset, accumulator);
      SquareEnd(bigits[..], s, n, accumulator);
      SquareValue(Val(s, n), exponent);
      usedDigits := productLength;
      exponent := exponent * 2;
      Clamp();
    }

    /** Copies the bigits up, so that the product can be written over the originals. */
    method CopyUp(copyOffset: nat)
      requires Clean() && copyOffset == usedDigits && 2 * usedDigits <= CAPACITY
      modifies bigits
      ensures forall j :: usedDigits <= j < 2 * usedDigits ==> bigits[j] == old(bigits[j - usedDigits])
      ensures forall j :: 2 * usedDigits <= j < CAPACITY ==> bigits[j] == 0
    {
      for i := 0 to usedDigits
        invariant forall j :: copyOffset <= j < copyOffset + i ==> bigits[j] == old(bigits[j - copyOffset])
        invariant forall j :: 0 <= j < usedDigits || copyOffset + i <= j < CAPACITY ==> bigits[j] == old(bigits[j])
      {
        bigits[copyOffset + i] := bigits[i];
      }
    }

    /** The columns below the number of bigits. */
    method LowHalf(ghost s: seq<uint32>, copyOffset: nat) returns (accumulator: uint64)
      requires bigits.Length == CAPACITY && usedDigits <= |s| && 2 * usedDigits <= CAPACITY
      requires copyOffset == usedDigits && AllBigits(s, usedDigits)
      requires forall j :: usedDigits <= j < 2 * usedDigits ==> bigits[j] == s[j - usedDigits]
      modifies bigits
      ensures forall j :: usedDigits <= j < CAPACITY ==> bigits[j] == old(bigits[j])
      ensures AllBigits(bigits[..], usedDigits)
      ensures accumulator <= usedDigits * BASE
      ensures CarryDenotes(bigits[..], usedDigits, accumulator, Columns(s, usedDigits, usedDigits, usedDigits))
    {
      SquareStart(bigits[..], s, usedDigits);
      hide CarryDenotes, Pow, Column, Columns, Val;
      accumulator := 0;
      for i := 0 to usedDigits
        invariant AllBigits(bigits[..], i)
        invariant forall j :: usedDigits <= j < CAPACITY ==> bigits[j] == old(bigits[j])
        invariant accumulator <= usedDigits * BASE
        invariant CarryDenotes(bigits[..], i, accumulator, Columns(s, usedDigits, usedDigits, i))
      {
        ghost var acc := accumulator;
        accumulator := AddLowColumn(s, copyOffset, i, accumulator);
        accumulator := StoreColumn(s, i, acc, accumulator);
      }
    }

    /** The remaining columns; each overwrites a copy that is not read again. */
    method HighHalf(ghost s: seq<uint32>, copyOffset: nat, acc0: uint64) returns (accumulator: uint64)
      requires bigits.Length == CAPACITY && usedDigits <= |s| && 2 * usedDigits <= CAPACITY
      requires copyOffset == usedDigits && AllBigits(s, usedDigits) && AllBigits(bigits[..], usedDigits)
      requires forall j :: usedDigits <= j < 2 * usedDigits ==> bigits[j] == s[j - usedDigits]
      requires acc0 <= usedDigits * BASE
      requires CarryDenotes(bigits[..], usedDigits, acc0, Columns(s, usedDigits, usedDigits, usedDigits))
      modifies bigits
      ensures forall j :: 2 * usedDigits <= j < CAPACITY ==> bigits[j] == old(bigits[j])
      ensures AllBigits(bigits[..], 2 * usedDigits)
      ensures CarryDenotes(bigits[..], 2 * usedDigits, accumulator, Columns(s, usedDigits, usedDigits, 2 * usedDigits))
    {
      hide CarryDenotes, Pow, Column, Columns, Val;
      accumulator := acc0;
      for i := usedDigits to 2 * usedDigits
        invariant AllBigits(bigits[..], i)
        invariant forall j :: i <= j < 2 * usedDigits ==> bigits[j] == s[j - usedDigits]
        invariant forall j :: 2 * usedDigits <= j < CAPACITY ==> bigits[j] == old(bigits[j])
        invariant accumulator <= usedDigits * BASE
        invariant CarryDenotes(bigits[..], i, accumulator, Columns(s, usedDigits, usedDigits, i))
      {
        ghost var acc := accumulator;
        accumulator := AddHighColumn(s, copyOffset, i, accumulator);
        accumulator := StoreColumn(s, i, acc, accumulator);
      }
    }

    /** Moves the low bigit of the accumulator to cell i. */
    method StoreColumn(ghost s: seq<uint32>, i: nat, ghost acc: uint64, accumulator: uint64) returns (rest: uint64)
      requires bigits.Length == CAPACITY && usedDigits <= |s| && 2 * usedDigits <= CAPACITY
      requires i < 2 * usedDigits && AllBigits(s, usedDigits) && AllBigits(bigits[..], i)
      requires acc <= usedDigits * BASE
      requires CarryDenotes(bigits[..], i, acc, Columns(s, usedDigits, usedDigits, i))
      requires accumulator == acc + Column(s, usedDigits, usedDigits, i)
      modifies bigits
      ensures bigits[..] == old(bigits[..])[i := bigits[i]] && bigits[i] < BASE
      ensures AllBigits(bigits[..], i + 1)
      ensures rest <= usedDigits * BASE
      ensures CarryDenotes(bigits[..], i + 1, rest, Columns(s, usedDigits, usedDigits, i + 1))
    {
      hide CarryDenotes, Pow, Column, Columns, Val;
      ghost var t, n := bigits[..], usedDigits;
      CarryAddColumn(t, s, n, i, acc);
      AccumulatorFits(s, n, n, i, acc);
      WrapTwice(accumulator, 0);
      bigits[i] := Wrap32(accumulator) % BASE;
      assert bigits[..] == t[i := bigits[i]];
      CarrySplit(t, i, accumulator, Columns(s, n, n, i + 1), bigits[i]);
      rest := accumulator / BASE;
    }

    static lemma SquareStart(t: seq<uint32>, s: seq<uint32>, n: nat)
      requires n <= |s|
      ensures CarryDenotes(t, 0, 0, Columns(s, n, n, 0))
    {
    }

    /** The product fits into its cells, so the accumulator ends at zero. */
    static lemma SquareEnd(t: seq<uint32>, s: seq<uint32>, n: nat, acc: nat)
      requires n <= |s| && 2 * n <= |t| && AllBigits(s, n)
      requires CarryDenotes(t, 2 * n, acc, Columns(s, n, n, 2 * n))
      ensures acc == 0 && Val(t, 2 * n) == Val(s, n) * Val(s, n)
    {
      ColumnsProduct(s, n, n);
      ValBound(s, n);
      MulMonotone(Val(s, n), Pow(BASE, n), Val(s, n));
      PowPositive(BASE, n);
      MulStrict(Val(s, n), Pow(BASE, n), Pow(BASE, n));
      PowAdd(BASE, n, n);
      if acc > 0 {
        CarryFits(t, 2 * n, acc, Val(s, n) * Val(s, n), 2 * n);
      }
      CarryNone(t, 2 * n, Val(s, n) * Val(s, n));
    }

    static lemma SquareValue(m: nat, e: nat)
      ensures (m * m) * Pow(BASE, e * 2) == (m * Pow(BASE, e)) * (m * Pow(BASE, e))
    {
      PowAdd(BASE, e, e);
      MulRegroup(m, m, Pow(BASE, e), Pow(BASE, e));
    }
    /** Multiplies by powers of five and shifts. */
    method MultiplyByPowerOfTen(power: nat, ghost limit: nat := CAPACITY - 1)
      requires Valid() && limit < CAPACITY
      requires Mantissa() * Pow(5, power) < Pow(BASE, limit)
      modifies this, bigits
      ensures Valid() && Value() == old(Value()) * Pow(10, power)
      ensures old(usedDigits) > 0 ==> exponent == old(exponent) + power / BIGIT_SIZE
      ensures old(usedDigits) == 0 ==> exponent == 0 && usedDigits == 0
      ensures usedDigits <= limit + 1
    {
      if power == 0 {
        FewDigits(limit);
        return;
      }
      if usedDigits == 0 {
        return;
      }
      hide Pow, Val, Fives;
      ghost var m, v := Mantissa(), Value();
      MantissaPositive();
      PowMonotone(BASE, limit, CAPACITY - 1);
      MultiplyByPowerOfFive(power);
      FivesAndTwos(m, v, power);
      ProductLength(m, power, limit);
      ShiftLeft(power);
    }

    lemma MantissaPositive()
      requires Valid() && usedDigits > 0
      ensures Mantissa() > 0
    {
      LengthBounds();
      PowPositive(BASE, usedDigits - 1);
    }

    method MultiplyByPowerOfFive(power: nat)
      requires Valid()
      requires Mantissa() * Pow(5, power) < Pow(BASE, CAPACITY - 1)
      modifies this, bigits
      ensures Valid() && exponent == old(exponent)
      ensures Mantissa() == Fives(old(Mantissa()), power) && Value() == Fives(old(Value()), power)
    {
      hide Pow, Val, Fives;
      ghost var m, v := Mantissa(), Value();
      FivePowers();
      FiveStart(m, v);
      var remaining: nat := power;
      while remaining >= 27
        invariant Valid() && remaining <= power && exponent == old(exponent)
        invariant Mantissa() == Fives(m, power - remaining) && Value() == Fives(v, power - remaining)
      {
        FiveStep(m, power, remaining, 27);
        FiveStep(v, power, remaining, 27);
        FiveRoom(m, power, remaining, 27);
        MultiplyByUInt64(FIVE_27);
        remaining := remaining - 27;
      }
      while remaining >= 13
        invariant Valid() && remaining <= power && exponent == old(exponent)
        invariant Mantissa() == Fives(m, power - remaining) && Value() == Fives(v, power - remaining)
      {
        FiveStep(m, power, remaining, 13);
        FiveStep(v, power, remaining, 13);
        FiveRoom(m, power, remaining, 13);
        MultiplyByUInt32(FIVE_13);
        remaining := remaining - 13;
      }
      if remaining > 0 {
        FiveStep(m, power, remaining, remaining);
        FiveStep(v, power, remaining, remaining);
        FiveRoom(m, power, remaining, remaining);
        MultiplyByUInt32(FIVE_1_TO_12[remaining - 1]);
        assert power - (remaining - remaining) == power;
      }
    }

    lemma FewDigits(limit: nat)
      requires Valid() && Mantissa() * Pow(5, 0) < Pow(BASE, limit)
      ensures usedDigits <= limit
    {
      if usedDigits > 0 {
        LengthBounds();
        PowOrder(BASE, usedDigits - 1, limit);
      }
    }

    lemma ProductLength(m: nat, power: nat, limit: nat)
      requires Valid() && m > 0 && Mantissa() == Fives(m, power) && m * Pow(5, power) < Pow(BASE, limit)
      ensures 0 < usedDigits <= limit
    {
      PowPositive(5, power);
      MulPositive(m, Pow(5, power));
      assert usedDigits > 0;
      LengthBounds();
      PowOrder(BASE, usedDigits - 1, limit);
    }

    static ghost function Fives(x: int, k: nat): int
    {
      x * Pow(5, k)
    }

    static lemma FiveStart(m: int, v: int)
      ensures m == Fives(m, 0) && v == Fives(v, 0)
    {
    }

    static lemma FivesAndTwos(m: int, v: int, power: nat)
      ensures Fives(v, power) * Pow(2, power) == v * Pow(10, power)
      ensures Fives(m, power) == m * Pow(5, power)
    {
      PowProduct(5, 2, power);
      MulAssoc(v, Pow(5, power), Pow(2, power));
    }

    static lemma FiveStep(x: int, power: nat, remaining: nat, k: nat)
      requires k <= remaining <= power
      ensures Fives(x, power - remaining) * Pow(5, k) == Fives(x, power - (remaining - k))
    {
      PowAdd(5, power - remaining, k);
      MulAssoc(x, Pow(5, power - remaining), Pow(5, k));
    }

    static lemma FiveRoom(m: nat, power: nat, remaining: nat, k: nat)
      requires k <= remaining <= power
      requires m * Pow(5, power) < Pow(BASE, CAPACITY - 1)
      ensures Fives(m, power - (remaining - k)) < Pow(BASE, CAPACITY)
    {
      PowMonotone(5, power - (remaining - k), power);
      MulMonotone(Pow(5, power - (remaining - k)), Pow(5, power), m);
      PowMonotone(BASE, CAPACITY - 1, CAPACITY);
    }

    static lemma FivePowers()
      ensures Pow(5, 27) == FIVE_27 && Pow(5, 13) == FIVE_13
      ensures forall i :: 0 <= i < 12 ==> FIVE_1_TO_12[i] == Pow(5, i + 1)
    {
      assert Pow(5, 1) == 5 && Pow(5, 2) == 25 && Pow(5, 3) == 125;
      assert Pow(5, 4) == 625 && Pow(5, 5) == 3125 && Pow(5, 6) == 15625;
      assert Pow(5, 7) == 78125 && Pow(5, 8) == 390625 && Pow(5, 9) == 1953125;
      assert Pow(5, 10) == 9765625 && Pow(5, 11) == 48828125 && Pow(5, 12) == 244140625;
      PowAdd(5, 13, 14);
    }

    // The loops of AssignPowerUInt16, one method each.

    static method StripTwos(b: uint16) returns (odd: uint16, shifts: nat)
      requires b != 0
      ensures odd == OddPart(b) && odd % 2 == 1 && b == odd * Pow(2, shifts)
    {
      odd, shifts := b, 0;
      while odd % 2 == 0
        invariant 0 < odd && OddPart(odd) == OddPart(b) && b == odd * Pow(2, shifts)
        decreases odd
      {
        MulAssoc(odd / 2, 2, Pow(2, shifts));
        odd := odd / 2;
        shifts := shifts + 1;
      }
    }

    static method CountBits(b: uint16) returns (bitSize: nat)
      ensures bitSize == BitSize(b)
    {
      bitSize := 0;
      var rest := b;
      while rest != 0
        invariant 0 <= rest && bitSize + BitSize(rest) == BitSize(b)
        decreases rest
      {
        rest := rest / 2;
        bitSize := bitSize + 1;
      }
    }

    /** The smallest power of two above the exponent. */
    static method MaskAbove(powerExponent: nat) returns (mask: nat, ghost k: nat)
      requires powerExponent > 0
      ensures k > 0 && mask == Pow(2, k) && Pow(2, k - 1) <= powerExponent < mask
    {
      mask, k := 1, 0;
      while powerExponent >= mask
        invariant mask == Pow(2, k) && (k > 0 ==> Pow(2, k - 1) <= powerExponent)
        decreases 2 * powerExponent - mask
      {
        mask := mask * 2;
        k := k + 1;
      }
    }

    /** The bits of the exponent above the mask, then the bit under it. */
    static lemma NextBit(powerExponent: nat, j: nat)
      requires j > 0
      ensures Pow(2, j) > 0 && Pow(2, j - 1) > 0 && Pow(2, j) / 2 == Pow(2, j - 1)
      ensures powerExponent / Pow(2, j - 1) == 2 * (powerExponent / Pow(2, j)) + (powerExponent / Pow(2, j - 1)) % 2
      ensures powerExponent / Pow(2, j) <= powerExponent / Pow(2, j - 1) <= powerExponent
    {
      PowPositive(2, j - 1);
      assert Pow(2, j) == 2 * Pow(2, j - 1);
      DivByProduct(powerExponent, Pow(2, j - 1), 2);
      var q := powerExponent / Pow(2, j - 1);
      MulMonotone(1, Pow(2, j - 1), q);
    }

    /** Squaring doubles the exponent reached so far; an odd bit adds one more factor. */
    static lemma PowerStep(b: nat, q: nat)
      ensures Pow(b, q) * Pow(b, q) == Pow(b, 2 * q)
      ensures Pow(b, 2 * q) * b == Pow(b, 2 * q + 1)
    {
      PowAdd(b, q, q);
    }

    /** The phase of the exponentiation that runs in 64-bit arithmetic. If the last multiplication does not
        fit, it is left to the caller. */
    static method PowerIn64Bits(b: uint16, bitSize: nat, powerExponent: nat, startMask: nat, ghost start: nat)
      returns (thisValue: uint64, mask: nat, delayed: bool, ghost j: nat)
      requires b % 2 == 1 && bitSize == BitSize(b)
      requires Pow(2, start) <= powerExponent < Pow(2, start + 1) && startMask == Pow(2, start) / 2
      ensures mask == Pow(2, j) / 2 && Pow(2, j) > 0
      ensures thisValue * (if delayed then b else 1) == Pow(b, powerExponent / Pow(2, j))
    {
      hide Pow, BitSize;
      FirstBit(b, powerExponent, start);
      thisValue, delayed, mask, j := b, false, startMask, start;
      while mask != 0 && thisValue < TWO_32
        invariant Pow(2, j) > 0 && mask == Pow(2, j) / 2
        invariant delayed ==> thisValue >= TWO_32
        invariant thisValue * (if delayed then b else 1) == Pow(b, powerExponent / Pow(2, j))
        decreases j
      {
        OneBelow(j);
        NextBit(powerExponent, j);
        var odd := (powerExponent / mask) % 2 == 1;
        thisValue, delayed := SquareAndMultiply(b, bitSize, thisValue, odd, powerExponent / Pow(2, j));
        mask, j := mask / 2, j - 1;
      }
    }

    static lemma FirstBit(b: nat, powerExponent: nat, start: nat)
      requires Pow(2, start) <= powerExponent < Pow(2, start + 1)
      ensures Pow(2, start) > 0 && powerExponent / Pow(2, start) == 1 && Pow(b, 1) == b
    {
      PowPositive(2, start);
      DivUnique(powerExponent, Pow(2, start), 1, powerExponent - Pow(2, start));
    }

    static lemma SquareFits(v: nat)
      requires v < TWO_32
      ensures 0 <= v * v < TWO_64
    {
      MulMonotone(0, v, v);
      MulMonotone(v, TWO_32 - 1, v);
      MulMonotone(v, TWO_32 - 1, TWO_32 - 1);
    }

    /** The body of the loop above: doubles the exponent q reached so far, and adds one for an odd bit. */
    static method SquareAndMultiply(b: uint16, bitSize: nat, v: uint64, odd: bool, ghost q: nat)
      returns (thisValue: uint64, delayed: bool)
      requires 0 < b && bitSize == BitSize(b) && v < TWO_32 && v == Pow(b, q)
      ensures thisValue * (if delayed then b else 1) == Pow(b, 2 * q + (if odd then 1 else 0))
      ensures delayed ==> thisValue >= TWO_32
    {
      hide Pow, BitSize;
      PowerStep(b, q);
      SquareFits(v);
      thisValue, delayed := v as int * v as int, false;
      if odd {
        thisValue, delayed := OddFactor(b, bitSize, thisValue);
      }
    }

    /** Multiplies by b if the high bits are free. */
    static method OddFactor(b: uint16, bitSize: nat, v: uint64) returns (thisValue: uint64, delayed: bool)
      requires 0 < b && bitSize == BitSize(b)
      ensures thisValue * (if delayed then b else 1) == v * b
      ensures delayed ==> thisValue >= TWO_32
    {
      hide Pow, BitSize;
      BitSizeBound(b);
      PowAdd(2, 64 - bitSize, bitSize);
      PowPositive(2, 64 - bitSize);
      SixtyFour();
      var highBitsZero := v / Pow(2, 64 - bitSize) == 0;
      if highBitsZero {
        FactorFits(v, b, Pow(2, 64 - bitSize), Pow(2, bitSize));
        return v * b, false;
      } else {
        PowMonotone(2, 32, 64 - bitSize);
        HighBitsSet(v, Pow(2, 64 - bitSize));
        return v, true;
      }
    }

    static lemma FactorFits(v: nat, b: nat, x: nat, y: nat)
      requires x > 0 && v / x == 0 && b < y && x * y == TWO_64
      ensures 0 <= v * b < TWO_64
    {
      assert v < x;
      MulMonotone(0, v, b);
      MulMonotone(v, x, b);
      MulStrict(b, y, x);
    }

    static lemma HighBitsSet(v: nat, x: nat)
      requires x >= TWO_32 && v / x != 0
      ensures v >= TWO_32
    {
    }

    static lemma SixtyFour()
      ensures Pow(2, 64) == TWO_64 && Pow(2, 32) == TWO_32 && Pow(2, 16) == TWO_16
    {
      assert Pow(2, 8) == 256;
      PowAdd(2, 8, 8);
      PowAdd(2, 16, 16);
      PowAdd(2, 32, 32);
    }

    static lemma {:induction false} BitSizeBound(b: nat)
      requires b > 0
      ensures b < Pow(2, BitSize(b)) && Pow(2, BitSize(b) - 1) <= b && BitSize(b) > 0
      ensures b < TWO_16 ==> BitSize(b) <= 16
    {
      if b > 1 {
        BitSizeBound(b / 2);
      }
      SixtyFour();
      if b < TWO_16 && BitSize(b) > 16 {
        PowMonotone(2, 16, BitSize(b) - 1);
      }
    }

    /** Every power that occurs on the way stays below BASE^(CAPACITY - 1). */
    static lemma PowerRoom(b: nat, q: nat, powerExponent: nat)
      requires b > 0 && q <= powerExponent
      requires BitSize(b) * powerExponent / BIGIT_SIZE + 2 <= CAPACITY
      ensures Pow(b, q) <= Pow(2, BitSize(b) * q) && Pow(b, q) < Pow(BASE, CAPACITY - 1) < Pow(BASE, CAPACITY)
    {
      hide Pow, BitSize;
      BitSizeBound(b);
      PowBaseMonotone(b, Pow(2, BitSize(b)), q);
      PowTimes(2, BitSize(b), q);
      MulMonotone(q, powerExponent, BitSize(b));
      MulMonotone(0, q, BitSize(b));
      SmallPower(BitSize(b) * q);
    }

    static lemma SmallPower(m: nat)
      requires m < BIGIT_SIZE * (CAPACITY - 1)
      ensures Pow(2, m) < Pow(BASE, CAPACITY - 1) < Pow(BASE, CAPACITY)
    {
      PowTwoBase(CAPACITY - 1);
      PowMonotone(2, m + 1, BIGIT_SIZE * (CAPACITY - 1));
      PowPositive(2, m);
      PowPositive(BASE, CAPACITY - 1);
    }

    /** The square of a power that is at most the wanted one has enough cells. */
    lemma SquareRoom(b: nat, q: nat, powerExponent: nat)
      requires Valid() && exponent == 0 && Value() == Pow(b, q)
      requires b > 0 && 2 * q <= powerExponent
      requires BitSize(b) * powerExponent / BIGIT_SIZE + 2 <= CAPACITY
      ensures 2 * usedDigits <= CAPACITY
    {
      hide Pow, Val, BitSize;
      PowerRoom(b, q, powerExponent);
      PowPositive(b, q);
      ZeroIff();
      LengthBounds();
      PowTwoBase(usedDigits - 1);
      PowTwoOrder(BIGIT_SIZE * (usedDigits - 1), BitSize(b) * q);
      MulMonotone(2 * q, powerExponent, BitSize(b));
      assert BitSize(b) * (2 * q) == 2 * (BitSize(b) * q);
    }

    static lemma PowTwoOrder(m: nat, n: nat)
      requires Pow(2, m) <= Pow(2, n)
      ensures m <= n
    {
      if n < m {
        PowMonotone(2, n + 1, m);
        PowPositive(2, n);
      }
    }

    /** Assigns b^powerExponent. */
    method AssignPowerUInt16(b: uint16, powerExponent: nat)
      requires Clean() && b != 0
      requires BitSize(OddPart(b)) * powerExponent / BIGIT_SIZE + 2 <= CAPACITY
      modifies this, bigits
      ensures Valid() && Value() == Pow(b, powerExponent)
    {
      if powerExponent == 0 {
        AssignUInt16(1);
        return;
      }
      hide Pow, Val, BitSize, Scaled;
      Zero();
      var odd, shifts := StripTwos(b);
      AssignOddPower(odd, powerExponent);
      PowerRoom(odd, powerExponent, powerExponent);
      LengthFromValue(CAPACITY - 1);
      OddAndTwos(b, odd, shifts, powerExponent);
      ShiftLeft(shifts * powerExponent);
    }

    static lemma OddAndTwos(b: nat, odd: nat, shifts: nat, powerExponent: nat)
      requires b == odd * Pow(2, shifts)
      ensures shifts * powerExponent >= 0
      ensures Pow(odd, powerExponent) * Pow(2, shifts * powerExponent) == Pow(b, powerExponent)
    {
      MulMonotone(0, shifts, powerExponent);
      PowProduct(odd, Pow(2, shifts), powerExponent);
      PowTimes(2, shifts, powerExponent);
    }

    method AssignOddPower(odd: uint16, powerExponent: nat)
      requires Clean() && odd % 2 == 1 && powerExponent > 0
      requires BitSize(odd) * powerExponent / BIGIT_SIZE + 2 <= CAPACITY
      modifies this, bigits
      ensures Valid() && Value() == Pow(odd, powerExponent)
    {
      hide Pow, Val, BitSize;
      var bitSize := CountBits(odd);
      var mask, k := MaskAbove(powerExponent);
      HalfTwice(k);
      var thisValue, rest, delayed, j := PowerIn64Bits(odd, bitSize, powerExponent, mask / 4, k - 1);
      NonNegativeQuotient(powerExponent, j);
      PowerRoom(odd, powerExponent / Pow(2, j), powerExponent);
      AssignUInt64(thisValue);
      MantissaOf();
      if delayed {
        MultiplyByUInt32(odd);
      }
      FinishPower(odd, powerExponent, rest, j);
    }

    /** The phase of the exponentiation that works on this number. */
    method FinishPower(odd: uint16, powerExponent: nat, startMask: nat, ghost start: nat)
      requires Valid() && exponent == 0 && odd > 0
      requires BitSize(odd) * powerExponent / BIGIT_SIZE + 2 <= CAPACITY
      requires Pow(2, start) > 0 && startMask == Pow(2, start) / 2
      requires Value() == Pow(odd, powerExponent / Pow(2, start))
      modifies this, bigits
      ensures Valid() && Value() == Pow(odd, powerExponent)
    {
      hide Pow, Val, BitSize;
      var mask := startMask;
      ghost var j := start;
      while mask != 0
        invariant Valid() && exponent == 0
        invariant Pow(2, j) > 0 && mask == Pow(2, j) / 2
        invariant Value() == Pow(odd, powerExponent / Pow(2, j))
        decreases j
      {
        OneBelow(j);
        NextBit(powerExponent, j);
        ghost var q := powerExponent / Pow(2, j);
        PowerStep(odd, q);
        SquareRoom(odd, q, powerExponent);
        Square();
        MantissaOf();
        if (powerExponent / mask) % 2 == 1 {
          PowerRoom(odd, 2 * q + 1, powerExponent);
          MultiplyByUInt32(odd);
        }
        mask, j := mask / 2, j - 1;
      }
      OneBelow(j);
    }

    lemma MantissaOf()
      requires Clean() && exponent == 0
      ensures Mantissa() == Value()
    {
    }

    static lemma OneBelow(j: nat)
      ensures Pow(2, j) / 2 != 0 ==> j > 0
      ensures Pow(2, j) / 2 == 0 ==> j == 0 && Pow(2, j) == 1
    {
      if j > 0 {
        PowPositive(2, j - 1);
      }
    }

    static lemma HalfTwice(k: nat)
      requires k > 0
      ensures Pow(2, k) / 4 == Pow(2, k - 1) / 2
    {
    }

    static lemma NonNegativeQuotient(x: nat, j: nat)
      ensures Pow(2, j) > 0 && 0 <= x / Pow(2, j) <= x
    {
      PowPositive(2, j);
      hide Pow;
      QuotientBelow(x, Pow(2, j));
    }

    static lemma QuotientBelow(x: nat, d: nat)
      requires d > 0
      ensures 0 <= x / d <= x
    {
      MulMonotone(1, d, x / d);
    }

    // ---- Decimal strings ----

    static method ReadUInt64(buffer: string, from: nat, digitsToRead: nat) returns (result: uint64)
      requires AllDigits(buffer) && from + digitsToRead <= |buffer| && digitsToRead <= 19
      ensures result == Decimal(buffer[from..from + digitsToRead])
    {
      result := 0;
      for i := from to from + digitsToRead
        invariant result == Decimal(buffer[from..i])
      {
        var digit := DigitOf(buffer[i]);
        assert buffer[from..i + 1] == buffer[from..i] + [buffer[i]];
        DecimalSnoc(buffer[from..i], buffer[i]);
        DecimalBound(buffer[from..i + 1]);
        PowMonotone(10, i + 1 - from, 19);
        NineteenDigits();
        result := result * 10 + digit;
      }
    }

    static lemma NineteenDigits()
      ensures Pow(10, 19) < TWO_64
    {
      assert Pow(10, 5) == 100000;
      PowAdd(10, 5, 5);
      PowAdd(10, 10, 5);
      PowAdd(10, 15, 4);
      assert Pow(10, 4) == 10000;
    }

    method AssignDecimalString(value: string)
      requires Clean() && AllDigits(value)
      requires Pow(10, |value|) < Pow(BASE, CAPACITY - 3)
      modifies this, bigits
      ensures Valid() && Value() == Decimal(value)
    {
      hide Pow, Val;
      Zero();
      var length: nat := |value|;
      var pos: nat := 0;
      assert value[..0] == [];
      while length >= 19
        invariant 0 <= pos && 0 <= length && pos + length == |value|
        invariant Valid() && Value() == Decimal(value[..pos])
      {
        var digits := ReadUInt64(value, pos, 19);
        AppendDigits(value, pos, 19);
        pos := pos + 19;
        length := length - 19;
        AppendRoom(value, pos - 19, 19);
        MultiplyByPowerOfTen(19);
        LengthFromValue(CAPACITY - 3);
        AddUInt64(digits);
      }
      var digits := ReadUInt64(value, pos, length);
      AppendDigits(value, pos, length);
      AppendRoom(value, pos, length);
      MultiplyByPowerOfTen(length);
      LengthFromValue(CAPACITY - 3);
      AddUInt64(digits);
      assert value[..pos + length] == value;
    }

    static lemma AppendDigits(value: string, pos: nat, k: nat)
      requires AllDigits(value) && pos + k <= |value|
      ensures Decimal(value[..pos + k]) == Decimal(value[..pos]) * Pow(10, k) + Decimal(value[pos..pos + k])
    {
      assert value[..pos] + value[pos..pos + k] == value[..pos + k];
      DecimalConcat(value[..pos], value[pos..pos + k]);
    }

    lemma AppendRoom(value: string, pos: nat, k: nat)
      requires AllDigits(value) && pos + k <= |value| && Pow(10, |value|) < Pow(BASE, CAPACITY - 3)
      requires Valid() && Value() == Decimal(value[..pos])
      ensures Mantissa() * Pow(5, k) <= Value() * Pow(10, k) < Pow(BASE, CAPACITY - 3) < Pow(BASE, CAPACITY - 1)
    {
      AppendDigits(value, pos, k);
      DecimalBound(value[..pos + k]);
      PowMonotone(10, pos + k, |value|);
      PowMonotone(BASE, CAPACITY - 3, CAPACITY - 2);
      PowPositive(BASE, CAPACITY - 2);
      MantissaBelowValue();
      PowBaseMonotone(5, 10, k);
      MulMonotone(Mantissa(), Value(), Pow(5, k));
      MulMonotone(Pow(5, k), Pow(10, k), Value());
    }
  }
}
