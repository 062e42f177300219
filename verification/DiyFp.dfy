/** Floating-point numbers with a 64-bit significand and no sign, as diy-fp.h has them. */
module DiyFps {
  import opened Arith
  import opened Machine

  const TWO_63: nat := 0x8000_0000_0000_0000

  /** y is x * c / 2^64, rounded to the nearest integer, halves upwards. */
  predicate RoundedProduct(x: nat, c: nat, y: nat)
  {
    y * TWO_64 <= x * c + TWO_63 < (y + 1) * TWO_64
  }

  /** Shifting f left by n fills all 64 bits. */
  ghost predicate Fills(f: nat, n: nat)
  {
    TWO_63 <= f * Pow(2, n) < TWO_64
  }

  lemma FillsOnce(f: nat, m: nat, n: nat)
    requires Fills(f, m) && Fills(f, n)
    ensures m == n
  {
    if m < n {
      FillsLess(f, m, n);
    } else if n < m {
      FillsLess(f, n, m);
    }
  }

  lemma FillsLess(f: nat, m: nat, n: nat)
    requires m < n && Fills(f, m)
    ensures f * Pow(2, n) >= TWO_64
  {
    var p := Pow(2, n - m);
    PowMonotone(2, 1, n - m);
    assert Pow(2, 1) == 2;
    PowAdd(2, m, n - m);
    hide Pow;
    MulAssoc(f, Pow(2, m), p);
    MulMonotone(2, p, f * Pow(2, m));
  }

  /** The four partial products give the upper half exactly, rounding included. */
  lemma UpperHalf(a: nat, b: nat, c: nat, d: nat)
    requires a < TWO_32 && b < TWO_32 && c < TWO_32 && d < TWO_32
    ensures var tmp := b * d / TWO_32 + a * d % TWO_32 + b * c % TWO_32 + 0x8000_0000;
            RoundedProduct(a * TWO_32 + b, c * TWO_32 + d, a * c + a * d / TWO_32 + b * c / TWO_32 + tmp / TWO_32)
  {
    var ac, ad, bc, bd := a * c, a * d, b * c, b * d;
    assert (a * TWO_32 + b) * (c * TWO_32 + d) == ac * TWO_64 + ad * TWO_32 + bc * TWO_32 + bd;
    var tmp := bd / TWO_32 + ad % TWO_32 + bc % TWO_32 + 0x8000_0000;
    assert tmp == tmp / TWO_32 * TWO_32 + tmp % TWO_32;
  }

  lemma SmallProduct(a: nat, b: nat)
    requires a < TWO_32 && b < TWO_32
    ensures 0 <= a * b <= 0xFFFF_FFFE_0000_0001
  {
    MulMonotone(a, 0xFFFF_FFFF, b);
  }

  lemma ProductFits(x: nat, c: nat, y: nat)
    requires x < TWO_64 && c < TWO_64 && RoundedProduct(x, c, y)
    ensures y < TWO_64 - 1
  {
    MulMonotone(x, TWO_64 - 1, c);
  }

  class DiyFp {
    var f: uint64
    var e: int

    constructor (f: uint64, e: int)
      ensures this.f == f && this.e == e
    {
      this.f, this.e := f, e;
    }

    /** this * other, as if with 128 bits and then rounded. */
    method Multiply(other: DiyFp)
      modifies this
      ensures RoundedProduct(old(f), old(other.f), f) && e == old(e) + old(other.e) + 64
    {
      var a: uint64 := f / TWO_32;
      var b: uint64 := f % TWO_32;
      var c: uint64 := other.f / TWO_32;
      var d: uint64 := other.f % TWO_32;
      SmallProduct(a, c);
      SmallProduct(b, c);
      SmallProduct(a, d);
      SmallProduct(b, d);
      UpperHalf(a, b, c, d);
      var ac: uint64 := a * c;
      var bc: uint64 := b * c;
      var ad: uint64 := a * d;
      var bd: uint64 := b * d;
      var tmp: uint64 := bd / TWO_32 + ad % TWO_32 + bc % TWO_32;
      tmp := tmp + 0x8000_0000;
      ProductFits(f, other.f, ac + ad / TWO_32 + bc / TWO_32 + tmp / TWO_32);
      var result: uint64 := ac + ad / TWO_32 + bc / TWO_32 + tmp / TWO_32;
      e := e + other.e + 64;
      f := result;
    }

    static method Times(a: DiyFp, b: DiyFp) returns (result: DiyFp)
      ensures fresh(result) && RoundedProduct(a.f, b.f, result.f) && result.e == a.e + b.e + 64
    {
      result := new DiyFp(a.f, a.e);
      result.Multiply(b);
    }

    /** Shifts until the significand fills all 64 bits; the number stays the same. */
    method Normalize()
      requires f != 0
      modifies this
      ensures old(e) >= e && f == old(f) * Pow(2, old(e) - e) && Fills(old(f), old(e) - e)
    {
      var g: uint64 := f;
      var h := e;
      assert Pow(2, 0) == 1;
      hide Pow;
      ghost var f0, e0 := f, e;
      while g < 0x0040_0000_0000_0000
        invariant 0 < g && h <= e0 && g == f0 * Pow(2, e0 - h)
        decreases TWO_64 - g
      {
        ShiftMore(f0, e0 - h, 10, 1024);
        g := g * 1024;
        h := h - 10;
        assert e0 - h == e0 - (h + 10) + 10;
      }
      while g < TWO_63
        invariant 0 < g && h <= e0 && g == f0 * Pow(2, e0 - h)
        decreases TWO_64 - g
      {
        ShiftMore(f0, e0 - h, 1, 2);
        g := g * 2;
        h := h - 1;
      }
      f := g;
      e := h;
    }
  }

  lemma ShiftMore(f: nat, n: nat, k: nat, factor: nat)
    requires (k == 1 && factor == 2) || (k == 10 && factor == 1024)
    ensures f * Pow(2, n + k) == (f * Pow(2, n)) * factor
  {
    assert Pow(2, 1) == 2 && Pow(2, 10) == 1024;
    PowAdd(2, n, k);
    MulAssoc(f, Pow(2, n), factor);
  }
}
