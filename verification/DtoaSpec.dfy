/**
 What the digit generators of bignum-dtoa.cc are for, stated on integers: a fraction num/den, the
 distances dm/den and dp/den to its boundaries, and decimal candidates c / 10^j.
*/
module DtoaSpec {
  import opened Arith
  import opened Digits

  function Abs(x: int): nat
  {
    if x < 0 then -x else x
  }

  /** c / 10^j lies between (num - dm) / den and (num + dp) / den, boundaries included exactly when `even`. */
  ghost predicate Inside(num: nat, den: nat, dm: nat, dp: nat, even: bool, c: nat, j: nat)
  {
    var s := Pow(10, j);
    Within(num * s, dm * s, dp * s, even, c * den)
  }

  /** w lies between v - low and v + high. */
  predicate Within(v: int, low: int, high: int, even: bool, w: int)
  {
    if even then v - low <= w <= v + high else v - low < w < v + high
  }

  /** The digits denote a number inside the interval, no shorter number lies there, none of the same
      length is closer to num/den, and one that is as close loses only to an even last digit. */
  ghost predicate Shortest(num: nat, den: nat, dm: nat, dp: nat, even: bool, s: string)
  {
    && AllDigits(s) && s != [] && s[0] != '0'
    && Inside(num, den, dm, dp, even, Decimal(s), |s| - 1)
    && (forall c: nat, j: nat :: j < |s| - 1 ==> !Inside(num, den, dm, dp, even, c, j))
    && (var k := |s| - 1;
        forall c: nat :: Inside(num, den, dm, dp, even, c, k) ==> Closest(num, den, c, Decimal(s), k))
  }

  /** d is at least as close to num/den * 10^j as c; if both are equally close, d is even. */
  ghost predicate Closest(num: nat, den: nat, c: nat, d: nat, j: nat)
  {
    Nearer(num * Pow(10, j), c * den, d * den, c == d, d % 2 == 0)
  }

  predicate Nearer(v: int, other: int, mine: int, same: bool, mineEven: bool)
  {
    && Abs(mine - v) <= Abs(other - v)
    && (!same && Abs(mine - v) == Abs(other - v) ==> mineEven)
  }

  /** Whether the rest r may be dropped, and whether it may be rounded up. */
  predicate RoomMinus(r: int, dm: int, even: bool)
  {
    if even then r <= dm else r < dm
  }

  predicate RoomPlus(r: int, dp: int, den: int, even: bool)
  {
    if even then r + dp >= den else r + dp > den
  }

  /** A remainder in neither room rules out every candidate of that length. */
  lemma NoCandidate(num: nat, den: nat, dm: nat, dp: nat, even: bool, d: nat, r: nat, j: nat, c: nat)
    requires num * Pow(10, j) == d * den + r
    requires !RoomMinus(r, dm * Pow(10, j), even) && !RoomPlus(r, dp * Pow(10, j), den, even)
    ensures !Inside(num, den, dm, dp, even, c, j)
  {
    hide Pow;
    if c <= d {
      MulMonotone(c, d, den);
    } else {
      Distribute(d, 1, den);
      MulMonotone(d + 1, c, den);
    }
  }

  lemma Distribute(a: int, b: int, c: int)
    ensures (a + b) * c == a * c + b * c
  {
  }

  /** Which digit the last step chooses when the remainder r is in at least one room. */
  predicate RoundsUp(r: int, dm: int, dp: int, den: int, even: bool, d: int)
  {
    if RoomMinus(r, dm, even) && RoomPlus(r, dp, den, even) then 2 * r > den || (2 * r == den && d % 2 == 1)
    else RoomPlus(r, dp, den, even)
  }

  /** The last step: d is the quotient, r the remainder, w the digits that are printed. */
  lemma Choose(num: nat, den: nat, dm: nat, dp: nat, even: bool, d: nat, r: nat, j: nat, w: nat)
    requires num * Pow(10, j) == d * den + r && r < den
    requires RoomMinus(r, dm * Pow(10, j), even) || RoomPlus(r, dp * Pow(10, j), den, even)
    requires w == if RoundsUp(r, dm * Pow(10, j), dp * Pow(10, j), den, even, d) then d + 1 else d
    requires dm > 0 && dp > 0
    ensures Inside(num, den, dm, dp, even, w, j)
    ensures forall c: nat :: Inside(num, den, dm, dp, even, c, j) ==> Closest(num, den, c, w, j)
  {
    hide Pow, Closest;
    PowPositive(10, j);
    MulPositive(dm, Pow(10, j));
    MulPositive(dp, Pow(10, j));
    Distribute(d, 1, den);
    forall c: nat | Inside(num, den, dm, dp, even, c, j)
      ensures Closest(num, den, c, w, j)
    {
      ChosenIsClosest(num * Pow(10, j), den, dm * Pow(10, j), dp * Pow(10, j), even, d, r, w, c);
      CloserMeans(num, den, c, w, j);
    }
  }

  lemma CloserMeans(num: nat, den: nat, c: nat, d: nat, j: nat)
    ensures Closest(num, den, c, d, j) == Nearer(num * Pow(10, j), c * den, d * den, c == d, d % 2 == 0)
  {
  }

  lemma ChosenIsClosest(v: nat, den: nat, low: nat, high: nat, even: bool, d: nat, r: nat, w: nat, c: nat)
    requires v == d * den + r && r < den && (RoomMinus(r, low, even) || RoomPlus(r, high, den, even))
    requires w == if RoundsUp(r, low, high, den, even, d) then d + 1 else d
    requires Within(v, low, high, even, c * den)
    ensures Nearer(v, c * den, w * den, c == w, w % 2 == 0)
  {
    Distribute(d, 1, den);
    if c < d {
      Distribute(c, 1, den);
      MulMonotone(c + 1, d, den);
    } else if c > d + 1 {
      Distribute(d, 2, den);
      MulMonotone(d + 2, c, den);
    }
  }
}
