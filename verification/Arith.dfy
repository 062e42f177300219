/** Powers, and the few facts about products and quotients that the solver does not find by itself. */
module Arith {

  function Pow(b: nat, n: nat): nat
  {
    if n == 0 then 1 else b * Pow(b, n - 1)
  }

  function Min(a: int, b: int): int
  {
    if a < b then a else b
  }

  function Max(a: int, b: int): int
  {
    if a < b then b else a
  }

  lemma {:induction false} PowPositive(b: nat, n: nat)
    requires b > 0
    ensures Pow(b, n) > 0
  {
    if n > 0 {
      PowPositive(b, n - 1);
      MulPositive(b, Pow(b, n - 1));
    }
  }

  lemma {:induction false} PowAdd(b: nat, m: nat, n: nat)
    ensures Pow(b, m + n) == Pow(b, m) * Pow(b, n)
  {
    if m > 0 {
      PowAdd(b, m - 1, n);
      MulAssoc(b, Pow(b, m - 1), Pow(b, n));
    }
  }

  lemma {:induction false} PowTimes(b: nat, m: nat, n: nat)
    ensures Pow(Pow(b, m), n) == Pow(b, m * n)
  {
    if n > 0 {
      PowTimes(b, m, n - 1);
      PowAdd(b, m, m * (n - 1));
      assert m * n == m + m * (n - 1);
    }
  }

  lemma {:induction false} PowProduct(a: nat, b: nat, n: nat)
    ensures Pow(a * b, n) == Pow(a, n) * Pow(b, n)
  {
    if n > 0 {
      PowProduct(a, b, n - 1);
      var x, y := Pow(a, n - 1), Pow(b, n - 1);
      calc {
        (a * b) * (x * y);
        { MulAssoc(a, b, x * y); MulAssoc(b, x, y); MulAssoc(x, b, y); MulAssoc(a, x, b * y); }
        (a * x) * (b * y);
      }
    }
  }

  lemma {:induction false} PowMonotone(b: nat, m: nat, n: nat)
    requires b > 0 && m <= n
    ensures Pow(b, m) <= Pow(b, n)
  {
    PowAdd(b, m, n - m);
    PowPositive(b, n - m);
    MulMonotone(1, Pow(b, n - m), Pow(b, m));
  }

  /** Exponents can be compared through the powers. */
  lemma PowOrder(b: nat, m: nat, n: nat)
    requires b > 1 && Pow(b, m) < Pow(b, n)
    ensures m < n
  {
    if n <= m {
      PowMonotone(b, n, m);
    }
  }

  lemma {:induction false} PowBaseMonotone(a: nat, b: nat, n: nat)
    requires a <= b
    ensures Pow(a, n) <= Pow(b, n)
  {
    if n > 0 {
      PowBaseMonotone(a, b, n - 1);
      MulMonotone(a, b, Pow(a, n - 1));
      MulMonotone(Pow(a, n - 1), Pow(b, n - 1), b);
    }
  }

  lemma MulAssoc(a: int, b: int, c: int)
    ensures (a * b) * c == a * (b * c)
  {
  }

  lemma MulRegroup(m: int, x: int, y: int, z: int)
    ensures (m * x) * (y * z) == (m * y) * (x * z)
  {
    MulAssoc(m, x, y * z);
    MulAssoc(x, y, z);
    MulAssoc(y, x, z);
    MulAssoc(m, y, x * z);
  }

  lemma MulPositive(a: int, b: int)
    requires a > 0 && b > 0
    ensures a * b > 0
  {
  }

  lemma MulMonotone(a: int, b: int, c: int)
    requires a <= b && c >= 0
    ensures a * c <= b * c
    ensures c * a <= c * b
  {
  }

  lemma MulStrict(a: int, b: int, c: int)
    requires a < b && c > 0
    ensures a * c < b * c
  {
  }

  /** A common positive factor can be cancelled. */
  lemma MulCancel(a: int, b: int, c: int)
    requires c > 0 && a * c <= b * c
    ensures a <= b
  {
  }

  lemma MulCancelStrict(a: int, b: int, c: int)
    requires c > 0 && a * c < b * c
    ensures a < b
  {
  }

  /** Quotient and remainder are determined by the division equation. */
  lemma DivUnique(x: int, d: int, q: int, r: int)
    requires d > 0 && x == d * q + r && 0 <= r < d
    ensures x / d == q && x % d == r
  {
    var q', r' := x / d, x % d;
    assert x == d * q' + r' && 0 <= r' < d;
    assert d * (q - q') == r' - r;
    if q > q' {
      MulMonotone(1, q - q', d);
    } else if q < q' {
      MulMonotone(q - q', -1, d);
    }
  }

  lemma DivByProduct(x: nat, a: nat, b: nat)
    requires a > 0 && b > 0
    ensures a * b > 0
    ensures (x / a) / b == x / (a * b)
  {
    MulPositive(a, b);
    var q, r := x / a, x % a;
    var q', r' := q / b, q % b;
    calc {
      x;
      a * q + r;
      a * (b * q' + r') + r;
      { MulAssoc(a, b, q'); }
      (a * b) * q' + (a * r' + r);
    }
    MulMonotone(r', b - 1, a);
    assert a * (b - 1) == a * b - a;
    assert 0 <= a * r' by { MulMonotone(0, r', a); }
    DivUnique(x, a * b, q', a * r' + r);
  }

  lemma DivCancel(x: nat, a: nat, c: nat)
    requires a > 0 && c > 0
    ensures a * c > 0
    ensures (x * c) / (a * c) == x / a
  {
    MulPositive(a, c);
    var q, r := x / a, x % a;
    calc {
      x * c;
      (a * q + r) * c;
      { MulAssoc(a, q, c); MulAssoc(a, c, q); }
      (a * c) * q + r * c;
    }
    MulStrict(r, a, c);
    DivUnique(x * c, a * c, q, r * c);
  }

  lemma DivBelow(x: int, q: int, d: int)
    requires d > 0 && x < q * d
    ensures x / d < q
  {
    var q', r := x / d, x % d;
    assert x == d * q' + r && r >= 0;
    MulCancelStrict(q', q, d);
  }

  lemma DivMonotone(x: int, y: int, d: int)
    requires d > 0 && x <= y
    ensures x / d <= y / d
  {
    var qx, qy := x / d, y / d;
    if qx > qy {
      MulMonotone(qy + 1, qx, d);
    }
  }
}
