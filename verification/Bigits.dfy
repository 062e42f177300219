/** Little-endian sequences of 28-bit digits ("bigits") and the numbers they denote. */
module Bigits {
  import opened Arith
  import opened Machine

  const BIGIT_SIZE: nat := 28
  const BASE: nat := 0x1000_0000

  /** The number denoted by the first n cells of s. */
  ghost function Val(s: seq<uint32>, n: nat): nat
    requires n <= |s|
  {
    if n == 0 then 0 else Val(s, n - 1) + s[n - 1] * Pow(BASE, n - 1)
  }

  /** The number denoted by cells k, ..., n - 1 of s, cell k being the lowest. */
  ghost function ValFrom(s: seq<uint32>, k: nat, n: nat): nat
    requires k <= n <= |s|
    decreases n - k
  {
    if k == n then 0 else s[k] + BASE * ValFrom(s, k + 1, n)
  }

  ghost predicate AllBigits(s: seq<uint32>, n: nat)
    requires n <= |s|
  {
    forall i :: 0 <= i < n ==> s[i] < BASE
  }

  lemma {:induction false} ValFrame(s: seq<uint32>, t: seq<uint32>, n: nat)
    requires n <= |s| && n <= |t|
    requires forall i :: 0 <= i < n ==> s[i] == t[i]
    ensures Val(s, n) == Val(t, n)
  {
    if n > 0 {
      ValFrame(s, t, n - 1);
    }
  }

  lemma ValUpdate(s: seq<uint32>, i: nat, x: uint32)
    requires i < |s|
    ensures Val(s[i := x], i) == Val(s, i)
    ensures Val(s[i := x], i + 1) == Val(s, i) + x * Pow(BASE, i)
  {
    ValFrame(s[i := x], s, i);
  }

  lemma {:induction false} ValBound(s: seq<uint32>, n: nat)
    requires n <= |s| && AllBigits(s, n)
    ensures Val(s, n) < Pow(BASE, n)
  {
    if n > 0 {
      ValBound(s, n - 1);
      MulMonotone(s[n - 1], BASE - 1, Pow(BASE, n - 1));
    }
  }

  lemma {:induction false} ValZeros(s: seq<uint32>, m: nat, n: nat)
    requires m <= n <= |s|
    requires forall i :: m <= i < n ==> s[i] == 0
    ensures Val(s, n) == Val(s, m)
  {
    if m < n {
      ValZeros(s, m, n - 1);
    }
  }

  /** Moving the bigits up by z cells and filling with zeros multiplies by BASE^z. */
  lemma {:induction false} ValShift(s: seq<uint32>, t: seq<uint32>, n: nat, z: nat)
    requires n <= |s| && n + z <= |t|
    requires forall i :: z <= i < n + z ==> t[i] == s[i - z]
    requires forall i :: 0 <= i < z ==> t[i] == 0
    ensures Val(t, n + z) == Val(s, n) * Pow(BASE, z)
  {
    if n == 0 {
      ValZeros(t, 0, z);
    } else {
      ValShift(s, t, n - 1, z);
      PowAdd(BASE, n - 1, z);
      assert t[n - 1 + z] == s[n - 1];
      MulAssoc(s[n - 1], Pow(BASE, n - 1), Pow(BASE, z));
    }
  }

  lemma {:induction false} ValSplit(s: seq<uint32>, k: nat, n: nat)
    requires k <= n <= |s|
    ensures Val(s, n) == Val(s, k) + Pow(BASE, k) * ValFrom(s, k, n)
    decreases n - k
  {
    if k < n {
      ValSplit(s, k + 1, n);
      var p, v := Pow(BASE, k), ValFrom(s, k + 1, n);
      calc {
        (Val(s, k) + s[k] * p) + (BASE * p) * v;
        { MulAssoc(p, BASE, v); }
        Val(s, k) + p * (s[k] + BASE * v);
      }
    }
  }

  lemma ValQuotient(s: seq<uint32>, k: nat, n: nat)
    requires k <= n <= |s| && AllBigits(s, n)
    ensures Pow(BASE, k) > 0
    ensures Val(s, n) / Pow(BASE, k) == ValFrom(s, k, n)
  {
    ValSplit(s, k, n);
    ValBound(s, k);
    DivUnique(Val(s, n), Pow(BASE, k), ValFrom(s, k, n), Val(s, k));
  }

  /** A nonzero top bigit fixes the number of bigits. */
  lemma ValTop(s: seq<uint32>, n: nat)
    requires 0 < n <= |s| && AllBigits(s, n)
    ensures s[n - 1] * Pow(BASE, n - 1) <= Val(s, n) < (s[n - 1] + 1) * Pow(BASE, n - 1)
  {
    ValBound(s, n - 1);
  }

  /** The first n cells of t, with the carry standing above them, denote the number x. */
  ghost predicate CarryDenotes(t: seq<uint32>, n: nat, carry: nat, x: int)
    requires n <= |t|
  {
    Val(t, n) + carry * Pow(BASE, n) == x
  }

  /** The same, the number being f times what the first n cells of s denote. */
  ghost predicate CarryProduct(t: seq<uint32>, s: seq<uint32>, n: nat, f: nat, carry: nat)
    requires n <= |t| && n <= |s|
  {
    CarryDenotes(t, n, carry, f * Val(s, n))
  }

  /** m followed by e zero bigits. */
  ghost function Scaled(m: nat, e: nat): nat
  {
    m * Pow(BASE, e)
  }

  lemma CarryStart(t: seq<uint32>, x: nat)
    ensures CarryDenotes(t, 0, x, x)
  {
  }

  lemma CarryStartProduct(s: seq<uint32>, f: nat)
    ensures CarryProduct(s, s, 0, f, 0)
  {
  }

  lemma CarryNone(t: seq<uint32>, n: nat, x: int)
    requires n <= |t| && CarryDenotes(t, n, 0, x)
    ensures Val(t, n) == x
  {
  }

  /** Three bigits hold every 64-bit number. */
  lemma CarryVanishes(t: seq<uint32>, carry: nat, x: uint64)
    requires |t| >= 3 && CarryDenotes(t, 3, carry, x)
    ensures carry == 0 && Val(t, 3) == x
  {
    assert Pow(BASE, 3) == BASE * (BASE * (BASE * 1));
    if carry > 0 {
      MulMonotone(1, carry, Pow(BASE, 3));
    }
  }

  /** Splitting the carry into the next bigit and a smaller carry keeps the number. */
  lemma CarrySplit(t: seq<uint32>, n: nat, carry: nat, x: int, out: uint32)
    requires n < |t| && CarryDenotes(t, n, carry, x) && out == carry % BASE
    ensures CarryDenotes(t[n := out], n + 1, carry / BASE, x)
  {
    ValUpdate(t, n, out);
    MulAssoc(carry / BASE, BASE, Pow(BASE, n));
  }

  lemma CarryFits(t: seq<uint32>, n: nat, carry: nat, x: int, limit: nat)
    requires n <= |t| && CarryDenotes(t, n, carry, x) && x < Pow(BASE, limit) && carry > 0
    ensures n < limit
  {
    MulMonotone(1, carry, Pow(BASE, n));
    PowOrder(BASE, n, limit);
  }

  lemma StepArithmetic(v: int, c: int, p: int, f: int, o: int, d: int, out: int, next: int)
    requires v + c * p == f * o
    requires f * d + c == out + next * BASE
    ensures (v + out * p) + next * (BASE * p) == f * (o + d * p)
  {
    calc {
      f * (o + d * p);
      f * o + f * (d * p);
      { MulAssoc(f, d, p); }
      v + c * p + (f * d) * p;
      v + (f * d + c) * p;
      v + (out + next * BASE) * p;
      { MulAssoc(next, BASE, p); }
      v + out * p + next * (BASE * p);
    }
  }

  /** One step of a loop that multiplies a bigit sequence s by f and writes the product to t. */
  lemma MultiplyStep(t: seq<uint32>, s: seq<uint32>, n: nat, f: nat, carry: nat, out: uint32, next: nat)
    requires n < |t| && n < |s|
    requires CarryProduct(t, s, n, f, carry)
    requires f * s[n] + carry == out + next * BASE
    ensures CarryProduct(t[n := out], s, n + 1, f, next)
  {
    ValUpdate(t, n, out);
    StepArithmetic(Val(t, n), carry, Pow(BASE, n), f, Val(s, n), s[n], out, next);
  }

  /** A product whose carry has vanished keeps a nonzero top bigit. */
  lemma ProductTop(t: seq<uint32>, s: seq<uint32>, n: nat, f: nat)
    requires 0 < n <= |t| && n <= |s| && AllBigits(t, n)
    requires s[n - 1] > 0 && f > 0
    requires CarryProduct(t, s, n, f, 0)
    ensures t[n - 1] != 0
  {
    MulMonotone(1, s[n - 1], Pow(BASE, n - 1));
    MulMonotone(1, f, Val(s, n));
    ValBound(t, n - 1);
  }

  /** A product of a factor and a bigit, plus a carry below the factor, leaves a carry below the factor. */
  lemma ProductBound(factor: nat, bigit: nat, carry: nat)
    requires carry < factor && bigit < BASE
    ensures 0 <= factor * bigit + carry < factor * BASE
    ensures (factor * bigit + carry) / BASE < factor
  {
    MulMonotone(bigit, BASE - 1, factor);
    MulMonotone(0, bigit, factor);
    assert factor * (BASE - 1) == factor * BASE - factor;
    DivBelow(factor * bigit + carry, factor, BASE);
  }

  /** The first k cells of t, corrected by what is owed above them, denote those of s changed by x:
      a positive `owed` is a carry, a negative one a borrow. */
  ghost predicate Changed(t: seq<uint32>, s: seq<uint32>, k: nat, owed: int, x: int)
    requires k <= |t| && k <= |s|
  {
    Val(t, k) + owed * Pow(BASE, k) == Val(s, k) + x
  }

  /** Up to cell k nothing has changed yet. */
  lemma ChangedStart(s: seq<uint32>, k: nat)
    requires k <= |s|
    ensures Changed(s, s, k, 0, 0)
  {
  }

  lemma ChangedStep(t: seq<uint32>, s: seq<uint32>, k: nat, owed: int, x: int, y: int, out: uint32, next: int)
    requires k < |t| && k < |s| && Changed(t, s, k, owed, x)
    requires out + next * BASE == s[k] + y + owed
    ensures Changed(t[k := out], s, k + 1, next, x + y * Pow(BASE, k))
  {
    ValUpdate(t, k, out);
    ChangeArithmetic(Val(t, k), owed, Pow(BASE, k), Val(s, k), x, s[k], y, out, next);
  }

  lemma ChangeArithmetic(v: int, c: int, p: int, o: int, x: int, d: int, y: int, out: int, next: int)
    requires v + c * p == o + x
    requires out + next * BASE == d + y + c
    ensures (v + out * p) + next * (BASE * p) == (o + d * p) + (x + y * p)
  {
    calc {
      (v + out * p) + next * (BASE * p);
      { MulAssoc(next, BASE, p); }
      v + (out + next * BASE) * p;
      v + (d + y + c) * p;
      v + d * p + y * p + c * p;
    }
  }

  lemma ChangedEnd(t: seq<uint32>, s: seq<uint32>, k: nat, x: int)
    requires k <= |t| && k <= |s| && Changed(t, s, k, 0, x)
    ensures Val(t, k) == Val(s, k) + x
  {
  }

  /** Taking away no more than there is leaves no borrow at the end. */
  lemma NoBorrowLeft(t: seq<uint32>, s: seq<uint32>, k: nat, n: nat, borrow: int, x: int)
    requires k <= n <= |s| && k <= |t| && Changed(t, s, k, 0 - borrow, 0 - x)
    requires AllBigits(t, k) && x <= Val(s, n)
    requires borrow > 0
    ensures k < n
  {
    if k == n {
      ValBound(t, k);
      MulMonotone(1, borrow, Pow(BASE, k));
    }
  }

  /** A carry at cell k means the sum needs that cell. */
  lemma CarryNeedsCell(t: seq<uint32>, s: seq<uint32>, k: nat, limit: nat, carry: nat, x: int)
    requires k <= |s| && k <= |t| && Changed(t, s, k, carry, x)
    requires Val(s, k) + x < Pow(BASE, limit) && carry > 0
    ensures k < limit
  {
    MulMonotone(1, carry, Pow(BASE, k));
    PowOrder(BASE, k, limit);
  }

  // ---- Products column by column (Comba multiplication) ----

  /** What bigit m of s, multiplied by the first n bigits of s, adds to column k of the product. */
  ghost function ColumnTerm(s: seq<uint32>, n: nat, m: nat, k: nat): int
    requires n <= |s| && m < n
  {
    if m <= k && k - m < n then s[m] as int * s[k - m] as int else 0
  }

  /** Column k of the product of the first m bigits of s with the first n bigits of s. */
  ghost function Column(s: seq<uint32>, n: nat, m: nat, k: nat): int
    requires m <= n <= |s|
  {
    if m == 0 then 0 else Column(s, n, m - 1, k) + ColumnTerm(s, n, m - 1, k)
  }

  /** The first k columns, each with its weight. */
  ghost function Columns(s: seq<uint32>, n: nat, m: nat, k: nat): int
    requires m <= n <= |s|
    decreases k
  {
    if k == 0 then 0 else Columns(s, n, m, k - 1) + Column(s, n, m, k - 1) * Pow(BASE, k - 1)
  }

  /** One more bigit of the left factor adds its multiple of the right factor. */
  lemma {:induction false} ColumnsStep(s: seq<uint32>, n: nat, m: nat, k: nat)
    requires m < n <= |s|
    ensures Columns(s, n, m + 1, k) == Columns(s, n, m, k)
            + (if k <= m then 0 else (s[m] * Pow(BASE, m)) * Val(s, Min(k - m, n)))
    decreases k
  {
    if k > 0 {
      ColumnsStep(s, n, m, k - 1);
      ColumnDistributes(s, n, m, k - 1);
      if k - 1 < m || k - 1 - m >= n {
        NoTerm(s, n, m, k - 1);
      } else {
        SomeTerm(s, n, m, k - 1 - m);
      }
    }
  }

  lemma ColumnDistributes(s: seq<uint32>, n: nat, m: nat, k: nat)
    requires m < n <= |s|
    ensures Column(s, n, m + 1, k) * Pow(BASE, k) == Column(s, n, m, k) * Pow(BASE, k)
      + ColumnTerm(s, n, m, k) * Pow(BASE, k)
  {
    Distribute(Column(s, n, m, k), ColumnTerm(s, n, m, k), Pow(BASE, k));
  }

  lemma Distribute(a: int, b: int, c: int)
    ensures (a + b) * c == a * c + b * c
  {
  }

  lemma NoTerm(s: seq<uint32>, n: nat, m: nat, k: nat)
    requires m < n <= |s|
    requires k < m || k - m >= n
    ensures ColumnTerm(s, n, m, k) * Pow(BASE, k) == 0
  {
  }

  lemma SomeTerm(s: seq<uint32>, n: nat, m: nat, j: nat)
    requires m < n <= |s| && j < n
    ensures ColumnTerm(s, n, m, m + j) * Pow(BASE, m + j) + (s[m] * Pow(BASE, m)) * Val(s, j)
      == (s[m] * Pow(BASE, m)) * Val(s, j + 1)
  {
    PowAdd(BASE, m, j);
    WeightedTerm(s[m], s[j], Pow(BASE, m), Pow(BASE, j), Val(s, j));
  }

  lemma WeightedTerm(x: int, y: int, p: int, q: int, v: int)
    ensures (x * y) * (p * q) + (x * p) * v == (x * p) * (v + y * q)
  {
    MulRegroup(x, y, p, q);
  }

  /** All columns together are the product. */
  lemma {:induction false} ColumnsProduct(s: seq<uint32>, n: nat, m: nat)
    requires m <= n <= |s|
    ensures Columns(s, n, m, 2 * n) == Val(s, m) * Val(s, n)
  {
    if m == 0 {
      ColumnsOfNothing(s, n, 2 * n);
    } else {
      ColumnsProduct(s, n, m - 1);
      ColumnsStep(s, n, m - 1, 2 * n);
      assert Min(2 * n - (m - 1), n) == n;
      Distribute(Val(s, m - 1), s[m - 1] * Pow(BASE, m - 1), Val(s, n));
    }
  }

  lemma {:induction false} ColumnsOfNothing(s: seq<uint32>, n: nat, k: nat)
    requires n <= |s|
    ensures Columns(s, n, 0, k) == 0
    decreases k
  {
    if k > 0 {
      ColumnsOfNothing(s, n, k - 1);
    }
  }

  /** Bigits before `from` do not reach column k when even their partner would lie beyond the top. */
  lemma {:induction false} ColumnStart(s: seq<uint32>, n: nat, k: nat, from: nat)
    requires from <= n <= |s| && from + n <= k + 1
    ensures Column(s, n, from, k) == 0
  {
    if from > 0 {
      ColumnStart(s, n, k, from - 1);
    }
  }

  /** Bigits after cell k do not reach column k. */
  lemma {:induction false} ColumnEnd(s: seq<uint32>, n: nat, k: nat, m: nat)
    requires k + 1 <= m <= n <= |s|
    ensures Column(s, n, m, k) == Column(s, n, k + 1, k)
  {
    if m > k + 1 {
      ColumnEnd(s, n, k, m - 1);
    }
  }

  lemma {:induction false} ColumnBound(s: seq<uint32>, n: nat, m: nat, k: nat)
    requires m <= n <= |s| && AllBigits(s, n)
    ensures 0 <= Column(s, n, m, k) <= m * ((BASE - 1) * (BASE - 1))
  {
    if m > 0 {
      ColumnBound(s, n, m - 1, k);
      if m - 1 <= k && k - (m - 1) < n {
        MulMonotone(s[m - 1], BASE - 1, s[k - (m - 1)]);
        MulMonotone(s[k - (m - 1)], BASE - 1, BASE - 1);
      }
    }
  }

  lemma ColumnNext(s: seq<uint32>, n: nat, m: nat, k: nat)
    requires m < n <= |s| && m <= k && k - m < n
    ensures Column(s, n, m + 1, k) == Column(s, n, m, k) + s[m] as int * s[k - m] as int
  {
  }

  /** Adding a column to the carry accounts for it. */
  lemma CarryAddColumn(t: seq<uint32>, s: seq<uint32>, n: nat, k: nat, carry: nat)
    requires k <= |t| && n <= |s|
    requires CarryDenotes(t, k, carry, Columns(s, n, n, k))
    requires 0 <= carry + Column(s, n, n, k)
    ensures CarryDenotes(t, k, carry + Column(s, n, n, k), Columns(s, n, n, k + 1))
  {
    Distribute(carry, Column(s, n, n, k), Pow(BASE, k));
  }

  lemma PowTwoBase(n: nat)
    ensures Pow(2, BIGIT_SIZE * n) == Pow(BASE, n)
  {
    assert Pow(2, 28) == BASE by {
      PowAdd(2, 14, 14);
      assert Pow(2, 14) == 16384 by {
        PowAdd(2, 7, 7);
      }
    }
    PowTimes(2, BIGIT_SIZE, n);
  }
}
