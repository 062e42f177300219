/** Strings of decimal digits and the numbers they denote. */
module Digits {
  import opened Arith

  predicate IsDigit(c: char)
  {
    '0' <= c <= '9'
  }

  predicate AllDigits(s: string)
  {
    forall i :: 0 <= i < |s| ==> IsDigit(s[i])
  }

  function DigitOf(c: char): nat
    requires IsDigit(c)
  {
    c as int - '0' as int
  }

  /** The character of a digit; ten has the character after '9'. */
  function DigitChar(d: nat): char
    requires d <= 10
  {
    (d + '0' as int) as char
  }

  function Decimal(s: string): nat
    requires AllDigits(s)
  {
    if s == [] then 0 else Decimal(s[..|s| - 1]) * 10 + DigitOf(s[|s| - 1])
  }

  lemma DecimalSnoc(s: string, c: char)
    requires AllDigits(s) && IsDigit(c)
    ensures AllDigits(s + [c])
    ensures Decimal(s + [c]) == Decimal(s) * 10 + DigitOf(c)
  {
    assert (s + [c])[..|s|] == s;
  }

  lemma {:induction false} DecimalBound(s: string)
    requires AllDigits(s)
    ensures Decimal(s) < Pow(10, |s|)
  {
    if s != [] {
      DecimalBound(s[..|s| - 1]);
    }
  }

  lemma {:induction false} DecimalConcat(s: string, t: string)
    requires AllDigits(s) && AllDigits(t)
    ensures AllDigits(s + t)
    ensures Decimal(s + t) == Decimal(s) * Pow(10, |t|) + Decimal(t)
  {
    if t == [] {
      assert s + t == s;
    } else {
      var t' := t[..|t| - 1];
      DecimalConcat(s, t');
      assert (s + t)[..|s + t| - 1] == s + t';
      var d := DigitOf(t[|t| - 1]);
      assert (s + t)[|s + t| - 1] == t[|t| - 1];
      MulAssoc(Decimal(s), Pow(10, |t'|), 10);
    }
  }

  /** Two strings of the same length that denote the same number are the same. */
  lemma {:induction false} DecimalInjective(s: string, t: string)
    requires AllDigits(s) && AllDigits(t) && |s| == |t| && Decimal(s) == Decimal(t)
    ensures s == t
  {
    if s != [] {
      var n := |s| - 1;
      assert DigitOf(s[n]) == DigitOf(t[n]) && Decimal(s[..n]) == Decimal(t[..n]);
      DecimalInjective(s[..n], t[..n]);
      assert s == s[..n] + [s[n]] && t == t[..n] + [t[n]];
    }
  }

  // ---- Digits that have not been carried yet ----

  /** A digit, or the character after '9', which stands for ten. */
  predicate IsWide(c: char)
  {
    '0' <= c <= ':'
  }

  predicate AllWide(s: string)
  {
    forall i :: 0 <= i < |s| ==> IsWide(s[i])
  }

  function Wide(s: string): nat
    requires AllWide(s)
  {
    if s == [] then 0 else Wide(s[..|s| - 1]) * 10 + (s[|s| - 1] as int - '0' as int)
  }

  lemma {:induction false} WideIsDecimal(s: string)
    requires AllDigits(s)
    ensures Wide(s) == Decimal(s)
  {
    if s != [] {
      WideIsDecimal(s[..|s| - 1]);
    }
  }

  lemma WideSnoc(s: string, c: char)
    requires AllWide(s) && IsWide(c)
    ensures AllWide(s + [c]) && Wide(s + [c]) == Wide(s) * 10 + (c as int - '0' as int)
  {
    assert (s + [c])[..|s|] == s;
  }

  /** Carrying from position i to the one before it keeps the number. */
  lemma {:induction false} WideCarry(s: string, i: nat)
    requires AllWide(s) && 0 < i < |s| && s[i] == ':' && s[i - 1] != ':'
    ensures var t := s[i := '0'][i - 1 := (s[i - 1] as int + 1) as char];
            AllWide(t) && Wide(t) == Wide(s)
  {
    var t := s[i := '0'][i - 1 := (s[i - 1] as int + 1) as char];
    if i == |s| - 1 {
      var u := s[..i];
      assert u[..|u| - 1] == s[..i - 1] && t[..|t| - 1][..i - 1] == s[..i - 1];
      assert t[..|t| - 1] == s[..i - 1] + [t[i - 1]];
      WideSnoc(s[..i - 1], t[i - 1]);
      WideSnoc(s[..i - 1], s[i - 1]);
      assert s[..i] == s[..i - 1] + [s[i - 1]];
    } else {
      var u := s[..|s| - 1];
      WideCarry(u, i);
      assert t[..|t| - 1] == u[i := '0'][i - 1 := (u[i - 1] as int + 1) as char];
    }
  }

  /** A leading ten followed by digits is at least ten times the weight of the first position. */
  lemma {:induction false} WideLead(s: string)
    requires AllWide(s) && s != []
    ensures Wide(s) >= (s[0] as int - '0' as int) * Pow(10, |s| - 1)
    ensures AllDigits(s[1..]) ==> Wide(s) == (s[0] as int - '0' as int) * Pow(10, |s| - 1) + Decimal(s[1..])
  {
    var a := s[0] as int - '0' as int;
    if |s| == 1 {
      assert s[..0] == [];
      assert s[1..] == [];
    } else {
      var u := s[..|s| - 1];
      WideLead(u);
      assert u[1..] == s[1..][..|s| - 2];
      assert Pow(10, |s| - 1) == 10 * Pow(10, |s| - 2);
      MulAssoc(a, Pow(10, |s| - 2), 10);
    }
  }
}
