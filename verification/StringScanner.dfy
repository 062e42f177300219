/** Taking a numeral apart: its significant digits and its exponent. */
module StringScanner {
  import opened Arith
  import opened Digits
  import opened Strtod
  import opened RadixStrings

  const MAX_SIGNIFICANT_DIGITS: nat := 772
  const MAX_EXPONENT: nat := 0x7FFF_FFFF / 2

  datatype Flags = Flags(allowHex: bool, allowOctals: bool, allowTrailingJunk: bool, allowLeadingSpaces: bool,
                         allowTrailingSpaces: bool, allowSpacesAfterSign: bool)

  /** A text that stands for infinity or for no number, if there is one. */
  datatype Symbol = NoSymbol | Symbol(text: string)
  {
    predicate Valid() { Symbol? ==> text != [] }

    /** The symbol does not begin like a numeral. */
    predicate Plain() { Symbol? ==> text != [] && !IsDigit(text[0]) && text[0] != '.' }

    /** Nothing is skipped in front of the symbol. */
    predicate Visible() { Symbol? && text != [] && text[0] !in {' ', '+', '-'} }
  }

  /** What the scanner hands on: the digits of an integer in another radix, or decimal digits and an exponent. */
  datatype Scanned =
    | Empty
    | JunkString
    | Infinite(sign: bool)
    | NotANumber(sign: bool)
    | Zero(sign: bool)
    | Integer(sign: bool, digits: string, radixLog2: nat)
    | DecimalDigits(sign: bool, buffer: string, exponent: int)

  // ---- Numerals ----

  datatype Numeral = Numeral(whole: string, point: bool, fraction: string, mark: string, sign: string, power: string)
  {
    predicate Valid()
    {
      && AllDigits(whole) && AllDigits(fraction) && whole + fraction != [] && (!point ==> fraction == [])
      && (if mark == "" then sign == "" && power == ""
          else mark in {"e", "E"} && sign in {"", "+", "-"} && AllDigits(power) && power != [])
    }

    function Power(): string { mark + sign + power }

    function Behind(): string { (if point then "." + fraction else "") + Power() }

    function Text(): string { whole + Behind() }

    /** The exponent that the text says. */
    function Exponent(): int
      requires Valid()
    {
      if mark == "" then 0 else if sign == "-" then 0 - Decimal(power) else Decimal(power)
    }

    /** The exponent that the scanner works with. */
    function ClampedExponent(): int
      requires Valid()
    {
      if mark == "" then 0 else if sign == "-" then -Min(Decimal(power), MAX_EXPONENT)
      else Min(Decimal(power), MAX_EXPONENT)
    }

    /** Few enough digits for the check that the scanner makes before it reads the exponent. */
    predicate Short() { |whole| + |fraction| <= MAX_EXPONENT / 2 }

    /** The digits without the zeros in front. */
    function Digits(): string { WithoutLeadingZeros(whole + fraction) }

    /** A leading zero makes an octal number of digits below eight. */
    predicate OctalDigits()
    {
      whole != [] && whole[0] == '0' && WithoutLeadingZeros(whole) != [] && AllBelowEight(WithoutLeadingZeros(whole))
    }

    predicate Octal(flags: Flags)
    {
      flags.allowOctals && OctalDigits()
    }
  }

  predicate AllBelowEight(s: string)
  {
    forall i :: 0 <= i < |s| ==> s[i] < '8'
  }

  predicate NonzeroFrom(s: string, i: nat)
  {
    exists k :: i <= k < |s| && s[k] != '0'
  }

  function Least(a: nat, b: nat): nat
  {
    if a < b then a else b
  }

  /** The digits that the buffer takes up; a one stands for any others that are not zero. */
  function Cut(s: string): string
  {
    if |s| > MAX_SIGNIFICANT_DIGITS && NonzeroFrom(s, MAX_SIGNIFICANT_DIGITS) then CutAt(s, MAX_SIGNIFICANT_DIGITS)
    else s[..Least(|s|, MAX_SIGNIFICANT_DIGITS)]
  }

  // ---- Runs of characters ----

  function ZerosEnd(s: string, from: nat): (m: nat)
    requires from <= |s|
    ensures from <= m <= |s| && (m < |s| ==> s[m] != '0')
    decreases |s| - from
  {
    if from < |s| && s[from] == '0' then ZerosEnd(s, from + 1) else from
  }

  function RunEnd(s: string, from: nat): (m: nat)
    requires from <= |s|
    ensures from <= m <= |s| && (m < |s| ==> !IsDigit(s[m])) && AllDigits(s[from..m])
    decreases |s| - from
  {
    if from < |s| && IsDigit(s[from]) then
      var m := RunEnd(s, from + 1);
      assert s[from..m] == [s[from]] + s[from + 1..m];
      m
    else from
  }

  ghost predicate Ahead(s: string, i: nat, rest: string)
  {
    i <= |s| && s[i..] == rest
  }

  lemma {:induction false} ZerosAhead(s: string, i: nat, digits: string, rest: string)
    requires Ahead(s, i, digits + rest) && AllDigits(digits) && (rest != [] ==> rest[0] != '0')
    ensures ZerosEnd(s, i) == i + |digits| - |WithoutLeadingZeros(digits)|
    ensures |WithoutLeadingZeros(digits)| <= |digits| && AllDigits(WithoutLeadingZeros(digits))
    ensures Ahead(s, ZerosEnd(s, i), WithoutLeadingZeros(digits) + rest)
    decreases |digits|
  {
    if digits != [] && digits[0] == '0' {
      assert s[i] == (digits + rest)[0] == '0';
      assert s[i + 1..] == (digits + rest)[1..] == digits[1..] + rest;
      ZerosAhead(s, i + 1, digits[1..], rest);
    } else if i < |s| {
      assert s[i] == (digits + rest)[0];
    }
  }

  lemma {:induction false} RunAhead(s: string, i: nat, digits: string, rest: string)
    requires Ahead(s, i, digits + rest) && AllDigits(digits) && (rest != [] ==> !IsDigit(rest[0]))
    ensures RunEnd(s, i) == i + |digits| && s[i..RunEnd(s, i)] == digits && Ahead(s, RunEnd(s, i), rest)
    decreases |digits|
  {
    if digits != [] {
      assert s[i] == (digits + rest)[0];
      assert s[i + 1..] == (digits + rest)[1..] == digits[1..] + rest;
      RunAhead(s, i + 1, digits[1..], rest);
      assert s[i..RunEnd(s, i)] == [s[i]] + s[i + 1..RunEnd(s, i)];
    } else if i < |s| {
      assert s[i] == rest[0];
    }
  }

  lemma OneAhead(s: string, i: nat, c: char, rest: string)
    requires Ahead(s, i, [c] + rest)
    ensures i < |s| && s[i] == c && Ahead(s, i + 1, rest)
  {
    assert s[i..][0] == c && s[i..][1..] == s[i + 1..];
  }

  lemma RunStep(s: string, i: nat)
    requires i < |s|
    ensures RunEnd(s, i) == if IsDigit(s[i]) then RunEnd(s, i + 1) else i
  {
  }

  lemma ZerosStep(s: string, i: nat)
    requires i < |s|
    ensures ZerosEnd(s, i) == if s[i] == '0' then ZerosEnd(s, i + 1) else i
  {
  }

  // ---- Copying digits ----

  /** The buffer holds as many of the digits as it takes, and whether any other is not zero is known. */
  ghost predicate Holds(buffer: string, dropped: bool, d: string)
  {
    buffer == d[..Least(|d|, MAX_SIGNIFICANT_DIGITS)] && (dropped <==> NonzeroFrom(d, |buffer|))
  }

  lemma HoldsMore(buffer: string, dropped: bool, d: string, c: char)
    requires Holds(buffer, dropped, d)
    ensures if |buffer| < MAX_SIGNIFICANT_DIGITS then |d| == |buffer| && Holds(buffer + [c], dropped, d + [c])
            else |buffer| == MAX_SIGNIFICANT_DIGITS && Holds(buffer, dropped || c != '0', d + [c])
  {
    var e := d + [c];
    if |buffer| < MAX_SIGNIFICANT_DIGITS {
      assert d[..|d|] == d && e[..|e|] == e;
    } else {
      assert e[..MAX_SIGNIFICANT_DIGITS] == d[..MAX_SIGNIFICANT_DIGITS];
      if NonzeroFrom(d, |buffer|) {
        var k :| |buffer| <= k < |d| && d[k] != '0';
        assert e[k] != '0';
      }
      if c != '0' {
        assert e[|d|] != '0';
      }
      if NonzeroFrom(e, |buffer|) {
        var k :| |buffer| <= k < |e| && e[k] != '0';
        assert k < |d| ==> d[k] != '0';
      }
    }
  }

  /** Copies the digits of the integer part. */
  method CopyWhole(input: string, from: nat, octal0: bool)
    returns (current: nat, buffer: string, insignificantDigits: nat, dropped: bool, octal: bool)
    requires from <= |input|
    ensures current == RunEnd(input, from)
    ensures var part := input[from..current];
            && Holds(buffer, dropped, part) && insignificantDigits == |part| - |buffer|
            && (octal <==> octal0 && AllBelowEight(part))
    ensures AllDigits(buffer) && AllDigits(input[from..current])
  {
    hide RunEnd, Holds, AllDigits;
    NothingHeld();
    assert input[from..from] == [];
    current, buffer, insignificantDigits, dropped, octal := from, [], 0, false, octal0;
    while current < |input| && IsDigit(input[current])
      invariant from <= current <= |input| && RunEnd(input, from) == RunEnd(input, current)
      invariant Holds(buffer, dropped, input[from..current]) && insignificantDigits == |input[from..current]| - |buffer|
      invariant octal <==> octal0 && AllBelowEight(input[from..current])
      invariant AllDigits(buffer)
    {
      DigitsMore(buffer, input[current]);
      RunStep(input, current);
      HoldsMore(buffer, dropped, input[from..current], input[current]);
      BelowEightMore(input[from..current], input[current]);
      assert input[from..current + 1] == input[from..current] + [input[current]];
      if |buffer| < MAX_SIGNIFICANT_DIGITS {
        buffer := buffer + [input[current]];
      } else {
        insignificantDigits := insignificantDigits + 1;
        dropped := dropped || input[current] != '0';
      }
      octal := octal && input[current] < '8';
      current := current + 1;
    }
    RunStops(input, current);
  }

  lemma DigitsMore(s: string, c: char)
    requires AllDigits(s) && IsDigit(c)
    ensures AllDigits(s + [c])
  {
  }

  lemma NothingHeld()
    ensures Holds([], false, []) && AllDigits([])
  {
  }

  lemma BelowEightMore(s: string, c: char)
    ensures AllBelowEight(s + [c]) <==> AllBelowEight(s) && c < '8'
  {
    assert (s + [c])[|s|] == c;
    assert forall i :: 0 <= i < |s| ==> (s + [c])[i] == s[i];
  }

  lemma RunStops(s: string, i: nat)
    requires i <= |s| && (i < |s| ==> !IsDigit(s[i]))
    ensures RunEnd(s, i) == i
  {
  }

  /** Copies the digits of the fractional part behind those of the integer part. */
  method CopyFraction(input: string, from: nat, buffer0: string, dropped0: bool, exponent0: int, ghost d: string)
    returns (current: nat, buffer: string, dropped: bool, exponent: int)
    requires from <= |input| && Holds(buffer0, dropped0, d) && AllDigits(buffer0)
    ensures current == RunEnd(input, from) && Holds(buffer, dropped, d + input[from..current]) && AllDigits(buffer)
    ensures exponent == exponent0 - (|buffer| - |buffer0|)
  {
    hide RunEnd, Holds, AllDigits;
    current, buffer, dropped, exponent := from, buffer0, dropped0, exponent0;
    assert d + input[from..from] == d;
    while current < |input| && IsDigit(input[current])
      invariant from <= current <= |input| && RunEnd(input, from) == RunEnd(input, current)
      invariant Holds(buffer, dropped, d + input[from..current])
      invariant exponent == exponent0 - (|buffer| - |buffer0|)
      invariant AllDigits(buffer)
    {
      DigitsMore(buffer, input[current]);
      RunStep(input, current);
      HoldsMore(buffer, dropped, d + input[from..current], input[current]);
      assert d + input[from..current + 1] == d + input[from..current] + [input[current]];
      if |buffer| < MAX_SIGNIFICANT_DIGITS {
        buffer := buffer + [input[current]];
        exponent := exponent - 1;
      } else {
        dropped := dropped || input[current] != '0';
      }
      current := current + 1;
    }
    RunStops(input, current);
  }

  /** The digits of the exponent, clamped. */
  method ReadPower(input: string, from: nat) returns (current: nat, num: nat)
    requires from <= |input|
    ensures current == RunEnd(input, from) && num == Min(Decimal(input[from..current]), MAX_EXPONENT)
  {
    hide RunEnd, Decimal, AllDigits;
    current, num := from, 0;
    NoDigits(input, from);
    while current < |input| && IsDigit(input[current])
      invariant from <= current <= |input| && RunEnd(input, from) == RunEnd(input, current)
        && AllDigits(input[from..current])
      invariant num == Min(Decimal(input[from..current]), MAX_EXPONENT)
    {
      RunStep(input, current);
      DecimalSnoc(input[from..current], input[current]);
      assert input[from..current + 1] == input[from..current] + [input[current]];
      var digit := DigitOf(input[current]);
      if num >= MAX_EXPONENT / 10 && !(num == MAX_EXPONENT / 10 && digit <= MAX_EXPONENT % 10) {
        num := MAX_EXPONENT;
      } else {
        num := num * 10 + digit;
      }
      current := current + 1;
    }
    RunStops(input, current);
  }

  lemma NoDigits(s: string, i: nat)
    requires i <= |s|
    ensures AllDigits(s[i..i]) && Decimal(s[i..i]) == 0
  {
  }

  method SkipZeros(input: string, from: nat) returns (current: nat)
    requires from <= |input|
    ensures current == ZerosEnd(input, from)
  {
    current := from;
    while current < |input| && input[current] == '0'
      invariant from <= current <= |input| && ZerosEnd(input, from) == ZerosEnd(input, current)
    {
      current := current + 1;
    }
  }

  method SkipSpaces(input: string, from: nat) returns (current: nat)
    requires from <= |input|
    ensures from <= current <= |input| && (current < |input| ==> input[current] != ' ')
    ensures from < |input| && input[from] != ' ' ==> current == from
  {
    current := from;
    while current < |input| && input[current] == ' '
      invariant from <= current <= |input| && (from < |input| && input[from] != ' ' ==> current == from)
    {
      current := current + 1;
    }
  }

  // ---- The scanner ----

  /** What is found in front of the exponent: digits that have been copied, and where the scanner stands. */
  datatype Mantissa =
    | NoMantissa
    | ZeroMantissa(current: nat)
    | HexMantissa(current: nat)
    | Mantissa(current: nat, buffer: string, insignificantDigits: nat, dropped: bool, exponent: int, octal: bool,
               leadingZero: bool,
               done: bool)

  /** What the scanner says of a numeral. */
  ghost predicate ScannedRight(r: Scanned, sign: bool, n: Numeral)
    requires n.Valid()
  {
    if n.Digits() == [] then r == Zero(sign) || (r.DecimalDigits? && r.sign == sign && r.buffer == [])
    else r == DecimalDigits(sign, Cut(n.Digits()),
                            n.ClampedExponent() - |n.fraction| + |n.Digits()| - |Cut(n.Digits())|)
  }

  lemma CutHeld(buffer: string, dropped: bool, d: string)
    requires Holds(buffer, dropped, d)
    ensures Cut(d) == if dropped then buffer + ['1'] else buffer
  {
    if |d| > MAX_SIGNIFICANT_DIGITS && NonzeroFrom(d, MAX_SIGNIFICANT_DIGITS) {
      assert |buffer| == MAX_SIGNIFICANT_DIGITS && dropped;
    }
  }

  /** A hexadecimal number begins here. */
  predicate SpellsHex(input: string, from: nat, flags: Flags)
  {
    flags.allowHex && from + 2 < |input| && input[from] == '0' && input[from + 1] in {'x', 'X'}
      && IsRadixDigit(input[from + 2], 16)
  }

  /** The integer part: zeros, digits, and what comes of them. */
  method ScanWhole(input: string, from: nat, flags: Flags, ghost n: Numeral) returns (m: Mantissa, ghost d: string)
    requires from < |input|
    ensures m.Mantissa? ==> Holds(m.buffer, m.dropped, d) && m.insignificantDigits == |d| - |m.buffer|
    ensures m.HexMantissa? || m.ZeroMantissa? ==> m.current <= |input|
    ensures !m.NoMantissa? && (m.Mantissa? ==> AllDigits(m.buffer))
    ensures SpellsHex(input, from, flags) ==> m == HexMantissa(from + 2)
    ensures m.Mantissa? ==> from <= m.current <= |input| && (m.done ==> m.current == |input|)
                            && (!m.done ==> m.current < |input|)
    ensures m.Mantissa? ==> m.exponent == 0
    ensures n.Valid() && Ahead(input, from, n.Text()) ==>
              if WithoutLeadingZeros(n.whole) == [] && n.whole != [] && n.Behind() == [] then m == ZeroMantissa(|input|)
              else
                && m.Mantissa? && d == WithoutLeadingZeros(n.whole) && Ahead(input, m.current, n.Behind())
                   && (m.done <==> n.Behind() == [])
                && AllDigits(d)
                && (m.leadingZero <==> n.whole != [] && n.whole[0] == '0')
                   && (d != [] ==> (m.octal <==> n.Octal(flags)))
  {
    hide RunEnd, ZerosEnd, Holds, WithoutLeadingZeros, Numeral.Behind;
    ghost var fine := n.Valid() && Ahead(input, from, n.Text());
    if fine {
      WholeAhead(input, from, n);
    }
    var leadingZero := input[from] == '0';
    var current := from;
    if leadingZero {
      current := current + 1;
      if current == |input| {
        return ZeroMantissa(current), [];
      }
      if flags.allowHex && (input[current] == 'x' || input[current] == 'X') {
        return HexMantissa(current + 1), [];
      }
      current := SkipZeros(input, current);
      if current == |input| {
        return ZeroMantissa(current), [];
      }
    }
    var buffer, insignificantDigits, dropped, octal;
    ghost var start := current;
    current, buffer, insignificantDigits, dropped, octal := CopyWhole(input, current, leadingZero && flags.allowOctals);
    m := Mantissa(current, buffer, insignificantDigits, dropped, 0, octal, leadingZero, current == |input|);
    d := input[start..current];
  }

  /** Where the integer part of a numeral ends. */
  lemma WholeAhead(input: string, from: nat, n: Numeral)
    requires n.Valid() && Ahead(input, from, n.Text()) && from < |input|
    ensures var d := WithoutLeadingZeros(n.whole);
            var z := if input[from] == '0' then ZerosEnd(input, from + 1) else from;
            && (input[from] == '0' <==> n.whole != [] && n.whole[0] == '0')
            && (input[from] == '0' && from + 1 < |input| ==> input[from + 1] != 'x' && input[from + 1] != 'X')
            && AllDigits(d) && |d| <= |n.whole| && z <= |input| && (z == |input| <==> d + n.Behind() == [])
            && input[z..RunEnd(input, z)] == d && Ahead(input, RunEnd(input, z), n.Behind())
  {
    var rest := n.Behind();
    BehindStart(n);
    hide Numeral.Behind, WithoutLeadingZeros, RunEnd;
    assert input[from] == n.Text()[0];
    if from + 1 < |input| && input[from] == '0' {
      assert input[from + 1] == n.Text()[1];
      SecondChar(n);
    }
    ZerosAhead(input, from, n.whole, rest);
    ZerosStep(input, from);
    RunAhead(input, ZerosEnd(input, from), WithoutLeadingZeros(n.whole), rest);
  }

  lemma SecondChar(n: Numeral)
    requires n.Valid() && |n.Text()| > 1 && n.Text()[0] == '0'
    ensures n.Text()[1] != 'x' && n.Text()[1] != 'X'
  {
    if |n.whole| > 1 {
      assert IsDigit(n.whole[1]);
    }
  }

  /** Behind the digits of the integer part comes a point, an exponent, or nothing. */
  lemma BehindStart(n: Numeral)
    requires n.Valid()
    ensures n.Behind() != [] ==> n.Behind()[0] in {'.', 'e', 'E'} && (n.Behind()[0] == '.' <==> n.point)
    ensures n.whole == [] ==> n.point
    ensures n.point ==> n.Behind() != []
  {
  }

  /** What the digits in front of the exponent make of the mantissa. */
  ghost predicate MantissaRight(input: string, m: Mantissa, n: Numeral)
    requires n.Valid()
  {
    if m.Mantissa? then
      && m.current <= |input| && Ahead(input, m.current, n.Power()) && (m.done <==> n.Power() == [])
      && Holds(m.buffer, m.dropped, n.Digits()) && !m.octal
      && (if n.Digits() == [] then m.leadingZero || m.exponent != 0 || m.done
          else m.exponent + m.insignificantDigits == |n.Digits()| - |m.buffer| - |n.fraction|)
    else m.ZeroMantissa? && n.Digits() == [] && m.current == |input|
  }

  /** The scanner stands at the point of a numeral. */
  ghost predicate AtPoint(input: string, m: Mantissa, d: string, n: Numeral)
  {
    && n.Valid() && n.point && m.Mantissa? && m.current < |input| && Ahead(input, m.current, n.Behind())
    && d == WithoutLeadingZeros(n.whole) && (m.leadingZero <==> n.whole != [] && n.whole[0] == '0')
    && !m.octal && m.exponent == 0 && Holds(m.buffer, m.dropped, d) && m.insignificantDigits == |d| - |m.buffer|
  }

  /** The digits behind a point. */
  method ScanFraction(input: string, m0: Mantissa, ghost d: string, ghost n: Numeral) returns (m: Mantissa)
    requires m0.Mantissa? && m0.current < |input| && !m0.octal && input[m0.current] == '.' && m0.exponent == 0
    requires Holds(m0.buffer, m0.dropped, d) && AllDigits(m0.buffer)
    ensures m.Mantissa? ==> AllDigits(m.buffer)
    ensures m.Mantissa? ==> m.current <= |input| && (m.done ==> m.current == |input|)
                            && (!m.done ==> m.current < |input|) && !m.octal
    ensures m.ZeroMantissa? ==> m.current <= |input|
    ensures !m.HexMantissa?
    ensures AtPoint(input, m0, d, n) ==> MantissaRight(input, m, n)
  {
    hide RunEnd, ZerosEnd, Holds, MantissaRight, AtPoint, AllDigits;
    var current := m0.current + 1;
    if current == |input| {
      NoFraction(input, m0, d, n);
      if m0.buffer == [] && !m0.leadingZero {
        return NoMantissa;
      }
      return m0.(current := current, done := true);
    }
    var exponent := 0;
    if m0.buffer == [] {
      current := SkipZeros(input, current);
      exponent := 0 - (current - m0.current - 1);
      if current == |input| {
        OnlyZeros(input, m0, d, n);
        return ZeroMantissa(current);
      }
    }
    ghost var start := current;
    var buffer, dropped;
    current, buffer, dropped, exponent := CopyFraction(input, current, m0.buffer, m0.dropped, exponent, d);
    m := m0.(current := current, buffer := buffer, dropped := dropped, exponent := exponent,
             done := current == |input|);
    FractionDone(input, m0, m, d, n, start);
  }

  lemma HeldLength(buffer: string, dropped: bool, d: string)
    requires Holds(buffer, dropped, d)
    ensures buffer == [] <==> d == []
    ensures |buffer| <= |d|
  {
  }

  lemma {:induction false} LeadingConcat(s: string, t: string)
    ensures WithoutLeadingZeros(s + t) == if WithoutLeadingZeros(s) == [] then WithoutLeadingZeros(t)
      else WithoutLeadingZeros(s) + t
    decreases |s|
  {
    if s == [] {
      assert s + t == t;
    } else if s[0] == '0' {
      assert (s + t)[1..] == s[1..] + t;
      LeadingConcat(s[1..], t);
    }
  }

  /** Where the digits behind the point begin and end. */
  lemma FractionAhead(input: string, at: nat, n: Numeral)
    requires n.Valid() && n.point && Ahead(input, at, n.Behind()) && at < |input|
    ensures n.Digits() == if WithoutLeadingZeros(n.whole) == [] then WithoutLeadingZeros(n.fraction)
      else WithoutLeadingZeros(n.whole) + n.fraction
    ensures Ahead(input, at + 1, n.fraction + n.Power())
    ensures WithoutLeadingZeros(n.whole) == [] && n.whole != [] ==> n.whole[0] == '0'
    ensures var z, f := ZerosEnd(input, at + 1), WithoutLeadingZeros(n.fraction);
            && z == at + 1 + |n.fraction| - |f| && input[z..RunEnd(input, z)] == f
               && Ahead(input, RunEnd(input, z), n.Power())
            && (z == |input| <==> f + n.Power() == []) && |f| <= |n.fraction|
    ensures var r := RunEnd(input, at + 1);
            r == at + 1 + |n.fraction| && input[at + 1..r] == n.fraction && Ahead(input, r, n.Power())
  {
    LeadingConcat(n.whole, n.fraction);
    PowerStart(n);
    assert n.Behind() == ['.'] + (n.fraction + n.Power());
    OneAhead(input, at, '.', n.fraction + n.Power());
    hide Numeral.Behind, WithoutLeadingZeros, RunEnd, ZerosEnd, Numeral.Power;
    ZerosAhead(input, at + 1, n.fraction, n.Power());
    RunAhead(input, ZerosEnd(input, at + 1), WithoutLeadingZeros(n.fraction), n.Power());
    RunAhead(input, at + 1, n.fraction, n.Power());
  }

  lemma PowerStart(n: Numeral)
    requires n.Valid()
    ensures n.Power() != [] ==> n.Power()[0] in {'e', 'E'}
  {
  }

  /** Nothing behind the point. */
  lemma NoFraction(input: string, m: Mantissa, d: string, n: Numeral)
    requires m.Mantissa? && m.current + 1 == |input|
    ensures AtPoint(input, m, d, n) ==>
              (m.buffer == [] ==> m.leadingZero) && MantissaRight(input, m.(current := |input|, done := true), n)
  {
    if AtPoint(input, m, d, n) {
      FractionAhead(input, m.current, n);
      LeadingConcat(n.whole, []);
      assert n.fraction == [] && n.Power() == [];
      assert n.whole + [] == n.whole && d + [] == d;
    }
  }

  lemma OnlyZeros(input: string, m: Mantissa, d: string, n: Numeral)
    requires m.Mantissa? && m.current < |input| && m.buffer == [] && ZerosEnd(input, m.current + 1) == |input|
    ensures AtPoint(input, m, d, n) ==> MantissaRight(input, ZeroMantissa(|input|), n)
  {
    if AtPoint(input, m, d, n) {
      FractionAhead(input, m.current, n);
      HeldLength(m.buffer, m.dropped, d);
    }
  }

  lemma FractionDone(input: string, m0: Mantissa, m: Mantissa, d: string, n: Numeral, start: nat)
    requires m0.Mantissa? && m.Mantissa? && m0.current < |input| && start < |input|
    requires start == if m0.buffer == [] then ZerosEnd(input, m0.current + 1) else m0.current + 1
    requires m.current == RunEnd(input, start) && Holds(m.buffer, m.dropped, d + input[start..m.current])
    requires m.exponent == (if m0.buffer == [] then 0 - (start - m0.current - 1) else 0) - (|m.buffer| - |m0.buffer|)
    requires m == m0.(current := m.current, buffer := m.buffer, dropped := m.dropped, exponent := m.exponent,
                      done := m.current == |input|)
    ensures AtPoint(input, m0, d, n) ==> MantissaRight(input, m, n)
  {
    if AtPoint(input, m0, d, n) {
      FractionAhead(input, m0.current, n);
      HeldLength(m0.buffer, m0.dropped, d);
      HeldLength(m.buffer, m.dropped, d + input[start..m.current]);
      FractionSums(input, m0, m, d, n, start);
    }
  }

  lemma FractionSums(input: string, m0: Mantissa, m: Mantissa, d: string, n: Numeral, start: nat)
    requires n.Valid() && m0.Mantissa? && m.Mantissa? && start <= m.current <= |input| && !m.octal
    requires m0.buffer == [] <==> d == []
    requires n.Digits() == if d == [] then WithoutLeadingZeros(n.fraction) else d + n.fraction
    requires input[start..m.current] == if d == [] then WithoutLeadingZeros(n.fraction) else n.fraction
    requires Holds(m.buffer, m.dropped, d + input[start..m.current]) && m.insignificantDigits == |d| - |m0.buffer|
    requires m.exponent
      == (if d == [] then |WithoutLeadingZeros(n.fraction)| - |n.fraction| else 0) - (|m.buffer| - |m0.buffer|)
    requires Ahead(input, m.current, n.Power()) && (m.done <==> m.current == |input|)
    requires d == [] && n.fraction == [] ==> m.leadingZero
    ensures MantissaRight(input, m, n)
  {
    hide RunEnd, ZerosEnd, Holds, WithoutLeadingZeros, Numeral.Digits, Numeral.Power;
    assert d == [] ==> d + input[start..m.current] == input[start..m.current];
    assert n.Digits() == d + input[start..m.current];
    HeldLength(m.buffer, m.dropped, d + input[start..m.current]);
  }

  // ---- The exponent and the rest ----

  datatype Powered = JunkPower | Powered(current: nat, num: int)

  /** The exponent, if there is one, and what may follow. */
  method ScanPower(input: string, from: nat, octal: bool, flags: Flags, ghost n: Numeral)
    returns (r: Powered, done: bool)
    requires from < |input|
    ensures r.Powered? ==> from <= r.current <= |input|
    ensures n.Valid() && n.mark != [] && !octal && Ahead(input, from, n.Power())
      ==> r == Powered(|input|, n.ClampedExponent()) && !done
  {
    hide RunEnd, Decimal, AllDigits, Numeral.Valid, Numeral.Power;
    ghost var fine := n.Valid() && n.mark != [] && !octal && Ahead(input, from, n.Power());
    if fine {
      PowerAhead(input, from, n);
    }
    var current := from;
    var num: int := 0;
    if input[current] == 'e' || input[current] == 'E' {
      if octal && !flags.allowTrailingJunk {
        return JunkPower, true;
      }
      if octal {
        return Powered(current, 0), true;
      }
      current := current + 1;
      if current == |input| {
        return if flags.allowTrailingJunk then Powered(current, 0) else JunkPower, true;
      }
      var sign := '+';
      if input[current] == '+' || input[current] == '-' {
        sign := input[current];
        current := current + 1;
        if current == |input| {
          return if flags.allowTrailingJunk then Powered(current, 0) else JunkPower, true;
        }
      }
      if !IsDigit(input[current]) {
        return if flags.allowTrailingJunk then Powered(current, 0) else JunkPower, true;
      }
      current, num := ReadPower(input, current);
      num := if sign == '-' then 0 - num else num;
    }
    done := false;
    r := Powered(current, num);
  }

  /** The parts of an exponent. */
  lemma PowerAhead(input: string, from: nat, n: Numeral)
    requires n.Valid() && n.mark != [] && Ahead(input, from, n.Power())
    ensures from + 1 < |input| && input[from] in {'e', 'E'}
    ensures var i := if n.sign == "" then from + 1 else from + 2;
            && (n.sign != "" <==> input[from + 1] in {'+', '-'}) && (n.sign == "-" <==> input[from + 1] == '-')
            && i < |input| && IsDigit(input[i]) && RunEnd(input, i) == |input| && input[i..|input|] == n.power
    ensures n.ClampedExponent() == if n.sign == "-" then -Min(Decimal(n.power), MAX_EXPONENT)
      else Min(Decimal(n.power), MAX_EXPONENT)
  {
    hide RunEnd, Decimal, AllDigits, Numeral.Valid, Numeral.Power;
    PowerParts(n);
    var rest := n.sign + n.power;
    OneAhead(input, from, n.mark[0], rest);
    if n.sign == "" {
      assert rest == n.power;
      PowerDigits(input, from + 1, n.power);
    } else {
      assert rest == [n.sign[0]] + n.power;
      OneAhead(input, from + 1, n.sign[0], n.power);
      PowerDigits(input, from + 2, n.power);
    }
  }

  lemma PowerParts(n: Numeral)
    requires n.Valid() && n.mark != []
    ensures n.Power() == [n.mark[0]] + (n.sign + n.power) && n.mark[0] in {'e', 'E'}
    ensures n.sign in {"", "+", "-"} && AllDigits(n.power) && n.power != []
    ensures n.sign != "" ==> n.sign == [n.sign[0]] && n.sign[0] in {'+', '-'}
    ensures n.ClampedExponent() == if n.sign == "-" then -Min(Decimal(n.power), MAX_EXPONENT)
      else Min(Decimal(n.power), MAX_EXPONENT)
  {
  }

  lemma PowerDigits(input: string, i: nat, power: string)
    requires Ahead(input, i, power) && AllDigits(power) && power != []
    ensures i < |input| && IsDigit(input[i]) && RunEnd(input, i) == |input| && input[i..|input|] == power
  {
    hide RunEnd;
    assert power == power + [];
    RunAhead(input, i, power, []);
    assert input[i] == power[0];
  }

  /** What may follow the number; `end` is where the scanner stops. */
  method ScanRest(input: string, from: nat, flags: Flags) returns (junk: bool, current: nat)
    requires from <= |input|
    ensures from <= current <= |input| && (from == |input| ==> !junk && current == |input|)
  {
    current := from;
    junk := false;
    if !(flags.allowTrailingSpaces || flags.allowTrailingJunk) && current != |input| {
      return true, current;
    }
    if !flags.allowTrailingJunk {
      current := SkipSpaces(input, current);
      if current != |input| {
        return true, current;
      }
    }
    if flags.allowTrailingSpaces {
      current := SkipSpaces(input, current);
    }
  }

  /** Spaces and a sign in front of the number. */
  method ScanSign(input: string, flags: Flags) returns (stop: bool, r: Scanned, current: nat, sign: bool)
    requires input != []
    ensures !stop ==> current < |input|
    ensures stop ==> current <= |input| && (r.Empty? || r.JunkString?)
    ensures input[0] !in {' ', '+', '-'} ==> !stop && current == 0 && !sign
    ensures |input| > 1 && input[0] in {'+', '-'} && input[1] != ' '
      ==> !stop && current == 1 && (sign <==> input[0] == '-')
  {
    current, stop, sign, r := 0, false, false, Empty;
    if flags.allowLeadingSpaces || flags.allowTrailingSpaces {
      current := SkipSpaces(input, 0);
      if current == |input| {
        return true, Empty, current, false;
      }
      if !flags.allowLeadingSpaces && current != 0 {
        return true, JunkString, 0, false;
      }
    }
    if input[current] == '+' || input[current] == '-' {
      sign := input[current] == '-';
      current := current + 1;
      var nextNonSpace := SkipSpaces(input, current);
      if nextNonSpace == |input| {
        return true, JunkString, 0, sign;
      }
      if !flags.allowSpacesAfterSign && current != nextNonSpace {
        return true, JunkString, 0, sign;
      }
      current := nextNonSpace;
    }
  }

  /** The input spells the numeral behind an optional sign, and is not read as an octal number. */
  ghost predicate Spells(input: string, minus: string, n: Numeral, flags: Flags)
  {
    n.Valid() && minus in {"", "+", "-"} && input == minus + n.Text() && !n.Octal(flags)
  }

  /** The exponent, what follows it, and the result. */
  method ScanBehind(input: string, m: Mantissa, sign: bool, flags: Flags, ghost n: Numeral)
    returns (r: Scanned, processed: nat)
    requires m.Mantissa? && m.current <= |input| && (m.done <==> m.current == |input|) && AllDigits(m.buffer)
    requires m.octal ==> m.buffer != []
    ensures processed <= |input|
    ensures r.DecimalDigits? ==> AllDigits(r.buffer)
    ensures r.Integer? ==> r.digits != [] && r.radixLog2 == 3
    ensures n.Valid() && MantissaRight(input, m, n) ==> ScannedRight(r, sign, n) && processed == |input|
    ensures m.done && m.octal ==> r == Integer(sign, m.buffer, 3) && processed == |input|
  {
    hide Numeral.Valid, Numeral.Power, Numeral.Digits, Numeral.ClampedExponent, ScannedRight, MantissaRight, AllDigits;
    ghost var fine := n.Valid() && MantissaRight(input, m, n);
    if fine { HasPower(input, m, n); }
    var current := m.current;
    var power := 0;
    if !m.done {
      if !m.leadingZero && m.exponent == 0 && m.buffer == [] {
        return JunkString, 0;
      }
      var p, done := ScanPower(input, current, m.octal, flags, n);
      if p.JunkPower? {
        return JunkString, 0;
      }
      current := p.current;
      power := p.num;
      if !done {
        var junk;
        junk, current := ScanRest(input, current, flags);
        if junk {
          return JunkString, 0;
        }
      }
    }
    if m.octal {
      return Integer(sign, m.buffer, 3), current;
    }
    if fine { NumberScanned(input, m, n, sign, power); }
    processed := current;
    if m.dropped {
      DigitsMore(m.buffer, '1');
      r := DecimalDigits(sign, m.buffer + ['1'], m.exponent + power + m.insignificantDigits - 1);
    } else {
      r := DecimalDigits(sign, m.buffer, m.exponent + power + m.insignificantDigits);
    }
  }

  // ---- Symbols ----

  /** Consumes a symbol that begins with the character at hand. */
  method ConsumeSubString(input: string, from: nat, symbol: string) returns (found: bool, current: nat)
    requires from < |input| && symbol != [] && input[from] == symbol[0]
    ensures current <= |input| && (found <==> symbol <= input[from..])
    ensures found ==> current == from + |symbol|
  {
    current := from;
    for i := 1 to |symbol|
      invariant current == from + i - 1 < |input| && symbol[..i] <= input[from..]
    {
      current := current + 1;
      if current == |input| || input[current] != symbol[i] {
        NoPrefix(input[from..], symbol, i);
        return false, current;
      }
      PrefixGrows(input[from..], symbol, i);
    }
    assert symbol[..|symbol|] == symbol;
    current := current + 1;
    found := true;
  }

  lemma NoPrefix(s: string, t: string, i: nat)
    requires i < |t| && (i >= |s| || s[i] != t[i])
    ensures !(t <= s)
  {
  }

  lemma PrefixGrows(s: string, t: string, i: nat)
    requires i < |t| && i < |s| && t[..i] <= s && s[i] == t[i]
    ensures t[..i + 1] <= s
  {
    assert t[..i + 1] == t[..i] + [t[i]];
    assert s[..i + 1] == s[..i] + [s[i]];
  }

  /** Looks for a symbol and for what may follow it. */
  method ScanSymbol(input: string, from: nat, flags: Flags, symbol: Symbol)
    returns (begins: bool, junk: bool, processed: nat)
    requires from < |input| && symbol.Valid()
    ensures processed <= |input| && (begins <==> symbol.Symbol? && symbol.text[0] == input[from])
    ensures symbol.Symbol? && input[from..] == symbol.text ==> begins && !junk && processed == |input|
  {
    if symbol.NoSymbol? || input[from] != symbol.text[0] {
      return false, false, 0;
    }
    begins := true;
    var found, current := ConsumeSubString(input, from, symbol.text);
    if !found {
      return true, true, 0;
    }
    if !(flags.allowTrailingSpaces || flags.allowTrailingJunk) && current != |input| {
      return true, true, 0;
    }
    if !flags.allowTrailingJunk {
      current := SkipSpaces(input, current);
      if current != |input| {
        return true, true, 0;
      }
    }
    junk, processed := false, current;
  }

  /** Takes the input apart behind the sign. */
  method ScanUnsigned(input: string, from: nat, sign: bool, flags: Flags, ghost n: Numeral)
    returns (r: Scanned, processed: nat)
    requires from < |input|
    ensures processed <= |input|
    ensures r.DecimalDigits? ==> AllDigits(r.buffer)
    ensures r.Integer?
      ==> r.digits != [] && r.radixLog2 in {3, 4} && (r.radixLog2 == 4 ==> r.digits == input[processed..])
    ensures SpellsHex(input, from, flags) ==> r == Integer(sign, input[from + 2..], 4) && processed == from + 2
    ensures n.Valid() && Ahead(input, from, n.Text()) && !n.Octal(flags)
            ==> ScannedRight(r, sign, n) && processed == |input|
    ensures n.Valid() && Ahead(input, from, n.Text()) && n.Octal(flags) && n.Behind() == []
            ==> r == Integer(sign, OctalBuffer(n), 3) && processed == |input|
  {
    hide Numeral.Valid, Numeral.Text, Numeral.Behind, Numeral.Power, Numeral.Digits, Numeral.Octal,
         Numeral.ClampedExponent, ScannedRight, MantissaRight, AtPoint, RunEnd, ZerosEnd, Holds, Cut,
         WithoutLeadingZeros, AllDigits, Ahead, OctalBuffer;
    ghost var fine := n.Valid() && Ahead(input, from, n.Text()) && !n.Octal(flags);
    ghost var octal := n.Valid() && Ahead(input, from, n.Text()) && n.Octal(flags) && n.Behind() == [];
    if octal {
      OctalHasDigits(n, flags);
    }
    var m;
    ghost var d;
    m, d := ScanWhole(input, from, flags, n);
    if m.HexMantissa? {
      processed := m.current;
      r := if m.current < |input| && IsRadixDigit(input[m.current], 16) then Integer(sign, input[m.current..], 4)
        else JunkString;
      return;
    }
    if m.Mantissa? {
      if fine {
        WholeRight(input, from, m, d, n, flags);
      }
      if octal {
        OctalHeld(m.buffer, m.dropped, d, n);
      }
      m := m.(octal := m.octal && m.buffer != []);
      if !m.done && input[m.current] == '.' {
        if m.octal {
          return if flags.allowTrailingJunk then Integer(sign, m.buffer, 3) else JunkString, m.current;
        }
        m := ScanFraction(input, m, d, n);
      }
    } else if fine {
      NothingButZeros(input, from, m, n);
    }
    if fine { MantissaIsThere(input, m, n); }
    if m.NoMantissa? {
      return JunkString, 0;
    }
    if m.ZeroMantissa? {
      if fine { ZeroScanned(input, m, sign, n); }
      return Zero(sign), m.current;
    }
    r, processed := ScanBehind(input, m, sign, flags, n);
  }

  /** The digits of an octal number that the buffer takes up. */
  function OctalBuffer(n: Numeral): string
  {
    var d := WithoutLeadingZeros(n.whole);
    d[..Least(|d|, MAX_SIGNIFICANT_DIGITS)]
  }

  lemma OctalHasDigits(n: Numeral, flags: Flags)
    requires n.Octal(flags)
    ensures WithoutLeadingZeros(n.whole) != []
  {
  }

  lemma OctalHeld(buffer: string, dropped: bool, d: string, n: Numeral)
    requires Holds(buffer, dropped, d) && d == WithoutLeadingZeros(n.whole) && d != []
    ensures buffer == OctalBuffer(n) && buffer != []
  {
  }

  /** The input spells an octal number and nothing else. */
  ghost predicate SpellsOctal(input: string, minus: string, n: Numeral, flags: Flags)
  {
    n.Valid() && minus in {"", "+", "-"} && input == minus + n.Text() && n.Octal(flags) && n.Behind() == []
  }

  /** The input is a symbol behind a sign. */
  predicate SpellsSymbol(input: string, minus: string, symbol: Symbol)
  {
    minus in {"", "+", "-"} && symbol.Visible() && input == minus + symbol.text
  }

  /** Takes the input apart. */
  method StringToIeee(input: string, flags: Flags, infinitySymbol: Symbol, nanSymbol: Symbol,
                      ghost minus: string, ghost n: Numeral)
    returns (r: Scanned, processed: nat)
    requires minus in {"", "+", "-"} && infinitySymbol.Valid() && nanSymbol.Valid()
    ensures processed <= |input|
    ensures r.DecimalDigits? ==> AllDigits(r.buffer)
    ensures r.Integer? ==>
              r.digits != [] && r.radixLog2 in {3, 4} && (r.radixLog2 == 4 ==> r.digits == input[processed..])
    ensures infinitySymbol.Plain() && nanSymbol.Plain() && minus <= input && SpellsHex(input, |minus|, flags) ==>
              r == Integer(minus == "-", input[|minus| + 2..], 4) && processed == |minus| + 2
    ensures infinitySymbol.Plain() && nanSymbol.Plain() && Spells(input, minus, n, flags) ==>
              ScannedRight(r, minus == "-", n) && processed == |input|
    ensures infinitySymbol.Plain() && nanSymbol.Plain() && SpellsOctal(input, minus, n, flags) ==>
              r == Integer(minus == "-", OctalBuffer(n), 3) && processed == |input|
    ensures SpellsSymbol(input, minus, infinitySymbol) ==> r == Infinite(minus == "-") && processed == |input|
    ensures SpellsSymbol(input, minus, nanSymbol)
            && (infinitySymbol.Symbol? ==> infinitySymbol.text[0] != nanSymbol.text[0]) ==>
              r == NotANumber(minus == "-") && processed == |input|
  {
    hide Numeral.Valid, Numeral.Text, Numeral.Octal, Numeral.Behind, ScannedRight, AllDigits, Ahead, OctalBuffer;
    if Spells(input, minus, n, flags) || SpellsOctal(input, minus, n, flags) {
      NumeralStart(input, minus, n);
    }
    if minus <= input && SpellsHex(input, |minus|, flags) {
      HexStart(input, minus, flags);
    }
    if SpellsSymbol(input, minus, infinitySymbol) {
      SymbolStart(input, minus, infinitySymbol);
    }
    if SpellsSymbol(input, minus, nanSymbol) {
      SymbolStart(input, minus, nanSymbol);
    }
    if input == [] {
      return Empty, 0;
    }
    var stop, current, sign;
    stop, r, current, sign := ScanSign(input, flags);
    if stop {
      return r, current;
    }
    var begins, junk;
    begins, junk, processed := ScanSymbol(input, current, flags, infinitySymbol);
    if begins {
      r := if junk then JunkString else Infinite(sign);
      return;
    }
    begins, junk, processed := ScanSymbol(input, current, flags, nanSymbol);
    if begins {
      r := if junk then JunkString else NotANumber(sign);
      return;
    }
    r, processed := ScanUnsigned(input, current, sign, flags, n);
  }

  lemma SymbolStart(input: string, minus: string, symbol: Symbol)
    requires SpellsSymbol(input, minus, symbol)
    ensures input[|minus|..] == symbol.text && |minus| < |input| && |minus| <= 1
    ensures input[|minus|] == symbol.text[0]
    ensures if minus == "" then input[0] !in {' ', '+', '-'}
            else |input| > 1 && input[0] in {'+', '-'} && input[1] != ' ' && (minus == "-" <==> input[0] == '-')
  {
    if minus != "" {
      assert input[0] == minus[0];
    }
  }

  lemma HexStart(input: string, minus: string, flags: Flags)
    requires minus <= input && SpellsHex(input, |minus|, flags) && minus in {"", "+", "-"}
    ensures if minus == "" then input[0] !in {' ', '+', '-'}
            else |input| > 1 && input[0] in {'+', '-'} && input[1] != ' ' && (minus == "-" <==> input[0] == '-')
    ensures |minus| <= 1
  {
    if minus != "" {
      assert input[0] == minus[0];
    }
  }

  lemma NumeralStart(input: string, minus: string, n: Numeral)
    requires n.Valid() && minus in {"", "+", "-"} && input == minus + n.Text()
    ensures Ahead(input, |minus|, n.Text()) && |minus| < |input| && |minus| <= 1
    ensures IsDigit(input[|minus|]) || input[|minus|] == '.'
    ensures if minus == "" then input[0] !in {' ', '+', '-'}
            else |input| > 1 && input[0] in {'+', '-'} && input[1] != ' ' && (minus == "-" <==> input[0] == '-')
  {
    FirstChar(n);
    hide Numeral.Text;
    assert input[|minus|..] == n.Text();
    assert input[|minus|] == n.Text()[0];
    if minus != "" {
      assert input[0] == minus[0];
    }
  }

  lemma FirstChar(n: Numeral)
    requires n.Valid()
    ensures n.Text() != [] && (IsDigit(n.Text()[0]) || n.Text()[0] == '.')
  {
    if n.whole != [] {
      assert n.Text()[0] == n.whole[0];
    }
  }

  /** What the integer part leaves to be done. */
  lemma WholeRight(input: string, from: nat, m: Mantissa, d: string, n: Numeral, flags: Flags)
    requires n.Valid() && m.Mantissa? && m.current <= |input| && Ahead(input, m.current, n.Behind()) && !n.Octal(flags)
    requires (m.done <==> n.Behind() == []) && (m.done <==> m.current == |input|) && m.exponent == 0
      && d == WithoutLeadingZeros(n.whole)
    requires Holds(m.buffer, m.dropped, d) && m.insignificantDigits == |d| - |m.buffer|
    requires (m.leadingZero <==> n.whole != [] && n.whole[0] == '0') && (d != [] ==> (m.octal <==> n.Octal(flags)))
    ensures !(m.octal && m.buffer != [])
    ensures m.done || input[m.current] != '.' ==> MantissaRight(input, m.(octal := false), n)
    ensures !m.done && input[m.current] == '.' ==> AtPoint(input, m.(octal := false), d, n)
  {
    HeldLength(m.buffer, m.dropped, d);
    BehindStart(n);
    if !m.done {
      assert input[m.current] == n.Behind()[0];
    }
    if m.done || input[m.current] != '.' {
      assert n.fraction == [] && n.Behind() == n.Power();
      assert n.whole + [] == n.whole;
      LeadingNonzero(n.whole);
    }
  }

  lemma LeadingNonzero(s: string)
    ensures s != [] && WithoutLeadingZeros(s) == [] ==> s[0] == '0'
  {
  }

  lemma NothingButZeros(input: string, from: nat, m: Mantissa, n: Numeral)
    requires n.Valid() && m == ZeroMantissa(|input|) && WithoutLeadingZeros(n.whole) == [] && n.Behind() == []
    ensures MantissaRight(input, m, n)
  {
    assert n.fraction == [] && n.whole + [] == n.whole;
  }

  lemma MantissaIsThere(input: string, m: Mantissa, n: Numeral)
    requires n.Valid() && MantissaRight(input, m, n)
    ensures !m.NoMantissa?
  {
  }

  lemma ZeroScanned(input: string, m: Mantissa, sign: bool, n: Numeral)
    requires n.Valid() && m.ZeroMantissa? && MantissaRight(input, m, n)
    ensures ScannedRight(Zero(sign), sign, n) && m.current == |input|
  {
  }

  lemma HasPower(input: string, m: Mantissa, n: Numeral)
    requires n.Valid() && m.Mantissa? && MantissaRight(input, m, n)
    ensures m.current <= |input| && !m.octal && Ahead(input, m.current, n.Power())
    ensures m.done ==> m.current == |input| && n.ClampedExponent() == 0
    ensures !m.done ==> m.current < |input| && n.mark != [] && (m.leadingZero || m.exponent != 0 || m.buffer != [])
  {
    HeldLength(m.buffer, m.dropped, n.Digits());
  }

  lemma NumberScanned(input: string, m: Mantissa, n: Numeral, sign: bool, power: int)
    requires n.Valid() && m.Mantissa? && MantissaRight(input, m, n) && power == n.ClampedExponent()
    ensures ScannedRight(if m.dropped
      then DecimalDigits(sign, m.buffer + ['1'], m.exponent + power + m.insignificantDigits - 1)
                         else DecimalDigits(sign, m.buffer, m.exponent + power + m.insignificantDigits), sign, n)
  {
    CutHeld(m.buffer, m.dropped, n.Digits());
    HeldLength(m.buffer, m.dropped, n.Digits());
    NoneDropped(m.buffer, m.dropped, n.Digits());
  }

  lemma NoneDropped(buffer: string, dropped: bool, d: string)
    requires Holds(buffer, dropped, d)
    ensures d == [] ==> !dropped
  {
  }
}
