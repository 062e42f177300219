/** Doubles as text, and text as doubles. */
module DoubleConversion {
  import opened Arith
  import opened Machine
  import opened Digits
  import opened DecimalOrder
  import opened PrintSpec
  import opened PowerEstimates
  import opened StartValues
  import opened Ieee
  import opened Reading = Strtod
  import RoundTrip
  import opened DiyFps
  import opened BignumDtoa
  import opened Grisu
  import opened DoubleToAscii
  import opened RadixStrings
  import RadixDoubles
  import opened StringScanner
  import opened Representations

  datatype Converter = Converter(style: Style, uniqueZero: bool, decimalInShortestLow: int, decimalInShortestHigh: int,
                                 infinitySymbol: Symbol, nanSymbol: Symbol)

  // ---- Printing ----

  /** c * 10^k is read as d and as no other double. */
  ghost predicate ReadOnlyAs(c: nat, k: int, d: Bits)
  {
    forall d': Bits :: ReadsAs(c, k, d') <==> d' == d
  }

  /** The numeral is read as d and as no other double. */
  ghost predicate Denotes(n: Numeral, d: Bits)
    requires n.Valid()
  {
    AllDigits(n.Digits()) && ReadOnlyAs(Decimal(n.Digits()), n.Exponent() - |n.fraction|, d)
  }

  /** The sign and the numeral of a finite double; a zero may lose its sign. */
  ghost predicate ShortestText(bits: uint64, uniqueZero: bool, minus: string, n: Numeral)
    requires WithoutSign(bits) < INFINITY
  {
    && minus == (if bits >= SIGN_BIT && !(uniqueZero && WithoutSign(bits) == 0) then "-" else "")
    && n.Valid() && Denotes(n, WithoutSign(bits)) && !n.OctalDigits() && n.Exponent() == n.ClampedExponent()
  }

  lemma ZeroDenotes(n: Numeral)
    requires n.Valid() && n.Digits() == []
    ensures Denotes(n, 0)
  {
    var k := n.Exponent() - |n.fraction|;
    hide ReadsAs, Numeral.Digits, Numeral.Exponent, Numeral.ClampedExponent, Numeral.Valid;
    ZeroReadsAsZero(k);
    forall d: Bits | ReadsAs(0, k, d)
      ensures d == 0
    {
      ReadsAsUnique(0, k, 0, d);
    }
  }

  lemma PrintedDenotes(d: Bits, s: string, point: int, n: Numeral, b: nat)
    requires 0 < d < INFINITY && PrintedDouble(d, ShortestMode, 0, s, point)
    requires n.Valid() && AllDigits(s) && n.Digits() == s + Zeros(b) && n.Exponent() - |n.fraction| + b == point - |s|
    ensures Denotes(n, d)
  {
    hide ReadsAs, Numeral.Digits, Numeral.Exponent, Numeral.ClampedExponent, Numeral.Valid, Decimal, AllDigits, Zeros,
         Printed;
    var k := n.Exponent() - |n.fraction|;
    ZerosBehind(s, b);
    ShiftReadsAlike(Decimal(s), b, k);
    forall d': Bits
      ensures ReadsAs(Decimal(n.Digits()), k, d') <==> d' == d
    {
      RoundTrip.PrintedIsReadBack(d, s, point, d');
    }
  }

  /** The digits of a double and where its decimal point is. */
  lemma PrintedShape(d: Bits, s: string, point: int)
    requires 0 < d < INFINITY && PrintedDouble(d, ShortestMode, 0, s, point)
    ensures AllDigits(s) && s != [] && s[0] != '0' && MIN_DECIMAL_POWER < point <= MAX_DECIMAL_POWER
  {
    hide ReadsAs, InInterval, AtLeastAsClose, Decimal, AllDigits, Gap;
    if point - |s| + |s| - 1 >= MAX_DECIMAL_POWER {
      RoundTrip.PrintedIsReadBack(d, s, point, INFINITY);
      TooLarge(s, point - |s|);
    }
    if point - |s| + |s| <= MIN_DECIMAL_POWER {
      RoundTrip.PrintedIsReadBack(d, s, point, 0);
      TooSmall(s, point - |s|);
    }
  }

  /** The text of an infinity or of no number, if the converter has a symbol for it. */
  function SpecialText(bits: uint64, converter: Converter): string
  {
    var minus := if WithoutSign(bits) == INFINITY && bits >= SIGN_BIT then "-" else "";
    match if WithoutSign(bits) == INFINITY then converter.infinitySymbol else converter.nanSymbol
    case NoSymbol => ""
    case Symbol(text) => minus + text
  }

  predicate HasSymbol(bits: uint64, converter: Converter)
  {
    (if WithoutSign(bits) == INFINITY then converter.infinitySymbol else converter.nanSymbol).Symbol?
  }

  method HandleSpecialValues(bits: uint64, converter: Converter, builder: StringBuilder) returns (ok: bool)
    requires WithoutSign(bits) >= INFINITY
    modifies builder
    ensures ok == HasSymbol(bits, converter) && builder.text == old(builder.text) + SpecialText(bits, converter)
  {
    if WithoutSign(bits) == INFINITY {
      if converter.infinitySymbol.NoSymbol? {
        return false;
      }
      if bits >= SIGN_BIT {
        builder.AddCharacter('-');
      }
      builder.AddSubstring(converter.infinitySymbol.text);
      return true;
    }
    if converter.nanSymbol.NoSymbol? {
      return false;
    }
    builder.AddSubstring(converter.nanSymbol.text);
    return true;
  }

  /** The digits have a nonzero first one, or they are the single digit of zero. */
  predicate Presentable(digits: string, point: int)
  {
    AllDigits(digits) && digits != [] && (digits[0] == '0' ==> digits == "0" && point == 1) && -1000 < point < 1000
  }

  /** The numeral has the digits, with b zeros behind them, and the point where it belongs. */
  ghost predicate NumeralOf(n: Numeral, digits: string, point: int, b: nat)
  {
    && n.Valid() && !n.OctalDigits() && n.Exponent() == n.ClampedExponent()
    && if digits == "0" then n.Digits() == []
       else n.Digits() == digits + Zeros(b) && n.Exponent() - |n.fraction| + b == point - |digits|
  }

  lemma DecimalNumeralOf(digits: string, point: int, digitsAfterPoint: nat, style: Style) returns (b: nat)
    requires Presentable(digits, point) && style.Valid() && EnoughDigits(digits, point, digitsAfterPoint)
    requires digits == "0" ==> digitsAfterPoint == 0
    ensures NumeralOf(DecimalNumeral(digits, point, digitsAfterPoint, style), digits, point, b)
  {
    hide DecimalNumeral, Numeral.Valid, Numeral.Digits, Numeral.Exponent, Numeral.ClampedExponent, Numeral.OctalDigits;
    if digits == "0" {
      b := 0;
      ZeroNumeral(style);
    } else {
      b := DecimalDenotes(digits, point, digitsAfterPoint, style);
    }
  }

  lemma ZeroNumeral(style: Style)
    requires style.Valid()
    ensures var n := DecimalNumeral("0", 1, 0, style);
            n.Valid() && n.Digits() == [] && !n.OctalDigits() && n.Exponent() == n.ClampedExponent()
  {
    hide Zeros;
    NoZeros();
    OneZero();
    var n := DecimalNumeral("0", 1, 0, style);
    assert n.whole == "0" + "" == "0";
    assert "00"[1..] == "0";
    assert n.whole + n.fraction == "0" || n.whole + n.fraction == "00";
  }

  lemma ExponentialNumeralOf(digits: string, point: int, power: string, style: Style)
    requires Presentable(digits, point) && style.Valid()
    requires AllDigits(power) && power != [] && Decimal(power) == if point < 1 then 1 - point else point - 1
    ensures NumeralOf(ExponentialNumeral(digits, point - 1, power, style), digits, point, 0)
  {
    hide ExponentialNumeral, Numeral.Valid, Numeral.Digits, Numeral.Exponent, Numeral.ClampedExponent,
         Numeral.OctalDigits, Decimal;
    NoZeros();
    assert digits + "" == digits;
    if digits == "0" {
      ZeroWithPower(power, style);
    } else {
      ExponentialDenotes(digits, point - 1, power, style);
    }
  }

  lemma ZeroWithPower(power: string, style: Style)
    requires style.Valid() && AllDigits(power) && power != [] && Decimal(power) == 0
    ensures var n := ExponentialNumeral("0", 0, power, style);
            n.Valid() && n.Digits() == [] && !n.OctalDigits() && n.Exponent() == n.ClampedExponent()
  {
    OneZero();
    var n := ExponentialNumeral("0", 0, power, style);
    assert n.whole == "0" && n.fraction == "" && n.whole + n.fraction == "0";
  }

  /** Writes the digits in the representation that the converter is set to for their size. */
  method AddNumeral(digits: string, point: int, converter: Converter, builder: StringBuilder)
    returns (ghost n: Numeral, ghost b: nat)
    requires converter.style.Valid() && Presentable(digits, point)
    modifies builder
    ensures builder.text == old(builder.text) + n.Text() && NumeralOf(n, digits, point, b)
  {
    hide Numeral.Text, NumeralOf, DecimalNumeral, ExponentialNumeral, AllDigits, Decimal;
    var exponent := point - 1;
    if converter.decimalInShortestLow <= exponent < converter.decimalInShortestHigh {
      var after := Max(0, |digits| - point);
      CreateDecimalRepresentation(digits, point, after, converter.style, builder);
      n := DecimalNumeral(digits, point, after, converter.style);
      b := DecimalNumeralOf(digits, point, after, converter.style);
    } else {
      ghost var power := CreateExponentialRepresentation(digits, exponent, converter.style, builder);
      n := ExponentialNumeral(digits, exponent, power, converter.style);
      ExponentialNumeralOf(digits, point, power, converter.style);
      b := 0;
    }
  }

  /** Writes the shortest digits that stand for a double. */
  method ToShortestIeeeNumber(bits: uint64, converter: Converter, rounding: real, tenMk: DiyFp, mk: int,
                              builder: StringBuilder)
    returns (ok: bool, ghost minus: string, ghost n: Numeral)
    requires converter.style.Valid() && SmallError(rounding)
    requires WithoutSign(bits) < INFINITY ==> FittingPower(WithoutSign(bits), tenMk.f, tenMk.e, mk)
    modifies builder
    ensures if WithoutSign(bits) >= INFINITY then
              ok == HasSymbol(bits, converter) && builder.text == old(builder.text) + SpecialText(bits, converter)
            else
              ok && builder.text == old(builder.text) + (minus + n.Text())
                && ShortestText(bits, converter.uniqueZero, minus, n)
  {
    hide FittingPower, Numeral.Text, PrintedDouble, ShortestText, Presentable, NumeralOf, CachedPower, SpecialText,
         HasSymbol;
    if WithoutSign(bits) >= INFINITY {
      minus, n := "", Numeral("", false, "", "", "", "");
      ok := HandleSpecialValues(bits, converter, builder);
      return;
    }
    ok := true;
    var decimalRep := new char[18];
    var sign, length, point := ToAscii(bits, ShortestMode, 0, rounding, tenMk, mk, decimalRep);
    var digits := decimalRep[..length];
    DigitsArePresentable(WithoutSign(bits), digits, point);
    minus := "";
    if sign && (WithoutSign(bits) != 0 || !converter.uniqueZero) {
      builder.AddCharacter('-');
      minus := "-";
    }
    ghost var b;
    n, b := AddNumeral(digits, point, converter, builder);
    NumeralIsShortest(bits, converter.uniqueZero, minus, n, digits, point, b);
    Regrouped(old(builder.text), minus, n.Text());
  }

  lemma Regrouped(a: string, b: string, c: string)
    ensures (a + b) + c == a + (b + c) && (b == "" ==> a + b == a)
  {
  }

  lemma DigitsArePresentable(d: Bits, digits: string, point: int)
    requires if d == 0 then digits == "0" && point == 1
             else d < INFINITY && PrintedDouble(d, ShortestMode, 0, digits, point)
    ensures Presentable(digits, point)
  {
    hide PrintedDouble;
    if d > 0 {
      PrintedShape(d, digits, point);
    }
  }

  lemma NumeralIsShortest(bits: uint64, uniqueZero: bool, minus: string, n: Numeral, digits: string, point: int, b: nat)
    requires WithoutSign(bits) < INFINITY && NumeralOf(n, digits, point, b)
    requires minus == if bits >= SIGN_BIT && (WithoutSign(bits) != 0 || !uniqueZero) then "-" else ""
    requires if WithoutSign(bits) == 0 then digits == "0" && point == 1
             else PrintedDouble(WithoutSign(bits), ShortestMode, 0, digits, point)
    ensures ShortestText(bits, uniqueZero, minus, n)
  {
    hide PrintedDouble, Denotes, Numeral.Valid, Numeral.Digits, Numeral.OctalDigits, Numeral.Exponent,
         Numeral.ClampedExponent;
    if WithoutSign(bits) == 0 {
      ZeroDenotes(n);
    } else {
      PrintedShape(WithoutSign(bits), digits, point);
      PrintedDenotes(WithoutSign(bits), digits, point, n, b);
    }
  }

  // ---- Reading ----

  /** A fast path that keeps its promise for all digits. */
  ghost predicate FastPath(fast: (string, int) -> (bool, Bits))
  {
    forall s: string, k: int :: AllDigits(s) ==> FastPathContract(s, k, fast(s, k).0, fast(s, k).1)
  }

  /** The bits are those of the double nearest to the number, with its sign. */
  ghost predicate ReadFrom(bits: uint64, minus: string, c: nat, k: int)
  {
    (bits >= SIGN_BIT <==> minus == "-") && WithoutSign(bits) <= INFINITY && ReadsAs(c, k, WithoutSign(bits))
  }

  /** The bits are those of the double nearest to an integer; it has its sign only if it is below 2^53. */
  ghost predicate ReadInteger(bits: uint64, minus: string, c: nat)
  {
    && (bits >= SIGN_BIT <==> minus == "-" && c < 0x20_0000_0000_0000)
    && WithoutSign(bits) <= INFINITY && ReadsAs(c, 0, WithoutSign(bits))
  }

  function WithSign(sign: bool, d: Bits): (bits: uint64)
    ensures (bits >= SIGN_BIT <==> sign) && WithoutSign(bits) == d
  {
    if sign then d + SIGN_BIT else d
  }

  /** Reads a decimal number. */
  method ReadDecimal(buffer: string, exponent: int, fast: (string, int) -> (bool, Bits)) returns (d: Bits)
    requires AllDigits(buffer) && FastPath(fast)
    ensures ReadsAs(Decimal(buffer), exponent, d)
  {
    hide ReadsAs, FastPathContract, Decimal, TrimmedDigits, TrimmedExponent;
    var guess := fast(TrimmedDigits(buffer), TrimmedExponent(buffer, exponent));
    d := Reading.Strtod(buffer, exponent, guess.0, guess.1);
  }

  lemma ScannedIsRead(r: Scanned, sign: bool, n: Numeral, d: Bits)
    requires n.Valid() && ScannedRight(r, sign, n)
    requires r.Zero? ==> d == 0
    requires r.DecimalDigits? && AllDigits(r.buffer) ==> ReadsAs(Decimal(r.buffer), r.exponent, d)
    ensures AllDigits(n.Digits()) && ReadsAs(Decimal(n.Digits()), n.ClampedExponent() - |n.fraction|, d)
    ensures r.Zero? || r.DecimalDigits?
    ensures if r.Zero? then r.sign == sign else r.sign == sign && AllDigits(r.buffer)
  {
    hide ReadsAs, Numeral.Digits, Numeral.ClampedExponent, Numeral.Valid, Cut;
    var k := n.ClampedExponent() - |n.fraction|;
    if n.Digits() == [] {
      ZeroReadsAsZero(k);
      if r.DecimalDigits? {
        ZeroReadsAsZero(r.exponent);
        ReadsAsUnique(0, r.exponent, 0, d);
      }
    } else {
      ScannedReadsAlike(r, sign, n);
    }
  }

  /** Clamping the exponent changes nothing for a numeral with few enough digits. */
  lemma ClampIsRead(n: Numeral, d: Bits)
    requires n.Valid() && n.Short() && AllDigits(n.Digits())
    requires ReadsAs(Decimal(n.Digits()), n.ClampedExponent() - |n.fraction|, d)
    ensures ReadsAs(Decimal(n.Digits()), n.Exponent() - |n.fraction|, d)
  {
    hide ReadsAs, Decimal, Numeral.Digits, WithoutLeadingZeros, AllDigits;
    var s, k, c := n.Digits(), n.Exponent() - |n.fraction|, n.ClampedExponent() - |n.fraction|;
    DigitsOf(n);
    if s == [] {
      NoDigitsAreZero();
      ZeroReadsAsZero(k);
      ZeroReadsAsZero(c);
      ReadsAsUnique(0, c, 0, d);
    } else if k > c {
      TooLarge(s, k);
      TooLarge(s, c);
      ReadsAsUnique(Decimal(s), c, INFINITY, d);
    } else if k < c {
      TooSmall(s, k);
      TooSmall(s, c);
      ReadsAsUnique(Decimal(s), c, 0, d);
    }
  }

  lemma DigitsOf(n: Numeral)
    requires n.Valid()
    ensures AllDigits(n.Digits()) && |n.Digits()| <= |n.whole| + |n.fraction|
      && (n.Digits() != [] ==> n.Digits()[0] != '0')
  {
    LeadingDigits(n.whole + n.fraction);
  }

  lemma NoDigitsAreZero()
    ensures AllDigits([]) && Decimal([]) == 0
  {
  }

  /** What the reader is set to. */
  datatype Reader = Reader(flags: Flags, emptyStringValue: uint64, junkStringValue: uint64,
                           infinitySymbol: Symbol, nanSymbol: Symbol)
  {
    predicate Valid() { infinitySymbol.Valid() && nanSymbol.Valid() }

    /** No symbol begins like a numeral. */
    predicate Plain() { infinitySymbol.Plain() && nanSymbol.Plain() }
  }

  const NAN: nat := 0x7FF8_0000_0000_0000

  /** An octal number is read as the double nearest to it. */
  ghost predicate ReadOctal(bits: uint64, minus: string, d: string)
  {
    AllRadixDigits(d, 8) && ReadInteger(bits, minus, RadixValue(d, 8))
  }

  lemma OctalRadix(n: Numeral, flags: Flags)
    requires n.Valid() && n.Octal(flags)
    ensures var d, c := WithoutLeadingZeros(n.whole), OctalBuffer(n);
            && AllRadixDigits(d, 8) && d != [] && d[0] != '0'
            && AllRadixDigits(c, 8) && c == d[..if |d| < 772 then |d| else 772] && DigitsEnd(c, 8, 0) == |c|
  {
    LeadingDigits(n.whole);
  }

  /** What the digits in the buffer are read as is what the octal number is read as. */
  lemma OctalIsRead(n: Numeral, flags: Flags, minus: string, negative: bool, d: Bits)
    requires n.Valid() && n.Octal(flags) && AllRadixDigits(OctalBuffer(n), 8)
    requires ReadsAs(RadixValue(OctalBuffer(n), 8), 0, d)
    requires negative <==> minus == "-" && RadixValue(OctalBuffer(n), 8) < 0x20_0000_0000_0000
    ensures ReadOctal(WithSign(negative, d), minus, WithoutLeadingZeros(n.whole))
  {
    hide ReadsAs, RadixValue, OctalBuffer, AllRadixDigits, Numeral.Octal, Numeral.Valid, WithoutLeadingZeros;
    OctalRadix(n, flags);
    RadixDoubles.CutOctal(WithoutLeadingZeros(n.whole), OctalBuffer(n), d);
  }

  /** Reads an integer in another radix. */
  method ReadInRadix(sign: bool, digits: string, radixLog2: nat, flags: Flags)
    returns (bits: uint64, junk: bool, trailing: nat)
    requires digits != [] && 1 <= radixLog2 <= 5
    ensures var m := DigitsEnd(digits, Radix(radixLog2), 0);
            && (junk <==> !flags.allowTrailingJunk && !OnlySpaces(digits[m..]))
            && (!junk ==> ReadInteger(bits, if sign then "-" else "", RadixValue(digits[..m], Radix(radixLog2))))
            && (!junk ==> trailing <= |digits|)
  {
    hide ReadsAs, DigitsEnd, OnlySpaces, RadixValue, IsRadixDigit, AllRadixDigits;
    var negative, d;
    junk, negative, d, trailing := RadixDoubles.RadixStringToDouble(digits, radixLog2, sign, flags.allowTrailingJunk);
    bits := if junk then 0 else WithSign(negative, d);
  }

  lemma OctalIsNoJunk(n: Numeral, flags: Flags, minus: string, bits: uint64)
    requires n.Valid() && n.Octal(flags) && minus in {"", "+", "-"}
    requires var c := OctalBuffer(n);
             ReadInteger(bits, if minus == "-" then "-" else "", RadixValue(c[..DigitsEnd(c, 8, 0)], 8))
    ensures ReadOctal(bits, minus, WithoutLeadingZeros(n.whole))
  {
    hide ReadsAs, RadixValue, OctalBuffer, AllRadixDigits, Numeral.Octal, Numeral.Valid, WithoutLeadingZeros;
    OctalRadix(n, flags);
    var c := OctalBuffer(n);
    assert c[..DigitsEnd(c, 8, 0)] == c;
    OctalIsRead(n, flags, minus, bits >= SIGN_BIT, WithoutSign(bits));
  }

  lemma AllOctal(n: Numeral, flags: Flags)
    requires n.Valid() && n.Octal(flags)
    ensures OnlySpaces(OctalBuffer(n)[DigitsEnd(OctalBuffer(n), 8, 0)..])
  {
    OctalRadix(n, flags);
    NothingLeft(OctalBuffer(n));
  }

  /** Reads a double. A numeral is read as the double nearest to it, with its sign. So are hexadecimal and octal
      integers, but they have their sign only below 2^53. */
  method StringToDouble(input: string, reader: Reader, fast: (string, int) -> (bool, Bits),
                        ghost minus: string, ghost n: Numeral)
    returns (bits: uint64, processed: nat)
    requires FastPath(fast) && minus in {"", "+", "-"} && reader.Valid()
    ensures reader.Plain() && Spells(input, minus, n, reader.flags) ==>
              && processed == |input| && AllDigits(n.Digits())
              && ReadFrom(bits, minus, Decimal(n.Digits()), n.ClampedExponent() - |n.fraction|)
              && (n.Short() ==> ReadFrom(bits, minus, Decimal(n.Digits()), n.Exponent() - |n.fraction|))
    ensures reader.Plain() && minus <= input && SpellsHex(input, |minus|, reader.flags) ==>
              var s := input[|minus| + 2..];
              var m := DigitsEnd(s, 16, 0);
              if !reader.flags.allowTrailingJunk && !OnlySpaces(s[m..]) then bits == reader.junkStringValue
              else ReadInteger(bits, minus, RadixValue(s[..m], 16))
    ensures reader.Plain() && SpellsOctal(input, minus, n, reader.flags) ==>
              processed == |input| && ReadOctal(bits, minus, WithoutLeadingZeros(n.whole))
    ensures SpellsSymbol(input, minus, reader.infinitySymbol) ==>
              processed == |input| && bits == WithSign(minus == "-", INFINITY)
    ensures SpellsSymbol(input, minus, reader.nanSymbol)
            && (reader.infinitySymbol.Symbol? ==> reader.infinitySymbol.text[0] != reader.nanSymbol.text[0]) ==>
              processed == |input| && WithoutSign(bits) == NAN && (bits >= SIGN_BIT <==> minus == "-")
  {
    hide ReadsAs, Numeral.Valid, Numeral.Digits, Numeral.Exponent, Numeral.ClampedExponent, Numeral.Text, Numeral.Short,
         Numeral.Octal, Numeral.Behind, ScannedRight, FastPath, DigitsEnd, OnlySpaces, RadixValue, Decimal, AllDigits,
         IsRadixDigit, AllRadixDigits, ReadOctal, OctalBuffer, WithoutLeadingZeros;
    var r;
    r, processed := StringToIeee(input, reader.flags, reader.infinitySymbol, reader.nanSymbol, minus, n);
    ghost var nearest: Bits := 0;
    match r {
      case Empty => bits := reader.emptyStringValue;
      case JunkString => bits := reader.junkStringValue;
      case Infinite(sign) => bits := WithSign(sign, INFINITY);
      case NotANumber(sign) => bits := if sign then NAN + SIGN_BIT else NAN;
      case Zero(sign) => bits := WithSign(sign, 0);
      case Integer(sign, digits, radixLog2) =>
        var junk, trailing;
        bits, junk, trailing := ReadInRadix(sign, digits, radixLog2, reader.flags);
        if reader.Plain() && SpellsOctal(input, minus, n, reader.flags) {
          AllOctal(n, reader.flags);
          OctalIsNoJunk(n, reader.flags, minus, bits);
        }
        if junk {
          bits := reader.junkStringValue;
        }
        if radixLog2 == 4 {
          processed := if junk then 0 else processed + trailing;
          if !junk && reader.flags.allowTrailingSpaces {
            processed := SkipSpaces(input, processed);
          }
        }
      case DecimalDigits(sign, buffer, exponent) =>
        var d := ReadDecimal(buffer, exponent, fast);
        nearest := d;
        bits := WithSign(sign, d);
    }
    if reader.Plain() && Spells(input, minus, n, reader.flags) {
      ScannedIsRead(r, minus == "-", n, nearest);
      if n.Short() {
        ClampIsRead(n, nearest);
      }
    }
  }

  // ---- Both together ----

  /** The shortest text of a double is read as that double again, whatever the flags; only a negative zero that is
      printed without its sign is not. */
  lemma ShortestIsReadBack(bits: uint64, uniqueZero: bool, minus: string, n: Numeral, input: string, flags: Flags,
                           read: uint64)
    requires WithoutSign(bits) < INFINITY && ShortestText(bits, uniqueZero, minus, n) && input == minus + n.Text()
    requires Spells(input, minus, n, flags) ==>
               AllDigits(n.Digits()) && ReadFrom(read, minus, Decimal(n.Digits()), n.ClampedExponent() - |n.fraction|)
    ensures Spells(input, minus, n, flags)
    ensures read == if uniqueZero && WithoutSign(bits) == 0 then 0 else bits
  {
    hide ReadsAs, Numeral.Valid, Numeral.Digits, Numeral.Exponent, Numeral.ClampedExponent, Numeral.Text,
         Numeral.OctalDigits, Decimal;
    assert Spells(input, minus, n, flags);
    assert WithoutSign(read) == WithoutSign(bits);
  }

  /** So does an infinity, where the printer and the reader have the same symbol for it. */
  lemma InfinityIsReadBack(bits: uint64, converter: Converter, reader: Reader, minus: string, read: uint64)
    requires WithoutSign(bits) == INFINITY && HasSymbol(bits, converter)
    requires minus == if bits >= SIGN_BIT then "-" else ""
    requires reader.infinitySymbol == converter.infinitySymbol && reader.infinitySymbol.Visible()
    requires SpellsSymbol(SpecialText(bits, converter), minus, reader.infinitySymbol) ==>
               read == WithSign(minus == "-", INFINITY)
    ensures SpellsSymbol(SpecialText(bits, converter), minus, reader.infinitySymbol) && read == bits
  {
    assert SpecialText(bits, converter) == minus + converter.infinitySymbol.text;
  }

  // ---- Where the promises end ----

  /** The digits of 2^53. */
  lemma {:induction false} HexTwo(n: nat)
    ensures AllRadixDigits("2" + Zeros(n), 16) && RadixValue("2" + Zeros(n), 16) == 2 * Pow(16, n)
  {
    var s := "2" + Zeros(n);
    if n == 0 {
      assert s[..0] == [] && s == "2";
    } else {
      HexTwo(n - 1);
      assert s[..|s| - 1] == "2" + Zeros(n - 1);
      assert Pow(16, n) == 16 * Pow(16, n - 1);
    }
  }

  lemma TwoToThe53()
    ensures var s := "20000000000000";
            AllRadixDigits(s, 16) && RadixValue(s, 16) == 0x20_0000_0000_0000 && DigitsEnd(s, 16, 0) == |s|
  {
    var s := "20000000000000";
    assert s == "2" + Zeros(13);
    HexTwo(13);
    assert Pow(16, 6) == 0x100_0000;
    PowAdd(16, 6, 6);
    PowAdd(16, 12, 1);
    assert Pow(16, 1) == 16;
  }

  lemma NearestTo53()
    ensures ReadsAs(0x20_0000_0000_0000, 0, 0x4340_0000_0000_0000)
  {
    var d: Bits := 0x4340_0000_0000_0000;
    assert d / HIDDEN_BIT == 1076 && d % HIDDEN_BIT == 0;
    SizeFits(53);
    HiddenBit();
    assert Pow(2, 1) == 2;
    RadixDoubles.RoundedIsNearest(0x20_0000_0000_0000, HIDDEN_BIT, 1, 1, d);
  }

  lemma HexInput(flags: Flags)
    requires flags.allowHex
    ensures var input := "-0x20000000000000";
            "-" <= input && SpellsHex(input, 1, flags) && input[3..] == "20000000000000"
  {
  }

  lemma ReadAs53(bits: uint64)
    requires ReadInteger(bits, "-", 0x20_0000_0000_0000)
    ensures bits == 0x4340_0000_0000_0000
  {
    hide ReadsAs;
    NearestTo53();
    ReadsAsUnique(0x20_0000_0000_0000, 0, WithoutSign(bits), 0x4340_0000_0000_0000);
  }

  /** The sign of a hexadecimal number of 54 bits is lost: this one is read as 2^53. */
  method HexSignIsLost(fast: (string, int) -> (bool, Bits)) returns (bits: uint64)
    requires FastPath(fast)
    ensures bits == 0x4340_0000_0000_0000
  {
    hide ReadsAs, FastPath, RadixValue, AllRadixDigits, DigitsEnd, SpellsHex, Spells, SpellsOctal, SpellsSymbol,
         ReadInteger, ReadFrom, OnlySpaces, WithSign, WithoutSign, Numeral.Digits, Numeral.Valid, Numeral.Short,
         Numeral.Exponent, Numeral.ClampedExponent, WithoutLeadingZeros, Decimal, ReadOctal, IsRadixDigit;
    var reader := Reader(Flags(true, false, false, false, false, false), 0, NAN, NoSymbol, NoSymbol);
    HexInput(reader.flags);
    TwoToThe53();
    NothingLeft("20000000000000");
    var processed;
    bits, processed := StringToDouble("-0x20000000000000", reader, fast, "-", Numeral("0", false, "", "", "", ""));
    assert "20000000000000"[..14] == "20000000000000";
    ReadAs53(bits);
  }

  /** With a billion zeros behind the point the clamp shows: this numeral is one, and the scanner takes it for a
      tenth. */
  lemma ClampMatters(power: string, d: Bits)
    requires AllDigits(power) && power != [] && Decimal(power) == MAX_EXPONENT + 1
    ensures var n := Numeral("", true, Zeros(MAX_EXPONENT) + "1", "e", "", power);
            && n.Valid() && n.Digits() == "1" && Decimal(n.Digits()) == 1
            && n.Exponent() - |n.fraction| == 0 && n.ClampedExponent() - |n.fraction| == -1
            && !(ReadsAs(1, 0, d) && ReadsAs(1, -1, d))
  {
    var n := Numeral("", true, Zeros(MAX_EXPONENT) + "1", "e", "", power);
    assert n.whole + n.fraction == Zeros(MAX_EXPONENT) + "1";
    ZerosInFront(MAX_EXPONENT, "1");
    assert "1"[..0] == "";
    OneIsNoTenth(d);
  }

  lemma OneIsNoTenth(d: Bits)
    ensures !(ReadsAs(1, 0, d) && ReadsAs(1, -1, d))
  {
    var one: Bits := 0x3FF0_0000_0000_0000;
    OneIsRead();
    if ReadsAs(1, 0, d) {
      ReadsAsUnique(1, 0, d, one);
    }
  }

  lemma OneIsRead()
    ensures ReadsAs(1, 0, 0x3FF0_0000_0000_0000) && !ReadsAs(1, -1, 0x3FF0_0000_0000_0000)
  {
    hide Lower, Upper, Pow;
    OneBounds();
    TensAtOne();
  }

  lemma TensAtOne()
    ensures TenUp(0) == TenDown(0) == TenUp(-1) == 1 && TenDown(-1) == 10
  {
    assert Pow(10, 0) == 1 && Pow(10, 1) == 10;
  }

  lemma OneBounds()
    ensures Lower(0x3FF0_0000_0000_0000) < Pow(2, SCALE) < Upper(0x3FF0_0000_0000_0000)
    ensures 10 * Lower(0x3FF0_0000_0000_0000) > Pow(2, SCALE)
  {
    var one: Bits := 0x3FF0_0000_0000_0000;
    assert one / HIDDEN_BIT == 1023 && one % HIDDEN_BIT == 0;
    HiddenBit();
    HalfUnit(-52);
    PowAdd(2, 52, SCALE - 52);
    hide Pow;
    assert ValueOf(one) == Pow(2, SCALE);
    MulMonotone(1, HIDDEN_BIT, Pow(2, SCALE - 52));
  }
}
