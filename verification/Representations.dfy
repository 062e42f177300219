/** Writing digits and a decimal point as text, and reading the text again. */
module Representations {
  import opened Arith
  import opened Digits
  import opened DecimalOrder
  import opened Ieee
  import opened Strtod
  import opened StringScanner

  datatype Style = Style(emitPositiveExponentSign: bool, emitTrailingDecimalPoint: bool,
                         emitTrailingZeroAfterPoint: bool,
                         exponentCharacter: char)
  {
    /** A trailing zero goes with a trailing point, and the exponent has a letter that a reader knows. */
    predicate Valid()
    {
      (emitTrailingZeroAfterPoint ==> emitTrailingDecimalPoint) && exponentCharacter in {'e', 'E'}
    }
  }

  function Repeated(c: char, n: int): (s: string)
    ensures |s| == Max(n, 0) && forall i :: 0 <= i < n ==> s[i] == c
  {
    seq(Max(n, 0), i => c)
  }

  function Zeros(n: nat): (s: string)
    ensures |s| == n && forall i :: 0 <= i < n ==> s[i] == '0'
  {
    Repeated('0', n)
  }

  class StringBuilder {
    var text: string

    constructor ()
      ensures text == []
    {
      text := [];
    }

    method AddCharacter(c: char)
      modifies this
      ensures text == old(text) + [c]
    {
      text := text + [c];
    }

    method AddSubstring(s: string)
      modifies this
      ensures text == old(text) + s
    {
      text := text + s;
    }

    method AddPadding(c: char, count: int)
      modifies this
      ensures text == old(text) + Repeated(c, count)
    {
      var was := text;
      assert text == was + Repeated(c, 0);
      for i := 0 to Max(count, 0)
        invariant text == was + Repeated(c, i)
      {
        assert Repeated(c, i + 1) == Repeated(c, i) + [c];
        AddCharacter(c);
      }
      assert Repeated(c, Max(count, 0)) == Repeated(c, count);
    }
  }

  /** There is room for all digits behind the decimal point. */
  predicate EnoughDigits(digits: string, point: int, digitsAfterPoint: nat)
  {
    |digits| - point <= digitsAfterPoint
  }

  /** The decimal representation: the zeros that were added in front are a, those behind are b. */
  function DecimalNumeral(digits: string, point: int, digitsAfterPoint: nat, style: Style): (n: Numeral)
    requires EnoughDigits(digits, point, digitsAfterPoint)
  {
    if point <= 0 && digitsAfterPoint > 0 then
      Numeral("0", true, Zeros(0 - point) + digits + Zeros(digitsAfterPoint + point - |digits|), "", "", "")
    else
      var whole := if point <= 0 then "0" else if point >= |digits| then digits + Zeros(point - |digits|)
        else digits[..point];
      if digitsAfterPoint > 0 then
        Numeral(whole, true, if point >= |digits| then Zeros(digitsAfterPoint)
                             else digits[point..] + Zeros(digitsAfterPoint + point - |digits|), "", "", "")
      else
        Numeral(whole, style.emitTrailingDecimalPoint, if style.emitTrailingZeroAfterPoint then "0" else "", "", "", "")
  }

  /** The decimal representation without what the flags add behind an integer. */
  function PlainText(digits: string, point: int, digitsAfterPoint: nat): string
    requires EnoughDigits(digits, point, digitsAfterPoint)
  {
    if point <= 0 then
      "0" + if digitsAfterPoint > 0 then "." + Zeros(0 - point) + digits + Zeros(digitsAfterPoint + point - |digits|)
        else ""
    else if point >= |digits| then
      digits + Zeros(point - |digits|) + if digitsAfterPoint > 0 then "." + Zeros(digitsAfterPoint) else ""
    else digits[..point] + "." + digits[point..] + Zeros(digitsAfterPoint + point - |digits|)
  }

  /** What the flags add behind an integer. */
  function AddedText(digitsAfterPoint: nat, style: Style): string
  {
    if digitsAfterPoint > 0 then "" else if style.emitTrailingZeroAfterPoint then ".0"
    else if style.emitTrailingDecimalPoint then "." else ""
  }

  lemma PlainTextIsText(digits: string, point: int, digitsAfterPoint: nat, style: Style)
    requires EnoughDigits(digits, point, digitsAfterPoint) && style.Valid()
    ensures DecimalNumeral(digits, point, digitsAfterPoint, style).Text()
            == PlainText(digits, point, digitsAfterPoint) + AddedText(digitsAfterPoint, style)
  {
    hide DecimalNumeral, PlainText, Numeral.Text;
    if digitsAfterPoint == 0 {
      IntegerText(digits, point, style);
    } else if point <= 0 {
      SmallText(digits, point, digitsAfterPoint, style);
    } else if point >= |digits| {
      LargeText(digits, point, digitsAfterPoint, style);
    } else {
      SplitText(digits, point, digitsAfterPoint, style);
    }
  }

  lemma IntegerText(digits: string, point: int, style: Style)
    requires EnoughDigits(digits, point, 0) && style.Valid()
    ensures DecimalNumeral(digits, point, 0, style).Text() == PlainText(digits, point, 0) + AddedText(0, style)
  {
    hide Zeros, Numeral.Text, Numeral.Behind;
    var n := DecimalNumeral(digits, point, 0, style);
    WithoutPower(n);
    assert PlainText(digits, point, 0) == n.whole;
  }

  lemma SmallText(digits: string, point: int, digitsAfterPoint: nat, style: Style)
    requires EnoughDigits(digits, point, digitsAfterPoint) && point <= 0 < digitsAfterPoint
    ensures DecimalNumeral(digits, point, digitsAfterPoint, style).Text() == PlainText(digits, point, digitsAfterPoint)
      + ""
  {
    hide Zeros, Numeral.Text, Numeral.Behind;
    WithoutPower(DecimalNumeral(digits, point, digitsAfterPoint, style));
    PointInFront(Zeros(0 - point), digits, Zeros(digitsAfterPoint + point - |digits|));
  }

  lemma PointInFront(a: string, b: string, c: string)
    ensures "0" + ("." + ((a + b) + c)) == ("0" + ((("." + a) + b) + c)) + ""
  {
  }

  lemma LargeText(digits: string, point: int, digitsAfterPoint: nat, style: Style)
    requires EnoughDigits(digits, point, digitsAfterPoint) && point > 0 && point >= |digits| && 0 < digitsAfterPoint
    ensures DecimalNumeral(digits, point, digitsAfterPoint, style).Text() == PlainText(digits, point, digitsAfterPoint)
      + ""
  {
    hide Zeros, Numeral.Text, Numeral.Behind;
    WithoutPower(DecimalNumeral(digits, point, digitsAfterPoint, style));
  }

  lemma SplitText(digits: string, point: int, digitsAfterPoint: nat, style: Style)
    requires EnoughDigits(digits, point, digitsAfterPoint) && 0 < point < |digits|
    ensures DecimalNumeral(digits, point, digitsAfterPoint, style).Text() == PlainText(digits, point, digitsAfterPoint)
      + ""
  {
    hide Zeros, Numeral.Text, Numeral.Behind;
    WithoutPower(DecimalNumeral(digits, point, digitsAfterPoint, style));
  }

  lemma WithoutPower(n: Numeral)
    requires n.Power() == ""
    ensures n.Text() == n.whole + if n.point then "." + n.fraction else ""
  {
  }

  /** Writes the digits without an exponent, padded with zeros. */
  method CreateDecimalRepresentation(digits: string, point: int, digitsAfterPoint: nat, style: Style,
                                     builder: StringBuilder)
    requires style.Valid() && EnoughDigits(digits, point, digitsAfterPoint)
    modifies builder
    ensures builder.text == old(builder.text) + DecimalNumeral(digits, point, digitsAfterPoint, style).Text()
  {
    hide Zeros, Numeral.Text, DecimalNumeral, PlainText;
    PlainTextIsText(digits, point, digitsAfterPoint, style);
    AddDigits(digits, point, digitsAfterPoint, builder);
    if digitsAfterPoint == 0 {
      if style.emitTrailingDecimalPoint {
        builder.AddCharacter('.');
      }
      if style.emitTrailingZeroAfterPoint {
        builder.AddCharacter('0');
      }
    }
  }

  lemma PlainTextGrouped(was: string, digits: string, point: int, digitsAfterPoint: nat)
    requires EnoughDigits(digits, point, digitsAfterPoint)
    ensures var t, left := PlainText(digits, point, digitsAfterPoint), digitsAfterPoint + point - |digits|;
            if point <= 0 then
              was + t == if digitsAfterPoint > 0 then ((((was + "0") + ".") + Zeros(0 - point)) + digits) + Zeros(left)
                else was + "0"
            else if point >= |digits| then
              was + t == if digitsAfterPoint > 0
                then (((was + digits) + Zeros(point - |digits|)) + ".") + Zeros(digitsAfterPoint)
                         else (was + digits) + Zeros(point - |digits|)
            else was + t == (((was + digits[..point]) + ".") + digits[point..]) + Zeros(left)
  {
    hide Zeros;
  }

  method AddDigits(digits: string, point: int, digitsAfterPoint: nat, builder: StringBuilder)
    requires EnoughDigits(digits, point, digitsAfterPoint)
    modifies builder
    ensures builder.text == old(builder.text) + PlainText(digits, point, digitsAfterPoint)
  {
    hide PlainText, Repeated;
    PlainTextGrouped(builder.text, digits, point, digitsAfterPoint);
    if point <= 0 {
      builder.AddCharacter('0');
      if digitsAfterPoint > 0 {
        builder.AddCharacter('.');
        builder.AddPadding('0', 0 - point);
        builder.AddSubstring(digits);
        builder.AddPadding('0', digitsAfterPoint + point - |digits|);
      }
    } else if point >= |digits| {
      builder.AddSubstring(digits);
      builder.AddPadding('0', point - |digits|);
      if digitsAfterPoint > 0 {
        builder.AddCharacter('.');
        builder.AddPadding('0', digitsAfterPoint);
      }
    } else {
      builder.AddSubstring(digits[..point]);
      builder.AddCharacter('.');
      builder.AddSubstring(digits[point..]);
      builder.AddPadding('0', digitsAfterPoint - (|digits| - point));
    }
  }

  /** The exponential representation. */
  function ExponentialNumeral(digits: string, exponent: int, power: string, style: Style): Numeral
    requires digits != []
  {
    Numeral(digits[..1], |digits| != 1, digits[1..], [style.exponentCharacter],
            if exponent < 0 then "-" else if style.emitPositiveExponentSign then "+" else "", power)
  }

  /** The digits of an exponent, written from the last one on. */
  method ExponentDigits(exponent: nat) returns (power: string)
    requires 0 < exponent
    ensures AllDigits(power) && power != [] && power[0] != '0' && Decimal(power) == exponent
  {
    power := [];
    var left := exponent;
    while left > 0
      invariant 0 <= left && AllDigits(power) && left * Pow(10, |power|) + Decimal(power) == exponent
      invariant left == 0 ==> power != [] && power[0] != '0'
    {
      PrependDigit(power, left);
      power := [DigitChar(left % 10)] + power;
      left := left / 10;
    }
  }

  lemma PrependDigit(power: string, left: nat)
    requires AllDigits(power) && left > 0
    ensures var p := [DigitChar(left % 10)] + power;
            && AllDigits(p) && left / 10 * Pow(10, |p|) + Decimal(p) == left * Pow(10, |power|) + Decimal(power)
            && (left / 10 == 0 ==> p[0] != '0')
  {
    var c := [DigitChar(left % 10)];
    assert c[..0] == [] && Decimal(c) == left % 10;
    DecimalConcat(c, power);
    assert Pow(10, |power| + 1) == 10 * Pow(10, |power|);
    hide Pow, Decimal;
    MulAssoc(left / 10, 10, Pow(10, |power|));
    assert left == left / 10 * 10 + left % 10;
    TensAndUnits(left / 10 * 10, left % 10, Pow(10, |power|));
  }

  lemma TensAndUnits(a: int, b: int, p: int)
    ensures (a + b) * p == a * p + b * p
  {
  }

  /** Writes the digits with an exponent. */
  method CreateExponentialRepresentation(digits: string, exponent: int, style: Style, builder: StringBuilder)
    returns (ghost power: string)
    requires digits != [] && style.Valid() && -10000 < exponent < 10000
    modifies builder
    ensures builder.text == old(builder.text) + ExponentialNumeral(digits, exponent, power, style).Text()
    ensures AllDigits(power) && power != [] && Decimal(power) == if exponent < 0 then 0 - exponent else exponent
  {
    hide Numeral.Text, ExponentialNumeral, Decimal, AllDigits, FirstPart;
    FirstPartOf(digits);
    builder.AddCharacter(digits[0]);
    if |digits| != 1 {
      builder.AddCharacter('.');
      builder.AddSubstring(digits[1..]);
    }
    assert builder.text == old(builder.text) + FirstPart(digits);
    builder.AddCharacter(style.exponentCharacter);
    power := AddExponent(exponent, style, builder);
    TextOfExponential(digits, exponent, power, style);
    Regroup(old(builder.text), FirstPart(digits), [style.exponentCharacter], ExponentSign(exponent, style), power);
  }

  lemma Regroup(a: string, b: string, c: string, d: string, e: string)
    ensures ((a + b) + c) + (d + e) == a + (((b + c) + d) + e)
  {
  }

  function FirstPart(digits: string): string
    requires digits != []
  {
    [digits[0]] + if |digits| != 1 then "." + digits[1..] else ""
  }

  lemma FirstPartOf(digits: string)
    requires digits != []
    ensures forall s: string {:trigger s + FirstPart(digits)} ::
              s + FirstPart(digits) == if |digits| == 1 then s + [digits[0]]
                else ((s + [digits[0]]) + ".") + digits[1..]
  {
    forall s: string
      ensures s + FirstPart(digits) == if |digits| == 1 then s + [digits[0]]
        else ((s + [digits[0]]) + ".") + digits[1..]
    {
      if |digits| == 1 {
        assert FirstPart(digits) == [digits[0]];
      } else {
        assert FirstPart(digits) == ([digits[0]] + ".") + digits[1..];
      }
    }
  }

  function ExponentSign(exponent: int, style: Style): string
  {
    if exponent < 0 then "-" else if style.emitPositiveExponentSign then "+" else ""
  }

  /** Writes the sign and the digits of the exponent. */
  method AddExponent(exponent0: int, style: Style, builder: StringBuilder) returns (ghost power: string)
    modifies builder
    ensures builder.text == old(builder.text) + (ExponentSign(exponent0, style) + power)
    ensures AllDigits(power) && power != [] && Decimal(power) == if exponent0 < 0 then 0 - exponent0 else exponent0
  {
    var exponent := exponent0;
    if exponent < 0 {
      builder.AddCharacter('-');
      exponent := 0 - exponent;
    } else {
      if style.emitPositiveExponentSign {
        builder.AddCharacter('+');
      }
    }
    assert builder.text == old(builder.text) + ExponentSign(exponent0, style);
    if exponent == 0 {
      builder.AddCharacter('0');
      power := "0";
      assert power[..0] == [];
      return;
    }
    var text := ExponentDigits(exponent);
    builder.AddSubstring(text);
    power := text;
  }

  lemma TextOfExponential(digits: string, exponent: int, power: string, style: Style)
    requires digits != []
    ensures ExponentialNumeral(digits, exponent, power, style).Text()
            == ((FirstPart(digits) + [style.exponentCharacter]) + ExponentSign(exponent, style)) + power
  {
    assert digits[..1] == [digits[0]];
  }

  // ---- What the text denotes ----

  lemma {:induction false} ZerosInFront(n: nat, s: string)
    ensures WithoutLeadingZeros(Zeros(n) + s) == WithoutLeadingZeros(s)
  {
    if n == 0 {
      assert Zeros(0) + s == s;
    } else {
      assert (Zeros(n) + s)[1..] == Zeros(n - 1) + s;
      ZerosInFront(n - 1, s);
    }
  }

  lemma ZerosAreDigits(n: nat)
    ensures AllDigits(Zeros(n))
  {
  }

  lemma ZerosBehind(s: string, n: nat)
    requires AllDigits(s)
    ensures AllDigits(s + Zeros(n)) && Decimal(s + Zeros(n)) == Decimal(s) * Pow(10, n)
  {
    ZerosAreDigits(n);
    ZerosAreZero(Zeros(n));
    DecimalConcat(s, Zeros(n));
  }

  lemma Unpadded(n: Numeral, digits: string, a: nat, b: nat)
    requires n.whole + n.fraction == Zeros(a) + (digits + Zeros(b)) && digits != [] && digits[0] != '0'
    ensures n.Digits() == digits + Zeros(b)
  {
    ZerosInFront(a, digits + Zeros(b));
    assert (digits + Zeros(b))[0] == digits[0];
  }

  /** The digits with a zeros in front of them and b behind. */
  ghost predicate Padded(n: Numeral, digits: string, point: int, a: nat, b: nat)
  {
    && n.mark == "" && n.sign == "" && n.power == "" && AllDigits(n.whole) && AllDigits(n.fraction)
       && (!n.point ==> n.fraction == [])
    && n.whole != [] && (n.whole[0] == '0' ==> n.whole == "0")
    && n.whole + n.fraction == Zeros(a) + (digits + Zeros(b)) && b - |n.fraction| == point - |digits|
  }

  lemma SmallPadding(digits: string, point: int, digitsAfterPoint: nat, style: Style)
    requires AllDigits(digits) && digits != [] && EnoughDigits(digits, point, digitsAfterPoint) && style.Valid()
      && point <= 0
    ensures Padded(DecimalNumeral(digits, point, digitsAfterPoint, style), digits, point, 1 - point,
                   digitsAfterPoint + point - |digits|)
  {
    hide Zeros;
    var b := digitsAfterPoint + point - |digits|;
    ZerosAreDigits(0 - point);
    ZerosAreDigits(b);
    MoreZeros(0 - point);
    PaddingInFront(Zeros(0 - point), digits, Zeros(b));
  }

  lemma PaddingInFront(a: string, b: string, c: string)
    ensures "0" + ((a + b) + c) == ("0" + a) + (b + c)
  {
  }

  lemma LargePadding(digits: string, point: int, digitsAfterPoint: nat, style: Style)
    requires AllDigits(digits) && digits != [] && digits[0] != '0' && style.Valid() && point > 0 && point >= |digits|
    ensures EnoughDigits(digits, point, digitsAfterPoint)
    ensures var n := DecimalNumeral(digits, point, digitsAfterPoint, style);
            Padded(n, digits, point, 0, point - |digits| + |n.fraction|)
  {
    hide Zeros;
    var n, k := DecimalNumeral(digits, point, digitsAfterPoint, style), point - |digits|;
    ZerosAreDigits(k);
    ZerosAreDigits(digitsAfterPoint);
    AddZeros(k, |n.fraction|);
    NoZeros();
    OneZero();
    assert n.fraction == Zeros(|n.fraction|);
    PaddingBehind(digits, Zeros(k), n.fraction);
    assert n.whole[0] == digits[0];
  }

  lemma PaddingBehind(a: string, b: string, c: string)
    ensures (a + b) + c == "" + (a + (b + c))
  {
  }

  lemma SplitPadding(digits: string, point: int, digitsAfterPoint: nat, style: Style)
    requires AllDigits(digits) && digits != [] && digits[0] != '0' && EnoughDigits(digits, point, digitsAfterPoint)
    requires 0 < point < |digits|
    ensures Padded(DecimalNumeral(digits, point, digitsAfterPoint, style), digits, point, 0,
                   digitsAfterPoint + point - |digits|)
  {
    hide Zeros;
    var b := digitsAfterPoint + point - |digits|;
    ZerosAreDigits(b);
    NoZeros();
    assert digits == digits[..point] + digits[point..];
    PaddingBetween(digits[..point], digits[point..], Zeros(b));
    assert digits[..point][0] == digits[0];
  }

  lemma PaddingBetween(a: string, b: string, c: string)
    ensures a + (b + c) == "" + ((a + b) + c)
  {
  }

  lemma PaddedDenotes(n: Numeral, digits: string, point: int, a: nat, b: nat)
    requires digits != [] && digits[0] != '0' && Padded(n, digits, point, a, b)
    ensures n.Valid() && n.Exponent() == n.ClampedExponent() == 0 && n.Digits() == digits + Zeros(b) && !n.OctalDigits()
  {
    hide Zeros;
    OneZero();
    Unpadded(n, digits, a, b);
  }

  /** The decimal representation has the digits, zeros behind them, and as many digits behind its point as that
      needs. */
  lemma DecimalDenotes(digits: string, point: int, digitsAfterPoint: nat, style: Style) returns (b: nat)
    requires AllDigits(digits) && digits != [] && digits[0] != '0' && EnoughDigits(digits, point, digitsAfterPoint)
      && style.Valid()
    ensures var n := DecimalNumeral(digits, point, digitsAfterPoint, style);
            && n.Valid() && n.Exponent() == n.ClampedExponent() == 0 && !n.OctalDigits()
            && n.Digits() == digits + Zeros(b) && b - |n.fraction| == point - |digits|
  {
    hide DecimalNumeral, Numeral.Valid, Numeral.Digits, Numeral.Exponent, Numeral.ClampedExponent, Numeral.OctalDigits;
    var n := DecimalNumeral(digits, point, digitsAfterPoint, style);
    var a := if point <= 0 then 1 - point else 0;
    if point <= 0 {
      b := digitsAfterPoint + point - |digits|;
      SmallPadding(digits, point, digitsAfterPoint, style);
    } else if point >= |digits| {
      b := point - |digits| + |n.fraction|;
      LargePadding(digits, point, digitsAfterPoint, style);
    } else {
      b := digitsAfterPoint + point - |digits|;
      SplitPadding(digits, point, digitsAfterPoint, style);
    }
    PaddedDenotes(n, digits, point, a, b);
  }

  lemma NoZeros()
    ensures Zeros(0) == ""
  {
  }

  lemma OneZero()
    ensures Zeros(1) == "0" && WithoutLeadingZeros("0") == ""
  {
    assert "0"[1..] == "";
  }

  lemma MoreZeros(n: nat)
    ensures "0" + Zeros(n) == Zeros(n + 1)
  {
  }

  lemma AddZeros(m: nat, n: nat)
    ensures Zeros(m) + Zeros(n) == Zeros(m + n)
  {
  }

  lemma ExponentialDenotes(digits: string, exponent: int, power: string, style: Style)
    requires AllDigits(digits) && digits != [] && digits[0] != '0' && style.Valid() && -10000 < exponent < 10000
    requires AllDigits(power) && power != [] && Decimal(power) == if exponent < 0 then 0 - exponent else exponent
    ensures var n := ExponentialNumeral(digits, exponent, power, style);
            && n.Valid() && n.Exponent() == n.ClampedExponent() == exponent && !n.OctalDigits()
            && n.Digits() == digits && |n.fraction| == |digits| - 1
  {
    hide Decimal;
    var n := ExponentialNumeral(digits, exponent, power, style);
    assert n.whole + n.fraction == digits;
    assert n.whole[0] == digits[0];
  }

  // ---- Reading it again ----

  /** The digits that the buffer takes up are read as all digits together. */
  lemma CutIsRead(d: string, k: int)
    requires AllDigits(d) && d != [] && d[0] != '0'
    ensures AllDigits(Cut(d)) && ReadAlike(Decimal(d), k, Decimal(Cut(d)), k + |d| - |Cut(d)|)
  {
    hide Decimal, ReadAlike;
    if |d| <= MAX_SIGNIFICANT_DIGITS {
      assert d[..|d|] == d;
      AlikeItself(Decimal(d), k);
    } else if NonzeroFrom(d, MAX_SIGNIFICANT_DIGITS) {
      PositiveFrom(d, MAX_SIGNIFICANT_DIGITS);
      CutReadsAlike(d, k, MAX_SIGNIFICANT_DIGITS);
    } else {
      TrailingZeros(d, MAX_SIGNIFICANT_DIGITS);
      ShiftReadsAlike(Decimal(Cut(d)), |d| - MAX_SIGNIFICANT_DIGITS, k);
    }
  }

  lemma AlikeItself(c: nat, k: int)
    ensures ReadAlike(c, k, c, k)
  {
  }

  lemma PositiveFrom(d: string, i: nat)
    requires AllDigits(d) && NonzeroFrom(d, i) && i <= |d|
    ensures Decimal(d[i..]) > 0
  {
    var j :| i <= j < |d| && d[j] != '0';
    assert d[i..][j - i] == d[j];
    NonzeroIsPositive(d[i..], j - i);
  }

  /** Whatever the scanner says of a numeral is read as the numeral itself, however many digits it has. */
  lemma ScannedReadsAlike(r: Scanned, sign: bool, n: Numeral)
    requires n.Valid() && n.Digits() != [] && ScannedRight(r, sign, n)
    ensures r.DecimalDigits? && r.sign == sign && AllDigits(r.buffer) && AllDigits(n.Digits())
    ensures ReadAlike(Decimal(n.Digits()), n.ClampedExponent() - |n.fraction|, Decimal(r.buffer), r.exponent)
  {
    hide ReadAlike, Cut, Decimal, WithoutLeadingZeros, Numeral.ClampedExponent;
    AllDigitsConcat(n.whole, n.fraction);
    LeadingDigits(n.whole + n.fraction);
    CutIsRead(n.Digits(), n.ClampedExponent() - |n.fraction|);
  }

  lemma AllDigitsConcat(s: string, t: string)
    requires AllDigits(s) && AllDigits(t)
    ensures AllDigits(s + t)
  {
  }

  lemma {:induction false} LeadingDigits(s: string)
    requires AllDigits(s)
    ensures AllDigits(WithoutLeadingZeros(s)) && (WithoutLeadingZeros(s) != [] ==> WithoutLeadingZeros(s)[0] != '0')
    ensures |WithoutLeadingZeros(s)| <= |s|
  {
    if s != [] && s[0] == '0' {
      LeadingDigits(s[1..]);
    }
  }

  lemma {:induction false} NonzeroIsPositive(s: string, i: nat)
    requires AllDigits(s) && i < |s| && s[i] != '0'
    ensures Decimal(s) > 0
  {
    if i < |s| - 1 {
      NonzeroIsPositive(s[..|s| - 1], i);
    }
  }

  /** Zeros at the end may move into the exponent. */
  lemma ShiftReadsAlike(c: nat, j: nat, k: int)
    ensures ReadAlike(c * Pow(10, j), k, c, k + j)
  {
    forall d: Bits
      ensures ReadsAs(c * Pow(10, j), k, d) <==> ReadsAs(c, k + j, d)
    {
      GapShift(c, k + j, Lower(d), j);
      GapShift(c, k + j, Upper(d), j);
      assert k + j - j == k;
      hide Gap;
    }
  }

  /** The buffer has the same digits, perhaps with zeros behind them, and the exponent that goes with them. */
  predicate SameNumber(digits: string, point: int, buffer: string, exponent: int)
  {
    |buffer| >= |digits| && buffer == digits + Zeros(|buffer| - |digits|) && exponent == point - |buffer|
  }

  /** What the scanner hands on is read as the digits with their point; up to 772 digits it is the same number. */
  ghost predicate ScannedAs(r: Scanned, sign: bool, digits: string, point: int)
    requires AllDigits(digits)
  {
    && r.DecimalDigits? && r.sign == sign && AllDigits(r.buffer)
    && ReadAlike(Decimal(digits), point - |digits|, Decimal(r.buffer), r.exponent)
    && (|digits| <= MAX_SIGNIFICANT_DIGITS ==> SameNumber(digits, point, r.buffer, r.exponent))
  }

  lemma PaddedIsRead(r: Scanned, sign: bool, n: Numeral, digits: string, point: int, b: nat)
    requires n.Valid() && AllDigits(digits) && digits != []
    requires n.Digits() == digits + Zeros(b) && n.ClampedExponent() - |n.fraction| + b == point - |digits|
    requires ScannedRight(r, sign, n)
    ensures ScannedAs(r, sign, digits, point)
  {
    hide ReadAlike, Decimal, WithoutLeadingZeros, Numeral.Digits, Numeral.Exponent, Numeral.ClampedExponent, Cut, Zeros,
         SameNumber, AllDigits,
         Numeral.Valid,
         ScannedRight;
    var k := n.ClampedExponent() - |n.fraction|;
    ScannedReadsAlike(r, sign, n);
    ZerosBehind(digits, b);
    ShiftReadsAlike(Decimal(digits), b, k);
    AlikeTransitive(Decimal(digits), point - |digits|, Decimal(n.Digits()), k, Decimal(r.buffer), r.exponent);
    if |digits| <= MAX_SIGNIFICANT_DIGITS {
      PaddedIsSame(r, sign, n, digits, point, b);
    }
  }

  lemma PaddedIsSame(r: Scanned, sign: bool, n: Numeral, digits: string, point: int, b: nat)
    requires n.Valid() && 0 < |digits| <= MAX_SIGNIFICANT_DIGITS
    requires n.Digits() == digits + Zeros(b) && n.ClampedExponent() - |n.fraction| + b == point - |digits|
    requires ScannedRight(r, sign, n) && r.DecimalDigits?
    ensures SameNumber(digits, point, r.buffer, r.exponent)
  {
    hide Numeral.Valid, Numeral.Digits, Numeral.Exponent, Numeral.ClampedExponent, Cut;
    PaddedCut(digits, b);
    assert n.Digits()[0] == digits[0];
    assert n.Digits() != [];
  }

  lemma PaddedCut(digits: string, b: nat)
    requires |digits| <= MAX_SIGNIFICANT_DIGITS
    ensures var c := Cut(digits + Zeros(b)); |c| >= |digits| && c == digits + Zeros(|c| - |digits|)
  {
    var d := digits + Zeros(b);
    var m := Least(|d|, MAX_SIGNIFICANT_DIGITS);
    assert forall k :: MAX_SIGNIFICANT_DIGITS <= k < |d| ==> d[k] == Zeros(b)[k - |digits|];
    assert d[..m] == digits + Zeros(m - |digits|);
  }

  lemma AlikeTransitive(c: nat, k: int, c': nat, k': int, c'': nat, k'': int)
    requires ReadAlike(c', k', c, k) && ReadAlike(c', k', c'', k'')
    ensures ReadAlike(c, k, c'', k'')
  {
    hide ReadsAs;
  }

  /** Scanning the decimal representation gives the digits back. */
  lemma DecimalRoundTrip(digits: string, point: int, digitsAfterPoint: nat, style: Style, flags: Flags, minus: string,
                         r: Scanned)
    requires AllDigits(digits) && digits != [] && digits[0] != '0'
    requires EnoughDigits(digits, point, digitsAfterPoint) && style.Valid() && minus in {"", "+", "-"}
    ensures var n := DecimalNumeral(digits, point, digitsAfterPoint, style);
            Spells(minus + n.Text(), minus, n, flags)
              && (ScannedRight(r, minus == "-", n) ==> ScannedAs(r, minus == "-", digits, point))
  {
    hide DecimalNumeral, Numeral.Text, Numeral.Digits, Numeral.Exponent, Numeral.ClampedExponent, Numeral.Valid,
         Numeral.OctalDigits,
         ScannedRight, ScannedAs, Zeros,
         AllDigits;
    var n := DecimalNumeral(digits, point, digitsAfterPoint, style);
    var b := DecimalDenotes(digits, point, digitsAfterPoint, style);
    if ScannedRight(r, minus == "-", n) {
      PaddedIsRead(r, minus == "-", n, digits, point, b);
    }
  }

  /** Scanning the exponential representation gives the digits back. */
  lemma ExponentialRoundTrip(digits: string, exponent: int, power: string, style: Style, flags: Flags, minus: string,
                             r: Scanned)
    requires AllDigits(digits) && digits != [] && digits[0] != '0' && style.Valid() && -10000 < exponent < 10000
    requires AllDigits(power) && power != [] && Decimal(power) == if exponent < 0 then 0 - exponent else exponent
    requires minus in {"", "+", "-"}
    ensures var n := ExponentialNumeral(digits, exponent, power, style);
            && Spells(minus + n.Text(), minus, n, flags)
            && (ScannedRight(r, minus == "-", n) ==> ScannedAs(r, minus == "-", digits, exponent + 1))
  {
    hide ExponentialNumeral, Numeral.Text, Numeral.Digits, Numeral.Exponent, Numeral.ClampedExponent, Numeral.Valid,
         Numeral.OctalDigits,
         ScannedRight, ScannedAs,
         Zeros, AllDigits;
    var n := ExponentialNumeral(digits, exponent, power, style);
    ExponentialDenotes(digits, exponent, power, style);
    NoZeros();
    assert digits + "" == digits;
    if ScannedRight(r, minus == "-", n) {
      PaddedIsRead(r, minus == "-", n, digits, exponent + 1, 0);
    }
  }
}
