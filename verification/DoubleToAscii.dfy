/** Choosing between the fast and the slow printers, as DoubleToStringConverter does. */
module DoubleToAscii {
  import opened Arith
  import opened Machine
  import opened Digits
  import opened PrintSpec
  import opened PowerEstimates
  import opened StartValues
  import opened Ieee
  import opened DiyFps
  import opened SlowDtoa = BignumDtoa
  import Fixed = FixedDtoa
  import opened Grisu

  const SIGN_BIT: nat := 0x8000_0000_0000_0000

  /** The bit pattern of the magnitude. */
  function WithoutSign(bits: uint64): nat
  {
    bits % SIGN_BIT
  }

  /** A positive double printed in a mode, whichever printer did it. */
  ghost predicate PrintedDouble(d: Bits, mode: Mode, requested: nat, s: string, point: int)
  {
    Printed(Significand(d), Exponent(d), LowerBoundaryIsCloser(d), mode, requested, s, point)
  }

  /** A cached power that brings this double into the target range. */
  ghost predicate FittingPower(d: Bits, c: nat, e: int, mk: int)
  {
    CachedPower(c, e, mk) && forall sh: nat :: Fills(Significand(d), sh) ==> InTargetRange(Exponent(d) - sh + e + 64)
  }

  /** Enough room for the digits of every printer. */
  ghost predicate EnoughBuffer(d: Bits, mode: Mode, requested: nat, length: nat)
  {
    match mode
    case ShortestMode => 18 <= length
    case PrecisionMode => Max(1, requested) < length
    case FixedMode =>
      22 + requested < length
      && forall k :: PowerEstimate(Significand(d), Exponent(d), k) ==> BufferNeeded(mode, k, requested) <= length
  }

  /** Tries the fast printer, and falls back to the slow one. */
  method PositiveToAscii(d: Bits, mode: Mode, requestedDigits: nat, rounding: real, tenMk: DiyFp, mk: int,
                         buffer: array<char>)
    returns (length: nat, point: int)
    requires 0 < d < INFINITY && (mode == PrecisionMode ==> requestedDigits > 0) && SmallError(rounding)
    requires FittingPower(d, tenMk.f, tenMk.e, mk) && EnoughBuffer(d, mode, requestedDigits, buffer.Length)
    modifies buffer
    ensures length < buffer.Length && buffer[length] == '\0'
    ensures PrintedDouble(d, mode, requestedDigits, buffer[..length], point)
  {
    PartsOfDouble(d);
    HiddenBit();
    var fastWorked;
    hide Pow, PowerEstimate, CachedPower, ShortestDecimal, SignificantDigits, RoundedHalfUp, Decimal, Fills;
    if mode == FixedMode {
      fastWorked, length, point := Fixed.FastFixedDtoa(Significand(d), Exponent(d), requestedDigits, buffer);
    } else {
      fastWorked, length, point := FastDtoa(Significand(d), Exponent(d), LowerBoundaryIsCloser(d), mode,
                                            requestedDigits, tenMk, mk, buffer);
    }
    if !fastWorked {
      length, point := SlowDtoa.BignumDtoa(Significand(d), Exponent(d), LowerBoundaryIsCloser(d), rounding, mode,
                                           requestedDigits, buffer);
    }
  }

  /** Splits off the sign and treats zero, and asks for the digits of everything else. */
  method ToAscii(bits: uint64, mode: Mode, requestedDigits: nat, rounding: real, tenMk: DiyFp, mk: int,
                 buffer: array<char>)
    returns (sign: bool, length: nat, point: int)
    requires WithoutSign(bits) < INFINITY && SmallError(rounding)
    requires FittingPower(WithoutSign(bits), tenMk.f, tenMk.e, mk)
    requires EnoughBuffer(WithoutSign(bits), mode, requestedDigits, buffer.Length)
    modifies buffer
    ensures sign <==> bits >= SIGN_BIT
    ensures length < buffer.Length && buffer[length] == '\0'
    ensures if mode == PrecisionMode && requestedDigits == 0 then length == 0
            else if WithoutSign(bits) == 0 then buffer[..length] == "0" && point == 1
            else PrintedDouble(WithoutSign(bits), mode, requestedDigits, buffer[..length], point)
  {
    var v := bits;
    if v >= SIGN_BIT {
      sign := true;
      v := v - SIGN_BIT;
    } else {
      sign := false;
    }
    point := 0;
    if mode == PrecisionMode && requestedDigits == 0 {
      buffer[0] := '\0';
      length := 0;
      return;
    }
    if v == 0 {
      buffer[0] := '0';
      buffer[1] := '\0';
      length := 1;
      point := 1;
      assert buffer[..1] == ['0'];
      return;
    }
    length, point := PositiveToAscii(v, mode, requestedDigits, rounding, tenMk, mk, buffer);
  }
}
