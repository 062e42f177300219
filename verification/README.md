# Verified core of the native libraries and of the sync queue

This project models four parts of the application and the native libraries it ships, and proves what they
are for:

* **Decimal and binary conversion** (double-conversion). `Bignum` is a class over a fixed array of 28-bit
  bigits. Its operations are exact on values, in place, without wrap-around. On top of it stand the digit
  generators of the printer, the comparison and the final decision of the reader, the fast fixed-point
  printer in 64- and 128-bit arithmetic, Grisu3, the fast printer of shortest and of counted digits, the
  representations as text, the scanner, and the parser of power-of-two radices. Numbers are compared exactly:
  `DecimalOrder` orders c * 10^k against x / 2^1076 by integers alone, and every finite double and every
  boundary between two doubles is such an x. The main results are the shortest digits, the correct reading, the
  round trip from bits to text and back, and the agreement of the fast printers with the slow one.
* **The lock-free hash map** (folly). `AtomicHash` is a state machine whose steps are single atomic accesses of
  any number of threads. `AtomicHashInvariant` has the inductive invariant, `AtomicHashRuns` what follows for
  every run: unique keys, a final "full", and every operation taking effect at one moment.
* **The key-value log** (MMKV). `Mmkv` is a class over the bytes of the mapped file with the index as a map.
  Set, remove, overwrite, compaction by moving bytes, and growth keep the index equal to the replay of the
  file; `MmkvReader` is the replay itself; `MmkvSharing` lets several processes share the file, and `MmkvLoading`
  is one of them at work on its bytes. `Cfb` and `MmkvCrypt` are the stream cipher and the reader of encrypted
  files, which serves what the plain reader does. `MiniPbCoder` encodes vectors and decodes them.
* **The sync queue** of the app, with a step for each stretch of code between two awaits.

Files: `Arith`, `Machine` (integer widths), `Bigits`, `Digits` (foundations); `Bignum`; `DtoaSpec`,
`DecimalOrder`, `PrintSpec` (what printing promises); `StartValues`, `PowerEstimates`, `BignumDtoa`; `Ieee`,
`Strtod`, `RoundTrip`; `FixedDtoa`; `FastDtoa`, `FastCounted` (digit generation from 64-bit approximations),
`DiyFp`, `GrisuTheory`, `Grisu`; `DoubleToAscii`; `RadixStrings`, `RadixDoubles`; `StringScanner`,
`Representations`, `DoubleConversion`; `AtomicHash`, `AtomicHashInvariant`, `AtomicHashRuns`, `AtomicHashChecks`;
`Varint`, `MiniPbCoder`, `MmkvLog`, `Mmkv`, `MmkvReader`, `Cfb`, `MmkvCrypt`, `MmkvSharing`, `MmkvLoading`;
`SyncQueue`.

Where the code and its own comments or checks disagree, the model follows the code:

* The check at `ios/Pods/DoubleConversion/double-conversion/bignum.cc:515` (equal lengths after the reducing
  loop) is not assumed: the number may have become shorter (`LengthsMayDiffer`). Quotient and remainder are right
  all the same.
* The test at `ios/Pods/DoubleConversion/double-conversion/fixed-dtoa.cc:262` shifts by `point - 1` although
  `point` may be 0. The fraction is then 0 (`NothingBehindPoint`), and the model takes the test as false.
* A hexadecimal or octal integer of more than 53 bits loses its sign
  (`ios/Pods/DoubleConversion/double-conversion/double-conversion.cc:584-593`): `HexSignIsLost` reads such a
  number, and `StringToDouble` has the exact condition.
* The exponent of a numeral is clamped on the assumption that the numeral has at most 2^29 - 1 digits
  (`ios/Pods/DoubleConversion/double-conversion/double-conversion.cc:847`). Under it the clamp is harmless
  (`ClampIsRead`); without it the wrong double can be read (`ClampMatters`).
* A vector whose encoded size does not fit into 32 bits is given too small a buffer. The writer then fails and the
  result is empty, or, where the wrapped size is zero, there is no buffer at all
  (`ios/Pods/MMKVCore/Core/MiniPBCoder.cpp:187-205`); `GetEncodeData` says exactly when.
* The check at `ios/Pods/RCT-Folly/folly/AtomicHashArray-inl.h:246` can fail after a value constructor has
  thrown (`CheckCanFail`); without a throw it holds (`FilledWithoutThrows`). None of the results depends on it.

## Model

| member | source | states |
|---|---|---|
| Bignums.Bignum.AssignUInt16 | ios/Pods/DoubleConversion/double-conversion/bignum.cc:48-56 | the number becomes the 16-bit value, whatever was in the array before |
| Bignums.Bignum.AssignUInt64 | ios/Pods/DoubleConversion/double-conversion/bignum.cc:59-73 | the number becomes the 64-bit value, spread over three bigits and clamped |
| Bignums.Bignum.AssignBignum | ios/Pods/DoubleConversion/double-conversion/bignum.cc:76-86 | takes over the value of another number; cells above its length are cleared |
| Bignums.Bignum.AssignDecimalString | ios/Pods/DoubleConversion/double-conversion/bignum.cc:102-120 | the number denoted by a digit string, read in chunks of 19 digits |
| Bignums.Bignum.ReadUInt64 | ios/Pods/DoubleConversion/double-conversion/bignum.cc:89-99 | a slice of at most 19 digits as a 64-bit number that does not wrap |
| Bignums.Bignum.AddUInt64 | ios/Pods/DoubleConversion/double-conversion/bignum.cc:161-166 | adds a 64-bit operand exactly |
| Bignums.Bignum.AddBignum | ios/Pods/DoubleConversion/double-conversion/bignum.cc:169-208 | adds exactly across different exponents; the carry runs on above both operands, and there is room for it |
| Bignums.Bignum.SubtractBignum | ios/Pods/DoubleConversion/double-conversion/bignum.cc:211-235 | subtracts a smaller number exactly; the borrow ends inside the number |
| Bignums.Bignum.ShiftLeft | ios/Pods/DoubleConversion/double-conversion/bignum.cc:238-244 | multiplies by a power of two, through the exponent and a shift inside the bigits |
| Bignums.Bignum.BigitsShiftLeft | ios/Pods/DoubleConversion/double-conversion/bignum.cc:722-735 | the shift inside the bigits; the 32-bit shift that wraps keeps the right 28 bits |
| Bignums.Bignum.MultiplyByUInt32 | ios/Pods/DoubleConversion/double-conversion/bignum.cc:247-270 | multiplies exactly; the 64-bit products do not wrap |
| Bignums.Bignum.MultiplyByUInt64 | ios/Pods/DoubleConversion/double-conversion/bignum.cc:273-297 | multiplies exactly; the carry stays below the factor, so the 64-bit sum never wraps |
| Bignums.Bignum.SplitProduct | ios/Pods/DoubleConversion/double-conversion/bignum.cc:284-289 | the new carry is below the factor and the combined 64-bit sum is in range |
| Bignums.Bignum.MultiplyByPowerOfTen | ios/Pods/DoubleConversion/double-conversion/bignum.cc:300-337 | multiplies by ten to any power that fits, by fives in four sizes and a shift |
| Bignums.Bignum.Square | ios/Pods/DoubleConversion/double-conversion/bignum.cc:340-409 | the value becomes its square in place; no bigit is read after it has been overwritten and the final accumulator is zero |
| Bignums.Bignum.AccumulatorFits | ios/Pods/DoubleConversion/double-conversion/bignum.cc:342-355 | no column sum with its carry exceeds the 64-bit accumulator |
| Bigits.ColumnsProduct | ios/Pods/DoubleConversion/double-conversion/bignum.cc:369-402 | the weighted column sums of the Comba scheme add up to the square of the number |
| Bignums.Bignum.AssignPowerUInt16 | ios/Pods/DoubleConversion/double-conversion/bignum.cc:412-483 | base to the power, through stripping of twos, the 64-bit phase, the delayed multiplication and the bignum phase |
| Bignums.Bignum.DivideModuloIntBignum | ios/Pods/DoubleConversion/double-conversion/bignum.cc:486-549 | returns floor(this / other) and leaves the clamped remainder, for every other > 0 with a quotient below 2^16 |
| Bignums.Bignum.ReduceToLength | ios/Pods/DoubleConversion/double-conversion/bignum.cc:499-513 | subtracting by the leading bigit keeps the division equation until the lengths agree; the number may end up shorter than the divisor |
| Bignums.Bignum.LengthsMayDiffer | ios/Pods/DoubleConversion/double-conversion/bignum.cc:501-515 | 2^56 reduced by 2^56 - 1 is shorter than the divisor, so the check of equal lengths fails on it |
| Bignums.Bignum.DivideByEstimate | ios/Pods/DoubleConversion/double-conversion/bignum.cc:533-548 | the top-bigit estimate and the correction loop leave exactly quotient and remainder |
| Bignums.Bignum.TopEstimate | ios/Pods/DoubleConversion/double-conversion/bignum.cc:533-542 | the estimate from the leading bigits is never too large, and exact if no bigit follows that could change it |
| Bignums.Bignum.SubtractTimes | ios/Pods/DoubleConversion/double-conversion/bignum.cc:738-763 | subtracts a multiple exactly, through the early return as well; the number stays clamped |
| Bignums.Bignum.Compare | ios/Pods/DoubleConversion/double-conversion/bignum.cc:618-633 | the sign of the difference of the two values |
| Bignums.Bignum.PlusCompare | ios/Pods/DoubleConversion/double-conversion/bignum.cc:636-670 | the sign of a + b - c, decided from a borrow of zero or one |
| Bignums.Bignum.HighStep | ios/Pods/DoubleConversion/double-conversion/bignum.cc:611-615 | reading one bigit is one step of the division of the value by powers of the base, above and below the stored bigits too |
| Bignums.Bignum.Clamp | ios/Pods/DoubleConversion/double-conversion/bignum.cc:673-681 | drops leading zero bigits and keeps the value |
| Bignums.Bignum.Zero | ios/Pods/DoubleConversion/double-conversion/bignum.cc:689-695 | the number becomes zero and all cells are cleared |
| Bignums.Bignum.Align | ios/Pods/DoubleConversion/double-conversion/bignum.cc:698-719 | lowers the exponent to that of the other number and keeps the value |
| StartValues.PositiveExponent | ios/Pods/DoubleConversion/double-conversion/bignum-dtoa.cc:417-447 | numerator, denominator and both boundary distances for a non-negative exponent |
| StartValues.NegativeExponentPositivePower | ios/Pods/DoubleConversion/double-conversion/bignum-dtoa.cc:450-481 | the same for a negative exponent and a non-negative power of ten |
| StartValues.NegativeExponentNegativePower | ios/Pods/DoubleConversion/double-conversion/bignum-dtoa.cc:484-527 | the same for a negative power of ten, where the numerator first holds the power of ten |
| StartValues.InitialScaledStartValues | ios/Pods/DoubleConversion/double-conversion/bignum-dtoa.cc:568-602 | the four big numbers represent the number and its boundaries over the estimated power of ten, the closer lower boundary included |
| StartValues.EstimateRange | ios/Pods/DoubleConversion/double-conversion/bignum-dtoa.cc:370-384 | any estimate that meets the documented contract lies in a range for which the big numbers have room |
| PowerEstimates.NormalizedExponent | ios/Pods/DoubleConversion/double-conversion/bignum-dtoa.cc:37-44 | the exponent of the number once its significand fills 53 bits |
| PowerEstimates.TwosAbove | ios/Pods/DoubleConversion/double-conversion/bignum-dtoa.cc:385-413 | 10^643 is at most 2^2136: the logarithm from one side, for all powers by ScaleOrder |
| PowerEstimates.TwosBelow | ios/Pods/DoubleConversion/double-conversion/bignum-dtoa.cc:385-413 | 2^485 is at most 10^146: the logarithm from the other side |
| PowerEstimates.EstimatePower | ios/Pods/DoubleConversion/double-conversion/bignum-dtoa.cc:385-413 | the estimate lies in the range in which the contract holds, whatever the rounding error of the floating-point product is below the bound |
| PowerEstimates.EstimateIsRight | ios/Pods/DoubleConversion/double-conversion/bignum-dtoa.cc:370-384 | the documented contract of the estimate holds for every positive double: 10^(k-1) <= v, and its upper boundary is below 10^(k+1) |
| BignumDtoa.FixupMultiply10 | ios/Pods/DoubleConversion/double-conversion/bignum-dtoa.cc:612-639 | multiplies by ten, and keeps the estimate as the decimal point, exactly if the upper boundary does not reach one |
| BignumDtoa.FixupRange | ios/Pods/DoubleConversion/double-conversion/bignum-dtoa.cc:612-639 | after the correction the fraction with its upper boundary lies in the range that the generators ask for, for every estimate that keeps the contract |
| BignumDtoa.GenerateShortestDigits | ios/Pods/DoubleConversion/double-conversion/bignum-dtoa.cc:185-274 | the digits are inside the rounding interval, no shorter number is, none of the same length is closer, the first digit is not zero, and the loop ends; the two distances may share one big number |
| BignumDtoa.GeneratingStep | ios/Pods/DoubleConversion/double-conversion/bignum-dtoa.cc:193-224 | if neither room is reached, no candidate of this length lies in the interval, and the next digit continues the number |
| BignumDtoa.EndsInTime | ios/Pods/DoubleConversion/double-conversion/bignum-dtoa.cc:193-273 | as long as the loop goes on, ten to the number of digits is below the ratio of denominator and distance, so it ends within that many digits |
| BignumDtoa.NineIsNeverRoundedUp | ios/Pods/DoubleConversion/double-conversion/bignum-dtoa.cc:228-270 | a last digit of nine is never rounded up |
| BignumDtoa.GenerateCountedDigits | ios/Pods/DoubleConversion/double-conversion/bignum-dtoa.cc:283-315 | exactly the requested number of digits, rounded half up, with the carry run through the nines and the decimal point moved |
| BignumDtoa.CarryDigits | ios/Pods/DoubleConversion/double-conversion/bignum-dtoa.cc:303-309 | propagating a ten keeps the number that the digits denote |
| BignumDtoa.BignumToFixed | ios/Pods/DoubleConversion/double-conversion/bignum-dtoa.cc:326-367 | the number rounded half up at the requested place, also when no digit or a single one is left |
| BignumDtoa.BignumDtoa | ios/Pods/DoubleConversion/double-conversion/bignum-dtoa.cc:89-170 | in each mode the string and the decimal point denote what the mode promises, for every double and every rounding error of the power estimate |
| BignumDtoa.SeventeenDigits | ios/Pods/DoubleConversion/double-conversion/bignum-dtoa.cc:185-274 | the shortest digits of a double are at most seventeen |
| BignumDtoa.NotExactPower | ios/Pods/DoubleConversion/double-conversion/bignum-dtoa.cc:612-639 | no double with an odd normalised significand equals the power of ten at which the fixup of the counted modes would go wrong |
| DtoaSpec.NoCandidate | ios/Pods/DoubleConversion/double-conversion/bignum-dtoa.cc:200-224 | a remainder in neither room rules out every decimal number of that length |
| DtoaSpec.Choose | ios/Pods/DoubleConversion/double-conversion/bignum-dtoa.cc:225-270 | the final choice is inside the interval and at least as close as every other number of that length |
| PrintSpec.RoundedUnique | ios/Pods/DoubleConversion/double-conversion/bignum-dtoa.cc:317-367 | the rounded number is determined by the place |
| PrintSpec.RoundsToZero | ios/Pods/DoubleConversion/double-conversion/bignum-dtoa.cc:115-126 | a number that far below the last place rounds to zero there |
| FastDtoa.RoundWeed | ios/Pods/DoubleConversion/double-conversion/fast-dtoa.cc:61-166 | when it returns true the digits are in the safe interval and no neighbour in the unsafe interval is as close to any number that w may stand for; the last digit never falls below zero and no 64-bit step wraps |
| FastDtoa.NoMultipleMeans | ios/Pods/DoubleConversion/double-conversion/fast-dtoa.cc:300-396 | stopping at the first length that reaches the interval leaves no number with fewer digits in it |
| FastDtoa.BiggestPowerTen | ios/Pods/DoubleConversion/double-conversion/fast-dtoa.cc:240-256 | the biggest power of ten up to the number, by the guess 1233 / 4096 and one comparison |
| FastDtoa.RoomForDigit | ios/Pods/DoubleConversion/double-conversion/fast-dtoa.cc:344-395 | as long as the loop goes on there is room in the buffer |
| FastDtoa.DigitGen | ios/Pods/DoubleConversion/double-conversion/fast-dtoa.cc:300-396 | too_high is the digits times ten to kappa plus the rest in both loops; a result that is kept meets all conditions of the weeding |
| FastCounted.RoundWeedCounted | ios/Pods/DoubleConversion/double-conversion/fast-dtoa.cc:181-223 | when it returns true every number within the error rounds to the digits, the carry through the nines included |
| FastCounted.DigitGenCounted | ios/Pods/DoubleConversion/double-conversion/fast-dtoa.cc:428-505 | exactly the requested number of digits, rounded rightly for every number within the error, with the right decimal point |
| DiyFps.DiyFp.Multiply | ios/Pods/DoubleConversion/double-conversion/diy-fp.cc:34-54 | the 128-bit product divided by 2^64 and rounded half up, from four 64-bit products that do not wrap |
| DiyFps.UpperHalf | ios/Pods/DoubleConversion/double-conversion/diy-fp.cc:44-52 | adding the partial products and half a unit gives the rounded upper half exactly |
| DiyFps.DiyFp.Normalize | ios/Pods/DoubleConversion/double-conversion/diy-fp.h:77-95 | shifts until the top bit is set; the number stays the same |
| Grisu.AsNormalizedDiyFp | ios/Pods/DoubleConversion/double-conversion/ieee.h:66-80 | significand and exponent of the double with the leading bit in front, denormals included |
| Grisu.NormalizedBoundaries | ios/Pods/DoubleConversion/double-conversion/ieee.h:171-184 | both boundaries with the exponent of the normalised double, the closer lower one included |
| Grisu.ProductWithin | ios/Pods/DoubleConversion/double-conversion/fast-dtoa.cc:554-571 | rounding the cached power and rounding the product together cost less than one unit |
| Grisu.RoomForSeventeen | ios/Pods/DoubleConversion/double-conversion/fast-dtoa.cc:519-583 | seventeen digits are enough to tell the scaled boundaries apart |
| Grisu.Grisu3 | ios/Pods/DoubleConversion/double-conversion/fast-dtoa.cc:519-583 | a result that is kept is the shortest decimal between the exact boundaries of the double and the closest of that length |
| Grisu.Grisu3Counted | ios/Pods/DoubleConversion/double-conversion/fast-dtoa.cc:591-632 | a result that is kept is the exact number rounded to the requested digits |
| Grisu.FastDtoa | ios/Pods/DoubleConversion/double-conversion/fast-dtoa.cc:635-663 | success promises the same as the big-number printer does in that mode |
| Grisu.FastIsSlow | ios/Pods/DoubleConversion/double-conversion/fast-dtoa.h:44-82 | the fast and the big-number printer can only produce the same digits and the same decimal point |
| GrisuTheory.Compare | ios/Pods/DoubleConversion/double-conversion/fast-dtoa.cc:96-113 | a decimal outside the error of the scaled number compares with the exact number as with the scaled one |
| GrisuTheory.GrisuIsShortest | ios/Pods/DoubleConversion/double-conversion/fast-dtoa.cc:286-296 | what the digit generation keeps is the shortest decimal between the exact boundaries, none of that length is closer, and the decimal point is right |
| GrisuTheory.CountedIsRounded | ios/Pods/DoubleConversion/double-conversion/fast-dtoa.cc:413-423 | what the counted generation keeps is the exact number rounded to that many significant digits |
| GrisuTheory.ShortestUnique | ios/Pods/DoubleConversion/double-conversion/bignum-dtoa.cc:172-183 | the shortest and closest decimal is determined, digits and decimal point; a tie of two even last digits cannot occur |
| GrisuTheory.SignificantUnique | ios/Pods/DoubleConversion/double-conversion/bignum-dtoa.cc:276-283 | rounding to a number of significant digits is determined, digits and decimal point |
| DoubleToAscii.ToAscii | ios/Pods/DoubleConversion/double-conversion/double-conversion.cc:355-414 | sign, zero and the empty request apart, the digits are what the mode promises, whichever printer made them |
| DecimalOrder.GapShift | ios/Pods/DoubleConversion/double-conversion/strtod.cc:392-417 | comparing with a decimal number does not depend on how its power of ten is split |
| Ieee.PartsOfDouble | ios/Pods/DoubleConversion/double-conversion/ieee.h:111-133 | every positive finite bit pattern has the parts that the printers ask for |
| Ieee.SharedBoundary | ios/Pods/DoubleConversion/double-conversion/ieee.h:162-198 | the upper boundary of a double is the lower boundary of the next, across a change of exponent too |
| Ieee.ReadsAsUnique | ios/Pods/DoubleConversion/double-conversion/strtod.cc:448-472 | no decimal number is read as two doubles, halfway cases included |
| Strtod.TrimLeadingZeros | ios/Pods/DoubleConversion/double-conversion/strtod.cc:91-98 | drops leading zeros and nothing else |
| Strtod.TrimTrailingZeros | ios/Pods/DoubleConversion/double-conversion/strtod.cc:101-108 | drops trailing zeros and nothing else |
| Strtod.CutToMaxSignificantDigits | ios/Pods/DoubleConversion/double-conversion/strtod.cc:111-130 | keeps 779 digits and a one, so that the number is read as before |
| Strtod.CutKeepsOrder | ios/Pods/DoubleConversion/double-conversion/strtod.cc:111-130 | cutting keeps the order against every multiple of the last copied digit's unit |
| Strtod.BoundaryReach | ios/Pods/DoubleConversion/double-conversion/strtod.cc:86-89 | every boundary near the number is such a multiple when 780 digits are present |
| Strtod.TrimAndCut | ios/Pods/DoubleConversion/double-conversion/strtod.cc:133-150 | trimming and cutting together do not change what the string is read as |
| Strtod.CompareBufferWithDiyFp | ios/Pods/DoubleConversion/double-conversion/strtod.cc:392-417 | the exact sign of buffer * 10^exponent - f * 2^e, with both big numbers inside their capacity |
| Strtod.ComputeGuess | ios/Pods/DoubleConversion/double-conversion/strtod.cc:423-446 | zero, too large and too small are decided rightly; otherwise the contract of the fast paths is passed on |
| Strtod.Strtod | ios/Pods/DoubleConversion/double-conversion/strtod.cc:448-472 | the result is the nearest double, ties to even, infinity and zero included, if the fast paths return the right double or the one below |
| Strtod.Decide | ios/Pods/DoubleConversion/double-conversion/strtod.cc:458-471 | comparing with the upper boundary decides between the guess and its successor |
| RoundTrip.PrintedIsReadBack | ios/Pods/DoubleConversion/double-conversion/bignum-dtoa.cc:172-183 | what the shortest mode prints for a double is read as that double again |
| RoundTrip.NoShorterString | ios/Pods/DoubleConversion/double-conversion/bignum-dtoa.cc:172-183 | no string with fewer digits is read as that double |
| RadixStrings.RadixStringToIeee | ios/Pods/DoubleConversion/double-conversion/double-conversion.cc:487-594 | digits of any number in radix 2 to 32 give number * 2^exponent, the denoted integer rounded to 24 or 53 bits, ties to even, in 64-bit arithmetic that does not wrap; the result is negative if and only if there is a sign and the integer itself has no more than those bits; junk is told from spaces |
| RadixStrings.RoundsRight | ios/Pods/DoubleConversion/double-conversion/double-conversion.cc:541-571 | dropped bits, half-way value and tail decide exactly as rounding the whole integer does |
| RadixDoubles.DiyFpToUint64 | ios/Pods/DoubleConversion/double-conversion/ieee.h:233-260 | the bits of f * 2^e; bits that do not fit are dropped, too large is infinity, too small is zero |
| RadixDoubles.RoundedIsNearest | ios/Pods/DoubleConversion/double-conversion/double-conversion.cc:487-594 | an integer rounded to 53 bits is the double that the integer is read as |
| RadixDoubles.RadixStringToDouble | ios/Pods/DoubleConversion/double-conversion/double-conversion.cc:487-594 | the digits are read as the nearest double, infinity included; the sign survives if and only if the integer is below 2^53 |
| RadixDoubles.CutOctal | ios/Pods/DoubleConversion/double-conversion/double-conversion.cc:739-757 | an octal integer of more than 772 digits is read as the double that its first 772 digits are read as, and loses its sign alike |
| StringScanner.CopyWhole | ios/Pods/DoubleConversion/double-conversion/double-conversion.cc:741-755 | the first 772 digits are copied, the others counted, and a dropped digit other than zero is not forgotten |
| StringScanner.CopyFraction | ios/Pods/DoubleConversion/double-conversion/double-conversion.cc:788-802 | digits behind the point go on in the same buffer and lower the exponent |
| StringScanner.ReadPower | ios/Pods/DoubleConversion/double-conversion/double-conversion.cc:847-860 | the decimal number of the exponent, clamped at half of the largest int |
| StringScanner.StringToIeee | ios/Pods/DoubleConversion/double-conversion/double-conversion.cc:597-894 | for a numeral with any sign, point and exponent: its digits without leading zeros, cut to 772 and a one if anything else was dropped, and the exponent that goes with them; a hexadecimal integer is handed on whole, an octal one without its leading zeros and cut to 772 digits; the symbols of infinity and of no number are told apart, with their sign |
| StringScanner.ConsumeSubString | ios/Pods/DoubleConversion/double-conversion/double-conversion.cc:417-429 | true if and only if the whole symbol stands at this place, which is then passed |
| Representations.CreateDecimalRepresentation | ios/Pods/DoubleConversion/double-conversion/double-conversion.cc:113-158 | appends a decimal numeral: the digits with zeros on both sides, the point, and what the flags ask for |
| Representations.CreateExponentialRepresentation | ios/Pods/DoubleConversion/double-conversion/double-conversion.cc:75-110 | appends a numeral with an exponent whose digits denote it |
| Representations.DecimalDenotes | ios/Pods/DoubleConversion/double-conversion/double-conversion.cc:113-158 | that numeral has the digits followed by zeros, and the point in its place |
| Representations.CutIsRead | ios/Pods/DoubleConversion/double-conversion/double-conversion.cc:741-755 | the first 772 digits, with a one for a nonzero rest, are read as all digits together |
| Representations.ScannedReadsAlike | ios/Pods/DoubleConversion/double-conversion/double-conversion.cc:597-894 | what the scanner hands on is read as the numeral itself, however many digits that has |
| Representations.DecimalRoundTrip | ios/Pods/DoubleConversion/double-conversion/double-conversion.cc:113-158 | scanning the decimal representation gives digits and point back: the same number, or for more than 772 digits one that is read alike |
| Representations.ExponentialRoundTrip | ios/Pods/DoubleConversion/double-conversion/double-conversion.cc:75-110 | the same for the exponential representation |
| DoubleConversion.HandleSpecialValues | ios/Pods/DoubleConversion/double-conversion/double-conversion.cc:54-72 | the symbols of infinity and of no number, if there are any |
| DoubleConversion.ToShortestIeeeNumber | ios/Pods/DoubleConversion/double-conversion/double-conversion.cc:161-196 | the text of a finite double is a sign and a numeral that is read as this double and as no other |
| DoubleConversion.StringToDouble | ios/Pods/DoubleConversion/double-conversion/double-conversion.cc:597-908 | every numeral of up to 2^29 - 1 digits is read as the double nearest to it, with its sign (a longer one with the exponent as the scanner clamps it); hexadecimal and octal integers are read as the nearest double, with their sign if and only if they are below 2^53; the symbols of infinity and of no number are read with their sign |
| DoubleConversion.HexSignIsLost | ios/Pods/DoubleConversion/double-conversion/double-conversion.cc:584-593 | minus 2^53 in hexadecimal is read as plus 2^53 |
| DoubleConversion.ClampIsRead | ios/Pods/DoubleConversion/double-conversion/double-conversion.cc:846-861 | for a numeral of up to 2^29 - 1 digits the clamp of the exponent does not change what the numeral is read as |
| DoubleConversion.ClampMatters | ios/Pods/DoubleConversion/double-conversion/double-conversion.cc:846-861 | with 2^30 - 1 zeros behind the point the clamp makes a tenth of the number, and no double is nearest to both |
| DoubleConversion.InfinityIsReadBack | ios/Pods/DoubleConversion/double-conversion/double-conversion.cc:54-72 | an infinity that is printed by its symbol is read back with the same bits |
| DoubleConversion.ShortestIsReadBack | ios/Pods/DoubleConversion/double-conversion/double-conversion.h:130-160 | printing a double shortest and reading the text gives the same bits, in either representation and with any flags; only a zero printed without its sign loses it |
| FixedDtoa.UInt128.Multiply | ios/Pods/DoubleConversion/double-conversion/fixed-dtoa.cc:42-57 | the 128-bit product by a 32-bit number in four columns, if it fits |
| FixedDtoa.UInt128.Shift | ios/Pods/DoubleConversion/double-conversion/fixed-dtoa.cc:59-78 | division or multiplication by a power of two across the two words |
| FixedDtoa.UInt128.DivModPowerOf2 | ios/Pods/DoubleConversion/double-conversion/fixed-dtoa.cc:82-95 | quotient and remainder by a power of two |
| FixedDtoa.UInt128.BitAt | ios/Pods/DoubleConversion/double-conversion/fixed-dtoa.cc:101-107 | a single bit of the 128-bit number |
| FixedDtoa.FillDigits32FixedLength | ios/Pods/DoubleConversion/double-conversion/fixed-dtoa.cc:120-127 | appends the number with leading zeros |
| FixedDtoa.FillDigits32 | ios/Pods/DoubleConversion/double-conversion/fixed-dtoa.cc:130-150 | appends the number without leading zeros, written backwards and exchanged in place |
| FixedDtoa.FillDigits64FixedLength | ios/Pods/DoubleConversion/double-conversion/fixed-dtoa.cc:153-165 | appends a number below 10^17 with seventeen digits |
| FixedDtoa.FillDigits64 | ios/Pods/DoubleConversion/double-conversion/fixed-dtoa.cc:168-186 | appends any 64-bit number without leading zeros |
| FixedDtoa.RoundUp | ios/Pods/DoubleConversion/double-conversion/fixed-dtoa.cc:189-215 | adds one unit of the last digit, with the carry and the decimal point |
| FixedDtoa.FractionStep | ios/Pods/DoubleConversion/double-conversion/fixed-dtoa.cc:243-258 | multiplying by five and moving the binary point yields the next decimal digit, at most nine |
| FixedDtoa.NoOverflow | ios/Pods/DoubleConversion/double-conversion/fixed-dtoa.cc:243-252 | five times the rest fits the word in every iteration |
| FixedDtoa.FillFractionals | ios/Pods/DoubleConversion/double-conversion/fixed-dtoa.cc:230-286 | the digits behind the point are the fraction rounded half up, in the 64-bit and in the 128-bit branch |
| FixedDtoa.TrimZeros | ios/Pods/DoubleConversion/double-conversion/fixed-dtoa.cc:291-306 | dropping zeros on both sides keeps the number |
| FixedDtoa.FastFixedDtoa | ios/Pods/DoubleConversion/double-conversion/fixed-dtoa.cc:309-402 | gives up exactly above exponent 20 or 20 places; otherwise the digits are the number rounded half up at the place, without outer zeros |
| FixedDtoa.FastRefinesSlow | ios/Pods/DoubleConversion/double-conversion/fixed-dtoa.h:36-52 | the fast printer and the big-number printer denote the same number; with outer zeros removed they are the same string and point |
| AtomicHash.Anchor | ios/Pods/RCT-Folly/folly/AtomicHashArray.h:423-427 | the anchor lies inside the table |
| AtomicHashInvariant.StepKeeps | ios/Pods/RCT-Folly/folly/AtomicHashArray-inl.h:164-343 | every atomic step of every thread keeps the invariant over probe positions, owners, counters and submaps |
| AtomicHashInvariant.ClosedMeansAbsent | ios/Pods/RCT-Folly/folly/AtomicHashMap-inl.h:138-151 | a submap that turned an insertion away holds neither the key nor a cell that is being filled for it |
| AtomicHashInvariant.SpinEnds | ios/Pods/RCT-Folly/folly/AtomicHashArray-inl.h:180-195 | when the spin loop ends, no thread can add an entry any more |
| AtomicHashRuns.NobodyIsStuck | ios/Pods/RCT-Folly/folly/AtomicHashArray-inl.h:171-173 | in every reachable state every thread's next access is in bounds |
| AtomicHashRuns.KeyIsUnique | ios/Pods/RCT-Folly/folly/AtomicHashMap-inl.h:133-207 | a key lives in at most one cell of at most one submap |
| AtomicHashRuns.PathIsFull | ios/Pods/RCT-Folly/folly/AtomicHashArray-inl.h:100-123 | on the probe path to a live key there is neither an empty nor a locked cell |
| AtomicHashRuns.NobodyConstructs | ios/Pods/RCT-Folly/folly/AtomicHashArray-inl.h:200-228 | while a key is present, no thread fills a second cell for it |
| AtomicHashRuns.StepOnSet | ios/Pods/RCT-Folly/folly/AtomicHashArray-inl.h:203-325 | a successful insertion adds an absent key, a successful erase removes a present one, and no other step changes the set of keys |
| AtomicHashRuns.PathVisits | ios/Pods/RCT-Folly/folly/AtomicHashArray.h:42-50 | linear probing from any anchor visits every cell |
| AtomicHashRuns.FullIsFinal | ios/Pods/RCT-Folly/folly/AtomicHashArray-inl.h:174-240 | once an insertion has found an array full, no cell of it ever goes from empty to a key again, over any run |
| AtomicHashRuns.NeverMissed | ios/Pods/RCT-Folly/folly/AtomicHashMap-inl.h:297-320 | an operation on a key that is present all the time never reports it absent |
| AtomicHashRuns.Linearizable | ios/Pods/RCT-Folly/folly/AtomicHashMap-inl.h:133-396 | every insert, find and erase takes effect at one moment between its start and its end, at which the set of keys is as its result says |
| AtomicHashChecks.ChecksHold | ios/Pods/RCT-Folly/folly/AtomicHashArray-inl.h:216-235 | the debug checks on indices, locked cells, filled cells and the locked table entry hold in every reachable state |
| AtomicHashChecks.FilledWithoutThrows | ios/Pods/RCT-Folly/folly/AtomicHashArray-inl.h:246 | the check that a compared cell is not empty holds as long as no value constructor has thrown |
| AtomicHashChecks.CheckCanFail | ios/Pods/RCT-Folly/folly/AtomicHashArray-inl.h:246 | with one throw it fails: a run of two threads that ends in the failing check |
| Varint.SizeIsLength | ios/Pods/MMKVCore/Core/PBUtility.cpp:27-38 | the precomputed size is the length of the encoding |
| Varint.WriteVarint | ios/Pods/MMKVCore/Core/CodedOutputData.cpp:140-150 | writes the encoding at a position and nothing else |
| Varint.CodedInputData.ReadRawVarint32 | ios/Pods/MMKVCore/Core/CodedInputData.cpp:179-211 | what an encoder wrote is read back and exactly its bytes are consumed |
| Varint.CodedInputData.ReadInt64 | ios/Pods/MMKVCore/Core/CodedInputData.cpp:56-68 | a 64-bit number is read back from its seven-bit pieces |
| Varint.Size64IsLength | ios/Pods/MMKVCore/Core/PBUtility.cpp:38-60 | the precomputed size of a 64-bit number is the length of its encoding |
| MiniPbCoder.CompiledSizeIsLength | ios/Pods/MMKVCore/Core/MiniPBCoder.cpp:224-285 | the precomputed size of each element, negative 32-bit numbers included, is its encoded size as far as 32 bits can tell |
| MiniPbCoder.MiniPBCoder.PrepareVector | ios/Pods/MMKVCore/Core/MiniPBCoder.cpp:238-360 | the container carries the sum of the sizes, updated through its index while the list grows |
| MiniPbCoder.MiniPBCoder.WritePreparedItems | ios/Pods/MMKVCore/Core/MiniPBCoder.cpp:187-205 | writes everything if it fits the buffer, and returns an empty one if it does not |
| MiniPbCoder.GetEncodeData | ios/Pods/MMKVCore/Core/MiniPBCoder.cpp:238-258 | the encoded vector, if and only if its size fits into 32 bits; beyond that the buffer is too small, or was never allocated |
| MiniPbCoder.DecodeOneVector | ios/Pods/MMKVCore/Core/MiniPBCoder.cpp:364-463 | an encoded vector of strings or numbers comes back, if and only if no string is as long as 2^31 bytes |
| MmkvLog.IndexLies | ios/Pods/MMKVCore/Core/KeyValueHolder.cpp:30-40 | every index entry points at a record in the file that holds the key and its last value |
| MmkvLog.EntriesApart | ios/Pods/MMKVCore/Core/MMKV_IO.cpp:1189-1196 | the records of two live keys do not overlap |
| MmkvStore.SortByOffset | ios/Pods/MMKVCore/Core/MMKV_IO.cpp:1191-1197 | all live keys, each once, in the order of their offsets |
| MmkvStore.MergeSections | ios/Pods/MMKVCore/Core/MMKV_IO.cpp:1199-1210 | merging adjacent records keeps the bytes that will be gathered: exactly the compacted log |
| MmkvStore.MoveSections | ios/Pods/MMKVCore/Core/MMKV_IO.cpp:1211-1217 | moving the sections to the front in place never overwrites a byte that is still to be read |
| MmkvStore.UpdateOffsets | ios/Pods/MMKVCore/Core/MMKV_IO.cpp:1218-1225 | the new offsets tile the compacted file without a gap |
| MmkvStore.PrepareEncode | ios/Pods/MMKVCore/Core/MMKV_IO.cpp:420-428 | the size computed beforehand is the size of the compacted file |
| MmkvStore.Mmkv.DoFullWriteBack | ios/Pods/MMKVCore/Core/MMKV_IO.cpp:1183-1236 | after compaction the index is the replay of the new file and the contents are unchanged |
| MmkvStore.Mmkv.CompactedMeaning | ios/Pods/MMKVCore/Core/MMKV_IO.cpp:1218-1225 | the compacted log has the same contents, and the rewritten index is its replay |
| MmkvStore.Mmkv.EnsureMemorySize | ios/Pods/MMKVCore/Core/MMKV_IO.cpp:472-493 | success leaves more room than asked for; with entries and room enough nothing moves, so a repeated call keeps the key bytes in place |
| MmkvStore.Mmkv.ExpandAndWriteBack | ios/Pods/MMKVCore/Core/MMKV_IO.cpp:513-545 | grows until it fits, then compacts; if the file cannot grow nothing has changed |
| MmkvStore.Mmkv.DoAppendDataWithKey | ios/Pods/MMKVCore/Core/MMKV_IO.cpp:902-961 | one record more behind the log, and the holder that replaying would give |
| MmkvStore.Mmkv.AppendForHolder | ios/Pods/MMKVCore/Core/MMKV_IO.cpp:1077-1100 | the same with the key copied from its place in the file, read after a compaction has moved it |
| MmkvStore.Mmkv.DoOverrideDataWithKey | ios/Pods/MMKVCore/Core/MMKV_IO.cpp:963-1040 | the only record is written from the beginning; the overlapping copy of the key is forwards |
| MmkvStore.Mmkv.SetDataForKey | ios/Pods/MMKVCore/Core/MMKV_IO.cpp:662-812 | the store maps the key to the value and the index is again the replay of the file; a failed write changes no value |
| MmkvStore.Mmkv.RemoveDataForKey | ios/Pods/MMKVCore/Core/MMKV_IO.cpp:830-900 | removes a present key by a tombstone; otherwise the store is unchanged |
| MmkvStore.Mmkv.GetDataForKey | ios/Pods/MMKVCore/Core/MMKV_IO.cpp:624-645 | finds exactly the last value written for the key |
| MmkvReader.ReadRecord | ios/Pods/MMKVCore/Core/MiniPBCoder.cpp:511-526 | reads one record and updates the index, or removes the key for an empty value |
| MmkvReader.DecodeOneMap | ios/Pods/MMKVCore/Core/MiniPBCoder.cpp:504-547 | replaying a whole file, or the rest behind an earlier replay, gives exactly the index of the log |
| MmkvReader.LoadFromFile | ios/Pods/MMKVCore/Core/MMKV_IO.cpp:116-123 | decoding the plain file of a store from the beginning gives its index back |
| Cfb.AesCrypt.Decrypt | ios/Pods/MMKVCore/Core/aes/openssl/openssl_cfb128.cpp:59-93 | decrypts any number of bytes from any place inside a block, and leaves the state from which the next byte goes on |
| Cfb.AesCrypt.StatusBeforeDecrypt | ios/Pods/MMKVCore/Core/aes/AESCrypt.cpp:123-171 | from the state after a decryption, its input and its output: the state before it |
| Cfb.BlockStream | ios/Pods/MMKVCore/Core/aes/openssl/openssl_cfb128.cpp:59-93 | what has been decrypted inside a block stands in its vector as ciphertext, the rest as key stream |
| MmkvCrypt.CodedInputDataCrypt.ConsumeBytes | ios/Pods/MMKVCore/Core/CodedInputDataCrypt.cpp:70-125 | the window holds the wanted plaintext, ends at a block, and keeps what a rollback needs |
| MmkvCrypt.CodedInputDataCrypt.SkipBytes | ios/Pods/MMKVCore/Core/CodedInputDataCrypt.cpp:127-159 | skips a value without keeping it, and stays in step with the plaintext |
| MmkvCrypt.CodedInputDataCrypt.StatusBefore | ios/Pods/MMKVCore/Core/CodedInputDataCrypt.cpp:161-165 | the state of the decrypter at an earlier place of the window |
| MmkvCrypt.CodedInputDataCrypt.ReadRawVarint32 | ios/Pods/MMKVCore/Core/CodedInputDataCrypt.cpp:180-214 | what an encoder wrote into the plaintext is read back |
| MmkvCrypt.CodedInputDataCrypt.ReadString | ios/Pods/MMKVCore/Core/CodedInputDataCrypt.cpp:220-241 | a key of the plaintext is read back, and the record stays in the window |
| MmkvCrypt.CodedInputDataCrypt.ReadData | ios/Pods/MMKVCore/Core/CodedInputDataCrypt.cpp:243-272 | a small value is kept; for a large one its place and the state of the decrypter at the beginning of the record |
| MmkvCrypt.ReadRecordCrypt | ios/Pods/MMKVCore/Core/MiniPBCoder.cpp:558-573 | one record of the plaintext updates the index or removes its key |
| MmkvCrypt.DecodeOneMapCrypt | ios/Pods/MMKVCore/Core/MiniPBCoder.cpp:551-594 | replaying an encrypted file, or the rest of it, gives exactly the index of the log that its plaintext spells |
| MmkvCrypt.IndexServes | ios/Pods/MMKVCore/Core/KeyValueHolder.cpp:155-171 | every entry of that index serves the last value written for its key |
| MmkvCrypt.SameAsPlain | ios/Pods/MMKVCore/Core/MiniPBCoder.cpp:504-594 | the encrypted and the plain replay have the same keys and serve the same values |
| MmkvCrypt.DecryptBuffer | ios/Pods/MMKVCore/Core/KeyValueHolder.cpp:133-153 | decrypts the end of a record after running through its beginning |
| MmkvCrypt.ToMMBuffer | ios/Pods/MMKVCore/Core/KeyValueHolder.cpp:155-171 | an entry that serves a value returns it, decrypting from its stored state |
| MmkvLoading.Instance.CheckLoadData | ios/Pods/MMKVCore/Core/MMKV_IO.cpp:373-416 | on the bytes of the shared file: what a process remembers afterwards is what the protocol says, and its index is the replay of the whole file |
| MmkvLoading.Instance.PartialLoadFromFile | ios/Pods/MMKVCore/Core/MMKV_IO.cpp:157-202 | decodes only the bytes behind its old end when the continued checksum matches, and otherwise everything |
| MmkvLoading.Instance.LoadFromFile | ios/Pods/MMKVCore/Core/MMKV_IO.cpp:116-143 | decodes the whole plain file if its checksum is right, so that the index is the replay of the file |
| MmkvSharing.StoreWriteIsStep | ios/Pods/MMKVCore/Core/MMKV_IO.cpp:902-961 | a write of the store, with the log that SetDataForKey and RemoveDataForKey promise for it, is a write of this protocol |
| MmkvSharing.StoreRewriteIsStep | ios/Pods/MMKVCore/Core/MMKV_IO.cpp:472-545 | a write that fails after everything has been written back is a step of this protocol too |
| MmkvSharing.CatchesUp | ios/Pods/MMKVCore/Core/MMKV_IO.cpp:373-416 | after the check, whether it reloads fully, partially or not at all, the index is the replay of the whole file |
| MmkvSharing.PartialCatchesUp | ios/Pods/MMKVCore/Core/MMKV_IO.cpp:157-202 | with an equal sequence number the old view is a prefix, the continued checksum matches, and replaying the rest completes the index |
| MmkvSharing.CompactedContents | ios/Pods/MMKVCore/Core/MMKV_IO.cpp:1183-1236 | writing back the live records in any order keeps the contents |
| MmkvSharing.WriteKeeps | ios/Pods/MMKVCore/Core/MMKV_IO.cpp:568-622 | a write by one process, with or without a write-back, leaves every other process with a prefix or an older sequence number |
| MmkvSharing.SeesAllWrites | ios/Pods/MMKVCore/Core/MMKV_IO.cpp:373-416 | over any run of any processes, one that has caught up finds the last value written for every key |
| SyncQueue.TakeKeeps | src/services/SyncService.ts:58-133 | every step of every activity keeps queue, logs and counters consistent |
| SyncQueue.QueueIsPending | src/services/DatabaseService.ts:94-142 | in every interleaving the queue holds exactly the ids of the pending logs, each once |
| SyncQueue.NothingIsLost | src/services/DatabaseService.ts:261-271 | a record that was ever logged has been uploaded or is still stored, pending and queued |
| SyncQueue.SyncedByUpload | src/services/DatabaseService.ts:200-217 | a log becomes synced only by a successful upload of a batch that contained it |
| SyncQueue.NumbersAddUp | src/services/SyncService.ts:94-126 | synced and failed of a completed run add up to the retryable records it started with |
| SyncQueue.DequeueDistinct | src/services/DatabaseService.ts:211-214 | removing a batch removes exactly its ids from the queue |

## Left out

- BignumDtoa: floating-point arithmetic in `EstimatePower` is over the reals; the rounding error of its product is a parameter, at most 1e-11.
- Grisu3: the table of cached powers and the floating-point choice of its entry. The entry is a parameter: a power of ten rounded to 64 bits that brings the product into the target range of exponents. Single precision enters by its own significand, exponent and boundaries.
- DigitGen: takes the common exponent as the number of fraction bits, and the space in the buffer as a precondition, which Grisu3 meets with seventeen digits.
- Strtod: the fast paths `DoubleStrtod` and `DiyFpStrtod` are parameters; their result is taken as certain and right, or as the right double or the next lower one. The single-precision `Strtof` is not part of the model.
- GenerateCountedDigits: a count of zero, which the callers handle before (it would write in front of the buffer).
- FastFixedDtoa: takes significand and exponent of the double instead of the double.
- Bignum: hexadecimal strings; the exponent is an unbounded integer instead of an `int`.
- UInt128: the shift amounts that the hardware leaves undefined are excluded by the ranges of the callers.
- StringToIeee: the read in single precision is not part of the model, and nothing is promised for an empty symbol, for a symbol that begins like a number, or for octal digits with a point, a power or junk behind them. A symbol promises itself with nothing behind it.
- RadixStringToIeee: the conversion of an integer that fits is exact, and the exponent is an unbounded integer.
- CreateDecimalRepresentation: the builder is a growing text instead of a buffer of a fixed size.
- ToAscii: the single-precision shortest mode, whose significand, exponent and boundaries come from a `float`.
- EstimatePower: floating-point product and `ceil` are those of real numbers, with the rounding error as a parameter.
- ToFixed, ToExponential and ToPrecision put the digits of the other modes into the same representations.
- AtomicHash: weak memory orders (accesses are sequentially consistent), thread-cached counters (atomic; the limit on entries is passed at any time), mapped values, `clear`, iterators, quadratic probing, failing allocation of a submap. The check at `AtomicHashMap-inl.h:186` is modelled as the weaker bound that the submap has been published.
- Mmkv: writing encrypted files, key expiry, comparison before setting, recovery of damaged files, read-only mode, `msync`, and files whose size holder does not take four bytes. A file stays below 4 GB and growing it may fail. Keys with their headers stay below 2^16 bytes and values below 2^31 bytes, which is what the index and the reader can hold.
- MmkvCrypt: AES is any block cipher with an inverse; the encrypted file does not change while it is read, and the window is a sequence. The overlapping `memmove` inside it is a slice.
- MiniPbCoder: vectors of key-value pairs, of `bool`, `float` and `double`; the caller that turns a failed decoding into an empty result.
- LoadFromFile: the recovery of files whose checksum or size is wrong, which the default strategy discards, and the file of an encrypted store, whose replay is `DecodeOneMapCrypt`.
- PrepareEncode: adds the sizes up in the order of the offsets instead of the order of a hash table.
- MmkvSharing: operations are atomic under the file lock; the checksum is any function that can be continued; sequence numbers do not wrap.
- SeesAllWrites: the steps are those of the protocol; that the store's methods and the loading from bytes are such steps is `StoreWriteIsStep` and `CheckLoadData`. The four bytes in front of the log may be any after a write-back.
- SyncQueue: storage calls do not fail; asking for the network state may. Ids of logs are unique. What `forceSync` claims to reset is not claimed: the code increments.
- All screens, navigation, camera, location, authentication and the cloud stack.
