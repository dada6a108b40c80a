# DocumentDB ODBC driver: a verified model

This project models the parts of the driver that are hardest to get right and proves what they
compute: big-integer and decimal arithmetic, numbers in binary and as text, the concurrent handle
registry, connection strings, rowset fetching, and data-at-execution.

`dafny verify dfyconfig.toml` checks everything.

| file | content |
|---|---|
| `Common.dfy` | types that several parts share |
| `Words.dfy`, `Magnitude.dfy` | 32- and 64-bit words, powers; `Val`, the number that little-endian limbs stand for |
| `Bits.dfy`, `Precision.dfy` | leading zeros, bit lengths, powers of ten; decimal digit counts |
| `LimbLoops.dfy`, `LongDivision.dfy` | carry and borrow loops; Algorithm D |
| `MagnitudeBytes.dfy`, `BigInteger.dfy` | byte conversions; the class `BigInteger` |
| `Decimal.dfy`, `DecimalCodec.dfy` | the class `Decimal`; its binary form |
| `NumberText.dfy` | printing and reading integers and decimals as text |
| `HandleRegistry.dfy` | the registry as interleaved atomic steps |
| `TextTools.dfy`, `ConnectionStrings.dfy`, `ConnectionRoundTrip.dfy` | parser and printer; when they undo each other |
| `ConnectionText.dfy` | what the parser makes of text that the printer does not write |
| `RowsetFetch.dfy`, `DataAtExecution.dfy` | the two statement state machines |

## Where the code does not do what it is for

The model follows the code. Where the code misses its purpose, the exact condition is proved.

- **Long division.** `big_integer.cpp:712` subtracts two `uint32_t`, so the correction at 716 (step D6
  of Algorithm D) is never taken; :720 asserts a zero carry where the carry is always 1; for a
  one-limb divisor :696 reads the word in front of a buffer. `Reading` separates the two texts:
  `Meant` has the signed borrow and a zero limb; `AsWritten` has the unsigned borrow and arbitrary
  words in front of both buffers. `Meant` is always right. `AsWritten` is right exactly when the
  three-by-two-limb estimate of every digit is exact. For a divisor of two or more limbs this holds
  for every dividend exactly when the shifted divisor is zero below its top two limbs, and fails
  otherwise for the dividend 2v - 1.
- **Dropping decimal digits.** As written, `SetScale` can drop d digits from every decimal exactly
  when 10 <= d <= 27, or d <= 9 and the word in front of the buffer is zero. With d >= 28 nines behind the
  point, 1.99...9 is truncated wrongly.
- **Remainder.** It has the quotient's sign, so a = q d + r holds exactly when d > 0, or |a| < |d|, or
  d divides a; it fails for 7 and -2.
- **Divide into the divisor.** With the result in place of a divisor of 1 or -1, the sign is overwritten
  before it is read, and the quotient of a larger number comes out positive.
- **ToInt64.** Limbs are negated one by one, so a negative value is 2^32 too large unless it is above
  -2^32 or a multiple of 2^32. A negative zero is read as -1; `Multiply` can produce one, and so can the
  remainder of a long division.
- **Compare** tells zeros of different signs apart; `Decimal::Compare` does not.
- **SetScale** with the scale that is already there leaves its output untouched.
- **Decimal codec.** A negative scale loses its top bit, and a negative zero comes back as zero.
- **Close.** A close that loses the flag returns before the winner's sweep has ended. Nothing safe is
  left once no close is sweeping (`NothingSafeLeft`); waiting for one close is not enough, as the run of
  `OneCloseIsNotEnough` shows, in which every allocation is safe and has returned.
- **Decimal text.** Printing keeps the number but not always the scale.
- **Prepare** keeps the selected parameter, so a second data-at-execution run is refused when that
  parameter still waits for data.

## Model

| member | source | states |
|---|---|---|
| `Bits.NumberOfLeadingZerosU32` | src/odbc/src/common/bits.cpp:70-97 | shifting by the result brings the highest set bit to bit 31; 32 for zero |
| `Bits.NumberOfLeadingZerosU64` | src/odbc/src/common/bits.cpp:103-139 | the same for bit 63; 64 for zero |
| `Bits.BitLengthU32` | src/odbc/src/common/bits.cpp:157-159 | the bit length, defined by halving |
| `Bits.TenPowerTable` | src/odbc/src/common/bits.cpp:191-218 | every table entry is the power of ten of its index |
| `Precision.DigitLength` | src/odbc/src/common/bits.cpp:177-189 | the exact number of decimal digits of every 64-bit word |
| `Precision.NotTooMany` | src/odbc/src/common/big_integer.cpp:232-246 | a fraction not above log10(2), as an inequality of powers, never estimates too many digits |
| `Precision.NotTooFew` | src/odbc/src/common/big_integer.cpp:232-246 | a fraction close enough to log10(2) never estimates too few |
| `Precision.LowerBracket` | src/odbc/src/common/big_integer.cpp:239-240 | 10^646456993 <= 2^(2^31), the constant's bracket from below |
| `Precision.UpperBracket` | src/odbc/src/common/big_integer.cpp:239-240 | 2^(2^33) <= 10^2585827973, the bracket from above |
| `Precision.PrecisionExact` | src/odbc/src/common/big_integer.cpp:232-246 | estimate and one comparison give the exact digit count of every non-zero number of fewer than 2^31 bits |
| `LimbLoops.ShiftLeft` | src/odbc/src/common/big_integer.cpp:365-378 | value times 2^n, less what leaves the top limb; the rest of the buffer is untouched |
| `LimbLoops.ShiftRight` | src/odbc/src/common/big_integer.cpp:389-402 | value divided by 2^n; exactly the low bits of the first limb are lost; the rest of the buffer is untouched |
| `LimbLoops.SubstructLimb` | src/odbc/src/common/big_integer.cpp:418-424 | one limb of q - a x with borrow, exact in spite of the wrapping mix of signed and unsigned |
| `LimbLoops.MultiplyAndSubstruct` | src/odbc/src/common/big_integer.cpp:413-428 | old q - a x = new q - 2^(32 alen) borrow, the borrow in 32 bits; limbs outside the window are untouched |
| `LimbLoops.AddLimbs` | src/odbc/src/common/big_integer.cpp:439-449 | sum and carry of at most 1; limbs outside the window are untouched |
| `LimbLoops.PropagateCarry` | src/odbc/src/common/big_integer.cpp:460-470 | one limb added from a place on, as far as it carries: sum and carry out; limbs below are untouched |
| `LongDivision.EstimateBounds` | src/odbc/src/common/big_integer.cpp:688-706 | the quotient of the top three limbs by the top two is the true digit or one more |
| `LongDivision.EstimateDigit` | src/odbc/src/common/big_integer.cpp:688-706 | the adjusted `qhat` is the three-by-two quotient, capped at 32 bits, after at most two adjustments |
| `LongDivision.AdjustEstimate` | src/odbc/src/common/big_integer.cpp:695-706 | the loop ends with that quotient, adjusting at most twice |
| `LongDivision.Rejected` | src/odbc/src/common/big_integer.cpp:695-697 | the 64-bit test is the test on integers: neither product nor shift wraps |
| `LongDivision.EstimateArguments` | src/odbc/src/common/big_integer.cpp:689-697 | the limbs that the code reads make the estimate that of the whole partial dividend |
| `LongDivision.AfterSubtract` | src/odbc/src/common/big_integer.cpp:708-714 | an exact digit leaves the remainder; one too large borrows exactly 1 |
| `LongDivision.AfterAddBack` | src/odbc/src/common/big_integer.cpp:716-721 | after a borrow, adding the divisor carries out exactly 1 and restores the remainder |
| `LongDivision.SubtractAndCorrect` | src/odbc/src/common/big_integer.cpp:708-721 | with the signed borrow a digit that is exact or one too large ends exact and leaves the remainder; as written the estimate stands |
| `LongDivision.DivideDigit` | src/odbc/src/common/big_integer.cpp:688-723 | one pass replaces the partial dividend by its remainder and yields its quotient, or, as written with an inexact estimate, the estimate |
| `LongDivision.DivideAt` | src/odbc/src/common/big_integer.cpp:688-724 | one pass keeps the loop invariant: digits and window are quotient and remainder so far, or a digit has gone wrong for good |
| `LongDivision.DivideLoop` | src/odbc/src/common/big_integer.cpp:685-724 | the whole loop: quotient and remainder, as written exactly when every estimate is exact |
| `LongDivision.NormaliseDivisor` | src/odbc/src/common/big_integer.cpp:653-658 | the divisor shifted until its top bit is set |
| `LongDivision.NormaliseDividend` | src/odbc/src/common/big_integer.cpp:660-682 | the dividend shifted as far, with one or two limbs more |
| `LongDivision.DivideMagnitudes` | src/odbc/src/common/big_integer.cpp:644-738 | quotient and remainder of magnitudes; as written the quotient is right if and only if every estimate is exact, and then so is the remainder |
| `LongDivision.RightForEveryDividend` | src/odbc/src/common/big_integer.cpp:688-724 | as written, a shifted divisor that is zero below its top two limbs divides every dividend rightly |
| `LongDivision.WrongForSomeDividend` | src/odbc/src/common/big_integer.cpp:708-721 | as written, any other divisor v of two or more limbs divides 2v - 1 wrongly |
| `LongDivision.OneLimbRight` | src/odbc/src/common/big_integer.cpp:695-697 | as written, a one-limb divisor is right for every dividend when the word in front of it is zero |
| `LongDivision.OneLimbWrong` | src/odbc/src/common/big_integer.cpp:695-697 | with any other word in front, v 2^64 / v comes out wrong |
| `MagnitudeBytes.FromBigEndian` | src/odbc/src/common/big_integer.cpp:43-97 | trimmed limbs of the big-endian value, for any bytes |
| `MagnitudeBytes.FromLittleEndian` | src/odbc/src/common/big_integer.cpp:98-148 | trimmed limbs of the little-endian value, for any bytes |
| `MagnitudeBytes.SameLimbsEitherWay` | src/odbc/src/common/big_integer.cpp:43-148 | bytes one way and their reversal the other way build the same limbs |
| `MagnitudeBytes.ToBytes` | src/odbc/src/common/big_integer.cpp:248-295 | big-endian bytes of the value without a leading zero byte; one zero byte for zero |
| `MagnitudeBytes.Shortest` | src/odbc/src/common/big_integer.cpp:248-295 | no shorter bytes have the same value |
| `MagnitudeBytes.ShortestBytesUnique` | src/odbc/src/common/big_integer.cpp:248-295 | bytes without a leading zero are the shortest bytes of their own value: encoding inverts decoding |
| `MagnitudeBytes.ShortestBytesValue` | src/odbc/src/common/big_integer.cpp:248-295 | decoding inverts encoding |
| `BigIntegers.MultiplyLimb` | src/odbc/src/common/big_integer.cpp:340-344 | the 64-bit accumulator of the product never wraps |
| `BigIntegers.AddProduct` | src/odbc/src/common/big_integer.cpp:337-345 | the inner loop adds one limb's multiple to its window, exactly |
| `BigIntegers.MultiplyMagnitudes` | src/odbc/src/common/big_integer.cpp:331-354 | the exact product of any two magnitudes |
| `BigIntegers.AddMagnitudes` | src/odbc/src/common/big_integer.cpp:481-497 | the exact sum of two magnitudes, trimmed, with the limb that a last carry adds |
| `BigIntegers.BigInteger.FromBytes` | src/odbc/src/common/big_integer.cpp:43-148 | the value of the bytes in the given order; zero always gets the positive sign, any other value the given one |
| `BigIntegers.BigInteger.Assign` | src/odbc/src/common/big_integer.cpp:160-165 | a copy, also of itself |
| `BigIntegers.BigInteger.AssignUint64` | src/odbc/src/common/big_integer.cpp:184-203 | the word's value in trimmed limbs |
| `BigIntegers.BigInteger.AssignInt64` | src/odbc/src/common/big_integer.cpp:167-174 | the word's value, the smallest included |
| `BigIntegers.BigInteger.Normalize` | src/odbc/src/common/big_integer.cpp:740-746 | the same value in the same limbs without the zeros at the top |
| `BigIntegers.BigInteger.GetBitLength` | src/odbc/src/common/big_integer.cpp:220-230 | the bit length of the magnitude |
| `BigIntegers.BigInteger.Compare` | src/odbc/src/common/big_integer.cpp:517-541 | the order of magnitudes; with signs the order of values, if and only if not two zeros of different signs |
| `BigIntegers.BigInteger.Multiply` | src/odbc/src/common/big_integer.cpp:331-354 | exact product and trimmed result, also when the result is an operand |
| `BigIntegers.BigInteger.Add` | src/odbc/src/common/big_integer.cpp:499-515 | the magnitude grows by the word; the sign stays, but a zero becomes positive |
| `BigIntegers.BigInteger.Negate` | src/odbc/include/documentdb/odbc/common/big_integer.h:275-278 | the sign turns, except that of a zero |
| `BigIntegers.BigInteger.Pow` | src/odbc/src/common/big_integer.cpp:297-329 | base^e for every non-zero base; a zero base is left alone; a negative exponent gives zero |
| `BigIntegers.PowHalve` | src/odbc/src/common/big_integer.cpp:316-328 | one round of square-and-multiply keeps accumulator times pending power |
| `BigIntegers.BigInteger.GetPowerOfTen` | src/odbc/src/common/big_integer.cpp:547-560 | 10^p for every p, from the table and from squaring alike |
| `BigIntegers.BigInteger.GetPrecision` | src/odbc/src/common/big_integer.cpp:232-246 | the exact digit count of every magnitude of fewer than 2^31 bits |
| `BigIntegers.BigInteger.MagnitudeToBytes` | src/odbc/src/common/big_integer.cpp:248-295 | the shortest big-endian bytes of the magnitude |
| `BigIntegers.BigInteger.ToInt64` | src/odbc/src/common/big_integer.cpp:543-569 | the low 64 bits of a positive value; of a negative value, whatever its size, those of it or of 2^32 more, and when; -1 for a negative zero |
| `BigIntegers.Int64RoundTrip` | src/odbc/src/common/big_integer.cpp:543-569 | a stored 64-bit integer reads back as itself if and only if it is above -2^32 or a multiple of 2^32, else 2^32 larger |
| `BigIntegers.BigInteger.Divide` | src/odbc/src/common/big_integer.cpp:571-738 | on every branch the truncated quotient, if and only if the text divides these magnitudes rightly and no sign is lost to a result in place of the divisor, which is then the quotient negated; the remainder with its sign on every branch; fails only for a zero divisor, leaving the outputs alone |
| `BigIntegers.BigInteger.DivideWords` | src/odbc/src/common/big_integer.cpp:616-642 | the 64-bit branch: signed quotient and remainder, a zero remainder positive |
| `BigIntegers.BigInteger.DivideLong` | src/odbc/src/common/big_integer.cpp:644-738 | the long branch: signed quotient and remainder, trimmed; even a zero remainder has the quotient's sign |
| `BigIntegers.DivisionIdentity` | src/odbc/src/common/big_integer.cpp:578-642 | a = q d + r if and only if d > 0, or abs a < abs d, or d divides a; always abs r < abs d; for d > 0 the remainder has the dividend's sign |
| `BigIntegers.DivisionIdentityFails` | src/odbc/src/common/big_integer.cpp:578-642 | 7 divided by -2 gives -3 and -1, which do not make 7 |
| `Decimals.TensTopTwo` | src/odbc/src/common/decimal.cpp:100-119 | the shifted 10^d is zero below its top two limbs if and only if d <= 27 |
| `Decimals.DroppingIsRight` | src/odbc/src/common/decimal.cpp:100-119 | as written, 10 to 27 digits are dropped rightly from every decimal |
| `Decimals.DroppingIsWrong` | src/odbc/src/common/decimal.cpp:100-119 | as written, d >= 28 digits are dropped wrongly from 2 10^d - 1 |
| `Decimals.DroppingIsRightExactly` | src/odbc/src/common/decimal.cpp:100-119 | as written, d digits are dropped rightly from every decimal if and only if 10 <= d <= 27, or d <= 9 with a zero word in front of the divisor |
| `Decimals.Decimal.FromBigInteger` | src/odbc/src/common/decimal.cpp:53-56 | a copy of the integer with the given scale |
| `Decimals.Decimal.SetScale` | src/odbc/src/common/decimal.cpp:100-119 | the exact multiple at a larger scale, the truncated quotient at a smaller one if and only if that division is right, and no change at the same scale |
| `Decimals.Rescale` | src/odbc/src/common/decimal.cpp:100-119 | moving the point by d places and multiplying by 10^d keeps the rational |
| `Decimals.Decimal.Compare` | src/odbc/src/common/decimal.cpp:169-188 | the order at the larger of the two scales, for all scales and signs of zero |
| `Decimals.ScaledOrderIsReal` | src/odbc/src/common/decimal.cpp:169-188 | that order is the order of the rationals unscaled / 10^scale |
| `Decimals.ScaledOrderPreorder` | src/odbc/src/common/decimal.cpp:169-188 | hence comparing is reflexive, antisymmetric in sign and transitive |
| `Decimals.Decimal.ToInt64` | src/odbc/src/common/decimal.cpp:85-94 | where the scaling is right, the whole part as `BigInteger::ToInt64` reads it |
| `Decimals.WholeTruncates` | src/odbc/src/common/decimal.cpp:85-94 | the whole part is the rational truncated toward zero |
| `NumberText.ChunkDivision` | src/odbc/include/documentdb/odbc/common/big_integer.h:296-320 | the printer's divisor 10^19 has two limbs, so even as written every division by it is right |
| `NumberText.SplitInteger` | src/odbc/include/documentdb/odbc/common/big_integer.h:296-315 | the base 10^19 digits of every value, the highest not zero |
| `TextTools.ShowSplit` | src/odbc/include/documentdb/odbc/common/big_integer.h:317-326 | the lower nineteen digits, filled with zeros, and the digits above them are the digits of the number |
| `NumberText.PrintInteger` | src/odbc/include/documentdb/odbc/common/big_integer.h:287-329 | a sign and the decimal digits of every value, without leading zeros |
| `NumberText.TakeDigit` | src/odbc/include/documentdb/odbc/common/big_integer.h:372-373 | 64 bits hold the pending digits and one more |
| `NumberText.ReadInteger` | src/odbc/include/documentdb/odbc/common/big_integer.h:338-402 | the signed value of the digits behind white space and a sign, and where they end; zero without digits, never negative zero |
| `NumberText.IntegerText` | src/odbc/include/documentdb/odbc/common/big_integer.h:355-402 | digits behind white space and '+', '-' or no sign are read with that sign, up to what is not a digit |
| `NumberText.NoIntegerText` | src/odbc/include/documentdb/odbc/common/big_integer.h:355-402 | without digits the value is zero and only white space and a sign are passed |
| `NumberText.IntegerRoundTrip` | src/odbc/include/documentdb/odbc/common/big_integer.h:287-402 | reading undoes printing for every integer, behind white space and before anything but a digit |
| `TextTools.ShowRead` | src/odbc/include/documentdb/odbc/common/big_integer.h:287-402 | printing undoes reading for digits without a leading zero |
| `NumberText.PrintDecimal` | src/odbc/include/documentdb/odbc/common/decimal.h:259-335 | the digits with a point before the last of them, zeros filled in, those behind the point dropped |
| `NumberText.ReadDecimal` | src/odbc/include/documentdb/odbc/common/decimal.h:344-438 | the digits around the first point as one integer, the count of those behind it, less an exponent, as the scale, and where they end |
| `NumberText.DecimalNumeral` | src/odbc/include/documentdb/odbc/common/decimal.h:351-438 | digits with or without a point, behind white space and either sign or none: one integer, the count of digits behind the point less an exponent behind 'e' or 'E', and where they end |
| `NumberText.DecimalRoundTrip` | src/odbc/include/documentdb/odbc/common/decimal.h:259-438 | every decimal is read back as the same rational with nothing left over; at its own scale if and only if that is zero, or is positive and the unscaled integer does not end in a zero |
| `DecimalCodec.Int32RoundTrip` | src/odbc/src/utility.cpp:211-265 | the four stored bytes, least significant first, give the integer back |
| `DecimalCodec.SignBitOut` | src/odbc/src/utility.cpp:229-261 | the sign bit comes out of the first byte, or of the extra byte, and leaves the magnitude |
| `DecimalCodec.RoundTrip` | src/odbc/src/utility.cpp:211-265 | what is written is read back and the bytes after it are left: same magnitude and sign, negative zero as zero, the scale modulo 2^31 |
| `DecimalCodec.RoundTripExact` | src/odbc/src/utility.cpp:211-265 | a decimal comes back unchanged if and only if its scale is not negative and it is not a negative zero |
| `DecimalCodec.WriteDecimal` | src/odbc/src/utility.cpp:242-265 | appends the encoding, with the in-place sign bit or the extra byte |
| `DecimalCodec.ReadDecimal` | src/odbc/src/utility.cpp:211-240 | reads what the decoding says and moves past it; fails on short streams and lengths that are not positive |
| `HandleRegistry.InitialInv` | src/odbc/src/impl/handle_registry.cpp:64-79 | a new registry satisfies the invariant |
| `HandleRegistry.StepEffect` | src/odbc/src/impl/handle_registry.cpp:109-194 | each atomic step's event is its whole effect on the abstract map, over array and segments |
| `HandleRegistry.StepIssued` | src/odbc/src/impl/handle_registry.cpp:153-180 | a handle is drawn once, by the operation that takes the step |
| `HandleRegistry.StepSweep` | src/odbc/src/impl/handle_registry.cpp:135-145 | the sweep passes a handle only by removing its entry |
| `HandleRegistry.StepInv` | src/odbc/src/impl/handle_registry.cpp:109-194 | every step of every operation keeps the invariant |
| `HandleRegistry.RunInv` | src/odbc/src/impl/handle_registry.cpp:109-194 | it holds in every state of every interleaving |
| `HandleRegistry.StepSweeper` | src/odbc/src/impl/handle_registry.cpp:135-145 | a sweep under way always has a close that carries it out |
| `HandleRegistry.NothingSafeLeft` | src/odbc/src/impl/handle_registry.cpp:135-194 | once the closes and all safe allocations have returned, every entry left belongs to an allocation that is not safe |
| `HandleRegistry.SecondCloseLeavesAll` | src/odbc/src/impl/handle_registry.cpp:135-145 | a close that finds the flag set returns at once and leaves every entry |
| `HandleRegistry.OneCloseIsNotEnough` | src/odbc/src/impl/handle_registry.cpp:135-145 | for every target, a run in which one close has returned, the safe allocation of the target has returned, and its entry is still stored, because another close is sweeping |
| `HandleRegistry.RefusedOnlyWhenClosed` | src/odbc/src/impl/handle_registry.cpp:147-194 | a negative result is -1, and only of a closed registry |
| `HandleRegistry.HandlesAreUnique` | src/odbc/src/impl/handle_registry.cpp:153-180 | no two allocations return the same handle, in any interleaving |
| `HandleRegistry.NoEntryBefore` | src/odbc/src/impl/handle_registry.cpp:123-133 | a handle has no entry before its store |
| `HandleRegistry.EntryHistory` | src/odbc/src/impl/handle_registry.cpp:109-133 | `Get` yields the stored target exactly from the store until the first removal, and nothing before or after |
| `HandleRegistry.HeldWasStored` | src/odbc/src/impl/handle_registry.cpp:160-193 | an allocation that holds or has returned a handle stored its target under it, in a step of the run |
| `HandleRegistry.ReturnedHandleFindsTarget` | src/odbc/src/impl/handle_registry.cpp:123-194 | for a handle that an allocation has returned, `Get` yields that allocation's target until the first removal after the store, and nothing from then on |
| `HandleRegistry.WhoRemoves` | src/odbc/src/impl/handle_registry.cpp:109-194 | only a release of the handle, the sweep, or the handle's own safe allocation after a close removes an entry |
| `HandleRegistry.ReleaseRemoves` | src/odbc/src/impl/handle_registry.cpp:109-121 | right after a release its handle has no entry, and none in any later state, unless the allocation that drew it had not put its target in place by then |
| `HandleRegistry.ReleasedHandleFindsNothing` | src/odbc/src/impl/handle_registry.cpp:109-133 | after the release of a handle that an allocation has returned, `Get` finds nothing in any later state |
| `HandleRegistry.StaysGone` | src/odbc/src/impl/handle_registry.cpp:109-194 | a handle that was stored and has no entry never has one again |
| `HandleRegistry.CloseRemoves` | src/odbc/src/impl/handle_registry.cpp:135-145 | every entry, safe or not, that was there while the registry was open is gone once the closes have returned |
| `HandleRegistry.LateAllocationIsRefused` | src/odbc/src/impl/handle_registry.cpp:147-153 | an allocation that starts once the registry is closed never gets a handle, whatever its kind |
| `HandleRegistry.FastHandlesAreForCritical` | src/odbc/src/impl/handle_registry.cpp:155-178 | fast handles go to critical allocations only, which get others only when all fast ones are drawn |
| `HandleRegistry.SafeReturnSawOpen` | src/odbc/src/impl/handle_registry.cpp:163-193 | a safe allocation that returns a handle has seen the registry open with its target in place |
| `TextTools.StripTight` | src/odbc/src/common/utils.cpp:38-55 | stripping changes exactly the text with white space at an end |
| `TextTools.StripPadded` | src/odbc/src/common/utils.cpp:38-55 | white space on both sides goes, and nothing else |
| `TextTools.CharacterClasses` | src/odbc/src/common/utils.cpp:196-203 | white space is the six characters of the C locale, a digit one of ten |
| `TextTools.LowerIs` | src/odbc/include/documentdb/odbc/common/utils.h:48-62 | lowering finds exactly the texts that differ in capitals only |
| `TextTools.ReadShown` | src/odbc/src/config/configuration.cpp:636-648 | reading a printed number gives it back |
| `ConnectionStrings.SplitJoin` | src/odbc/src/config/connection_string_parser.cpp:82-116 | the segments joined by the delimiter are the string, and none contains the delimiter |
| `ConnectionStrings.EqualsInSegment` | src/odbc/src/config/connection_string_parser.cpp:83-97 | the last '=' of the remaining string falls inside the last segment, past its start, exactly when that segment has a key, and is its own last '=' |
| `ConnectionStrings.Configuration.HandleAttributePair` | src/odbc/src/config/connection_string_parser.cpp:137-504 | one attribute's effect: stored if its setter accepts the text, else nothing; a hostname brings a port if none is set |
| `ConnectionStrings.Configuration.ParseConnectionString` | src/odbc/src/config/connection_string_parser.cpp:73-117 | the destructive loop from the right ends and handles exactly the segments of a split, last first |
| `ConnectionStrings.LeftmostWins` | src/odbc/src/config/connection_string_parser.cpp:73-145 | for every attribute but the port, which has its own rule, the leftmost segment with valid text wins |
| `ConnectionStrings.LeftmostIs` | src/odbc/src/config/connection_string_parser.cpp:73-145 | the winner is the segment with valid text before which there is none |
| `ConnectionStrings.LeftmostTextWins` | src/odbc/src/config/connection_string_parser.cpp:208-252 | for a plain text attribute the leftmost segment that names it wins, whatever its text |
| `ConnectionStrings.PortRule` | src/odbc/src/config/connection_string_parser.cpp:146-207 | the port is the leftmost valid port segment's, wherever the hostnames are; without one it stays, and only if unset it is that of the rightmost hostname |
| `ConnectionStrings.ToConnectString` | src/odbc/src/config/configuration.cpp:79-101 | the set, non-empty values in key order, text with a space in braces |
| `ConnectionRoundTrip.KeysInOrder` | src/odbc/src/config/connection_string_parser.cpp:29-67 | the key table is in the order of an ordered map, so all keys differ |
| `ConnectionRoundTrip.KeyFound` | src/odbc/src/config/connection_string_parser.cpp:137-504 | every printed key leads back to its own attribute |
| `ConnectionRoundTrip.ChoiceRead` | src/odbc/src/read_preference.cpp:23-67 | every option's text is read as that option; the text of an unknown one is rejected |
| `ConnectionRoundTrip.WrapUnwrap` | src/odbc/src/config/configuration.cpp:94-97 | printing and unwrapping a text give it back if and only if it has a space, or neither outer white space nor outer braces |
| `ConnectionRoundTrip.HostOf` | src/odbc/src/config/config_tools.cpp:84-131 | the host is the whole address if and only if there is no colon, and then the port is the default |
| `ConnectionRoundTrip.ValueRoundTrip` | src/odbc/src/config/configuration.cpp:636-687 | a value comes back through its setter if and only if it is printable |
| `ConnectionRoundTrip.SplitAppend` | src/odbc/src/config/connection_string_parser.cpp:82-116 | the last printed segment is handled before all others |
| `ConnectionRoundTrip.ParsedIsCollected` | src/odbc/src/config/connection_string_parser.cpp:73-117 | with no ';' or '=' in its values a printed string is read field by field, from the last key to the first |
| `ConnectionRoundTrip.ParsedTextIsClean` | src/odbc/src/config/connection_string_parser.cpp:73-117 | no text that the parser stores contains ';' or '=' |
| `ConnectionRoundTrip.PrintableComesBack` | src/odbc/src/config/configuration.cpp:79-101 | a printable configuration comes back whole, a set port included, with the default port added if a hostname has none |
| `ConnectionRoundTrip.UnprintableIsLost` | src/odbc/src/config/configuration.cpp:79-101 | any other configuration does not come back |
| `ConnectionRoundTrip.RoundTrip` | src/odbc/src/config/configuration.cpp:79-101 | parsing undoes printing, up to that port, if and only if every set value is printable |
| `ConnectionText.KeyInAnyCase` | src/odbc/src/config/connection_string_parser.cpp:137-145 | a key in any mixture of capitals is the attribute's |
| `ConnectionText.ShortKeys` | src/odbc/src/config/connection_string_parser.cpp:481-496 | `uid` and `pwd`, in any case, are the user and the password |
| `ConnectionText.UnknownKey` | src/odbc/src/config/connection_string_parser.cpp:137-504 | any other key changes nothing |
| `ConnectionText.PlainValue` | src/odbc/src/config/connection_string_parser.cpp:103-107 | white space around a value goes, and no more unless it is in braces |
| `ConnectionText.BracedValue` | src/odbc/src/config/connection_string_parser.cpp:103-107 | of a value in braces everything between them is kept |
| `ConnectionText.SegmentSets` | src/odbc/src/config/connection_string_parser.cpp:95-110 | a segment with white space around key and value, its key in any case and its value in braces or not, sets the attribute as the bare key and value do |
| `ConnectionText.TerminatorsIgnored` | src/odbc/src/config/connection_string_parser.cpp:76-80 | terminating zeros are not part of the string, and nothing else is dropped |
| `ConnectionText.AddressParts` | src/odbc/src/config/config_tools.cpp:84-131 | host and port are what is before and behind the one colon |
| `ConnectionText.TwoColons` | src/odbc/src/config/config_tools.cpp:96-107 | with more than one colon there is neither |
| `ConnectionText.PortText` | src/odbc/src/config/config_tools.cpp:190-238 | a port is at most five digits of at most 65535 with white space around them; all else is zero |
| `ConnectionText.AddressWithPort` | src/odbc/src/config/config_tools.cpp:84-238 | host and port of every address with a port of at most 65535, white space around it allowed |
| `ConnectionText.AddressWithRange` | src/odbc/src/config/config_tools.cpp:133-188 | a range of ports gives its first if it is not empty, else zero |
| `ConnectionText.OnePoint` | src/odbc/src/config/config_tools.cpp:145-157 | a single point in the port spoils it |
| `ConnectionText.HostnameSegment` | src/odbc/src/config/connection_string_parser.cpp:146-154 | a hostname segment with a port sets both attributes, the port unless one is set |
| `ConnectionText.HostnameString` | src/odbc/src/config/connection_string_parser.cpp:73-154 | so does a connection string of that segment |
| `ConnectionText.NumberKinds` | src/odbc/src/config/connection_string_parser.cpp:146-504 | which attributes are numbers, addresses or paths, and their least values |
| `ConnectionText.ChoiceKinds` | src/odbc/src/config/connection_string_parser.cpp:253-377 | which attributes have options |
| `ConnectionText.FlagKinds` | src/odbc/src/config/connection_string_parser.cpp:268-435 | which attributes are true or false |
| `ConnectionText.TextKinds` | src/odbc/src/config/connection_string_parser.cpp:146-504 | all others take any text |
| `ConnectionText.CountText` | src/odbc/src/config/connection_string_parser.cpp:210-252 | digits with leading zeros are the number within its limits, wrapped from 2^31 on; too long or out of the limits they are rejected |
| `ConnectionText.PortNumberText` | src/odbc/src/config/connection_string_parser.cpp:155-207 | digits with leading zeros are a port from 1 to 65535; else they are rejected |
| `ConnectionText.NoNumber` | src/odbc/src/config/connection_string_parser.cpp:155-252 | text with anything but digits is no number |
| `ConnectionText.FlagWords` | src/odbc/src/config/connection_string_parser.cpp:506-517 | the two words in any case, and nothing else |
| `ConnectionText.ChoiceSpelled` | src/odbc/src/read_preference.cpp:23-47 | an option is found in any case, with spaces for underscores and white space around it |
| `ConnectionText.ChoiceTaken` | src/odbc/src/read_preference.cpp:23-47 | whatever is taken is such a spelling of the option that is stored |
| `ConnectionText.ParsedFits` | src/odbc/src/config/connection_string_parser.cpp:73-504 | whatever the string, every attribute holds a value of its type |
| `RowsetFetch.ColumnMetadataQuery.Execute` | src/odbc/src/query/column_metadata_query.cpp:172-186 | all rows of the answer are pending; a failure leaves nothing executed |
| `RowsetFetch.ColumnMetadataQuery.FetchNextRow` | src/odbc/src/query/column_metadata_query.cpp:192-214 | the first pending row is delivered, no data when none is left, an error before execution |
| `RowsetFetch.ColumnMetadataQuery.Close` | src/odbc/src/query/column_metadata_query.cpp:352-358 | nothing is executed or pending |
| `RowsetFetch.StatusTells` | src/odbc/src/statement.cpp:1239-1253 | each way in which a row can end has a status of its own |
| `RowsetFetch.Statement.InternalFetchRow` | src/odbc/src/statement.cpp:879-924 | the first rows of what is pending fill the elements from 0; statuses, count and result agree with them |
| `RowsetFetch.DeliveredRows` | src/odbc/src/statement.cpp:879-924 | a rowset of n elements delivers the first n pending rows in order |
| `RowsetFetch.FetchesDeliverInOrder` | src/odbc/src/statement.cpp:879-924 | over any fetches of any sizes the rows come out in order, each once; after the last every fetch is empty |
| `DataAtExecution.ParameterSet.Prepare` | src/odbc/src/app/parameter_set.cpp:64-74 | all data is cleared, bindings and selection stay |
| `DataAtExecution.ParameterSet.SelectNextParameter` | src/odbc/src/app/parameter_set.cpp:152-166 | the incomplete parameter of smallest index is selected; with none the selection stays |
| `DataAtExecution.ParameterSet.IsDataAtExecNeeded` | src/odbc/src/app/parameter_set.cpp:76-84 | whether some parameter is incomplete |
| `DataAtExecution.FirstNotReadyIsFirst` | src/odbc/src/app/parameter_set.cpp:152-166 | the parameter found is incomplete and all before it are complete; none found means all are complete |
| `DataAtExecution.Statement.InternalSelectParam` | src/odbc/src/statement.cpp:1062-1101 | refuses, asks for the next parameter, or executes, as the state machine says |
| `DataAtExecution.Statement.InternalPutData` | src/odbc/src/statement.cpp:1107-1136 | appends to or replaces the selected parameter's data, or refuses and changes nothing |
| `DataAtExecution.KeepsOrder` | src/odbc/src/statement.cpp:1062-1136 | every call keeps the parameters below the selected one complete; asking for the next is refused if and only if the selected one is incomplete, and a refused call changes nothing |
| `DataAtExecution.ParamDataAnswer` | src/odbc/src/statement.cpp:1076-1101 | execution exactly when no parameter waits for data, refusal exactly when the selected one waits, else a parameter that waits |
| `DataAtExecution.PutAnswer` | src/odbc/src/statement.cpp:1107-1136 | a put changes the selected parameter alone, and is refused exactly without one or without data to read |
| `DataAtExecution.CountedPut` | src/odbc/src/app/parameter.cpp:228-246 | a counted put appends exactly that many bytes |
| `DataAtExecution.TerminatedPut` | src/odbc/src/app/parameter.cpp:231-236 | a terminated put of character data appends the bytes before the first zero |
| `DataAtExecution.EmptyPut` | src/odbc/src/app/parameter.cpp:238-239 | no length, or a negative one without a meaning, appends nothing |
| `DataAtExecution.FixedPut` | src/odbc/src/app/parameter.cpp:248-253 | a put of fixed-size data replaces it by as much as is declared |
| `DataAtExecution.PutAppends` | src/odbc/src/app/parameter.cpp:216-246 | all puts to character and binary data together; a null is only noted |
| `DataAtExecution.SelectedInIncreasingOrder` | src/odbc/src/statement.cpp:1062-1101 | over any run, which may start with nothing selected, parameters are asked for in strictly increasing order |
| `DataAtExecution.ExecutedOnlyWhenComplete` | src/odbc/src/statement.cpp:1062-1101 | the query is executed only when every parameter holds exactly its declared length |
| `DataAtExecution.DataIsWhatWasSent` | src/odbc/src/app/parameter.cpp:216-246 | over any run, character or binary data is what was there followed by the bytes of the puts accepted while the parameter was selected, in order; no other call touches it |
| `DataAtExecution.FixedDataIsLastPut` | src/odbc/src/app/parameter.cpp:248-253 | the data of a fixed-size parameter is that of the last put for it |
| `DataAtExecution.ExecutedWithWhatWasSent` | src/odbc/src/statement.cpp:1062-1136 | at execution the bytes sent for a parameter, joined in order, are its data and have its declared length |
| `DataAtExecution.ExecutedWithCountedPieces` | src/odbc/src/statement.cpp:1062-1136 | with counted puts only, the data is the concatenation of the first len bytes of each |
| `DataAtExecution.NextRunStarts` | src/odbc/src/app/parameter_set.cpp:64-74 | after `Prepare` a run starts with its first parameter if and only if the one selected last no longer waits for data |

## Left out

- Sizes: `int32_t` lengths, bit lengths and scale differences are unbounded integers; `GetPrecision` is stated below 2^31 bits, where the code's own integer type ends.
- Bit operations: `|` of disjoint bits is written as a sum, shifts as products and quotients by powers of two.
- BigIntegers.BigInteger.Divide: quotient and remainder are stored in different objects, and signs are 1 or -1; words in front of a buffer are arbitrary parameters, and the `assert` on the carry is not a failure of the model.
- BigIntegers.BigInteger.FromBytes: a number with sign 0, which the constructor lets through, is not valid for the other operations of the model.
- BigIntegers.BigInteger.Pow: a zero base is not raised, as in the code, so 0^0 is 0.
- Decimals.Decimal.ToInt64: where the division as written is wrong, nothing is stated about the result.
- NumberText.ReadDecimal: what the stream reads as an exponent behind an 'e' is a parameter; stream flags are the default ones, and scales do not overflow.
- Floating-point conversions of decimals.
- DecimalCodec.RoundTrip: encodings of 2^31 bytes or more, whose length the format cannot hold.
- HandleRegistry: counters do not overflow, steps are sequentially consistent, and the assignment or clearing of one shared pointer and the work of one segment lock are single steps. `Get` is modelled for handles that are not negative.
- ConnectionStrings.Configuration.HandleAttributePair: the status records that it adds for rejected text are not modelled.
- Configuration: logging and the log file are not modelled; whether a path is a directory is a set of paths given to the configuration, and a string object is taken to be 32 bytes.
- ConnectionStrings.ToConnectString: the argument map is not built as an object; the key table's order stands for the ordered map's.
- Address parsing is written as functions of the text; end points, ranges of ports beyond the first, and lists of addresses are not kept.
- Parsing of DSN attribute lists, and the JDBC and MongoDB forms of connection strings.
- RowsetFetch: column buffers, offsets and conversions; a row is delivered as a whole to element i.
- DataAtExecution: a declared length stands for the application's buffer, indices are from 1 to 65535, and a put of fixed-size data beyond the caller's memory keeps what is there.
- JNI, JVM, BSON and network code, entry points, diagnostics, type tables, and the binary protocol.
