# Exact printing, format strings and key-values

This project models the parts of the repository that turn numbers, format strings and key-value
trees into text and back, and proves what they promise. Four components are covered.

**Exact decimal printing** (`Bigits`, `Convolution`, `BigintSpec`, `BigintSteps`, `Bigint`,
`Decimals`, `Residues`, `DragonSpec`, `DragonSteps`, `DragonSetUp`, `DragonShortest`, `Dragon`,
`DragonTheorems`, `Logarithms`, `FloatFormats`). `Bigints.Bigint` is the bignum with its bigits and
implicit exponent; `V()` is the natural number it stands for, and every method is stated in terms of
it. On top of it stands the digit generator, whose result is stated without any of its variables:
the text reads back as the value and no shorter one does, or it is the value rounded half to even
(section 4.3.1 of IEEE 754-2019), each with the exact condition under which the code achieves it.
`FloatFormats` says which values, flags and exponent estimates its callers pass, and which of the
failing inputs they can meet.

**Fast arithmetic** (`Subsegment`, `TrailingZeros`, `IntegerText`, `WriteFloat`, `DigitGrouping`,
`Utf8`, `IsoWeek`). Magic multiplications, tables and branchless code against the arithmetic they
stand for.

**Format strings** (`FormatSpecs`, `SpecText`, `SpecLanguage`, `FormatString`, `FormatCompile`,
`FieldText`, `Buffers`). `SpecLanguage` gives the texts of format specifications by their
characters. A handler is a record of functions, so what is proved of the two scanning loops holds
for every handler that does not care where text is cut. The compiler is the recursive function the
template metaprogram computes; what it accepts and writes is compared with interpreting the string.

**Key-values** (`KvText`, `KvWords`, `KvCut`, `KvScan`, `KvMemory`, `KvStrings`, `KvBuild`,
`KvSolid`, `KvRoot`, `KvPool`). `KvText` says what a text denotes and how entries print; `KvMemory`
says when records in memory hold entries. A pointer to a record is the number of its slot, which
`KvPool` shows to be given out once. `KvRoot.KeyValueRoot` is the root with its records and its
string buffer; `Contents(a, ns)` says that the record at `a` has the entries `ns` below it, and only
one `ns` can be meant.

## Conventions

Machine words are naturals below their bound, and wrap-around is written out wherever the code can
reach it. Exceptions and error codes are results. A text the original reads through a pointer up to
a terminator is a string without that terminator. `Arith` and `Texts` hold what several modules
share. Predicates such as `Normal` (top bigit nonzero), `Canonical` (normal, or a single zero) and
`Terminated` (a C string inside the buffer) name what the callers keep.

## Where the code and its comments differ

The model follows the code.

- `subtract_aligned` is documented to subtract whenever the dividend is not smaller; it does so only
  when the bigit above the aligned part can lend (`Bigint.SubtractAligned`).
- `add_compare` is documented as `compare` of a sum; it is exact where `compare` is not
  (`AddCompare`, `CompareExactIff`).
- The digit generator's last branch is reached with a precision below the leading digit and then
  does not round to the unit (`NoDigitsExactIff`, `NoDigitsCounterexample`). Callers meet this with
  the fixed format: long doubles at run time, floats and doubles in constant evaluation
  (`NoDigitsForDouble`).
- `compare` goes by the exponents when two numbers are equal (`CompareEqual`). The digit generator
  meets this in three places.
  - The comparison with `lower` takes the end of the rounding interval for outside or inside by
    mistake, so the shortest mode prints too many digits or an end that does not read back; `Astray`
    says when, and `FormatDragon` that it happens exactly then. It never does when the value's binary
    exponent is negative, or the remainder and `lower` are stored with the same exponent
    (`NeverAstray`). Callers meet the first kind with even values, of long doubles at run time and of
    doubles in constant evaluation (`EvenTieIsMissed`, `EvenTieTakesMore`, `EvenDoubleAstray`); the
    second kind only with 128-bit long doubles of exponent 31 (`OddTieIsTaken`, `OddQuadAstray`,
    `AstrayForCallers`).
  - A zero remainder after the first digit is overlooked (`ZeroIsOverlooked`). No caller meets this
    (`ZeroNeverHidden`).
  - The first division misses the value 10^31 with exponent 31, and more than one requested digit
    then comes out as `0:` and zeros (`OnlyTenTo31`, `MisreadText`). No caller meets this
    (`NeverMisread`), since 5^31 is no significand of any format.
- The 64-bit `remove_trailing_zeros` truncates a quotient of more than 32 bits
  (`RemoveTrailingZeros64`, `TruncationExample`). Its only callers (src/fmt/format-inl.h, lines 1215
  and 1322) stay below 2^32 * 10^8 and do not meet this.
- The format string compiler accepts some strings that formatting at run time rejects
  (`InterpretsIffCompiles`, `LoneBraceCompiles`, `MixedIdsCompile`).
- `out` of the limited buffer that writes to memory ends the writing, below the limit too
  (`LateElement`).
- `ToStringLength` forgets the space in front of a block and counts a tab as five characters
  (`CountedIsPrintedPlusSlack`); a text cut because of it still parses back in some cases
  (`ReservedReadsBack`).
- `Solidify` leaves `lastChild` pointing into a drained pool, in the root and in every copied block.

## Model

| member | source | states |
|---|---|---|
| `Bigints.Bigint.constructor` | src/fmt/format.h:2889 | a new bigint has no bigits and the value 0 |
| `Bigints.Bigint.SubtractBigits` | src/fmt/format.h:2820-2824 | one wrapped subtraction: the low word is stored and its borrow bit returned |
| `BigintSpec.SubtractLimb` | src/fmt/format.h:2821-2824 | the 64-bit wrap-around difference splits into the right bigit and the right borrow |
| `Bigints.Bigint.RemoveLeadingZeros` | src/fmt/format.h:2826-2830 | leading zero bigits go, the value stays, one bigit remains |
| `Bigints.Bigint.SubtractAligned` | src/fmt/format.h:2833-2842 | the value falls by exactly the other value when the bigit above can lend; when it cannot, the result is off by exactly (2^32 - 1) at that weight, because the borrow loop never advances |
| `BigintSpec.BorrowStops` | src/fmt/format.h:2841 | an input of that second kind: 2^64 - 1, whose next bigit is zero |
| `BigintSteps.BorrowIsComparison` | src/fmt/format.h:2836-2840 | the borrow left by the aligned part says whether that part was the smaller one |
| `Bigints.Bigint.Multiply` | src/fmt/format.h:2844-2853 | value times a 32-bit factor, for every carry chain; normal form is kept |
| `Bigints.Bigint.MultiplyWide` | src/fmt/format.h:2855-2874 | value times a 64- or 128-bit factor multiplied by halves in one pass |
| `BigintSteps.WordBounds` | src/fmt/format.h:2860-2869 | every intermediate of the wide product stays below its word, the carry included |
| `BigintSteps.WideLimbWords` | src/fmt/format.h:2865-2868 | so each wrapped step is the exact product of the bigit and both halves |
| `Bigints.Bigint.Assign` | src/fmt/format.h:2876-2886 | the bigits of a 64- or 128-bit number, least significant first |
| `Bigints.Bigint.AssignFrom` | src/fmt/format.h:2895-2901 | the other number, bigits and exponent |
| `Bigints.Bigint.ShiftLeft` | src/fmt/format.h:2912-2925 | value times 2^shift: whole bigits go to the exponent, the rest through a carry loop |
| `Bigints.Compare` | src/fmt/format.h:2933-2947 | total length, then common bigits from the top, then stored length |
| `BigintSpec.CompareExactIff` | src/fmt/format.h:2933-2947 | for normal numbers compare is the sign of the difference if and only if the two are not an equal top with only zero bigits left over in the longer one |
| `BigintSpec.CompareAtLeast` | src/fmt/format.h:2933-2947 | with the left exponent the smaller, compare(lhs, rhs) >= 0 if and only if lhs >= rhs |
| `Bigints.AddCompare` | src/fmt/format.h:2950-2973 | the sign of lhs1 + lhs2 - rhs, found from the top with a borrow of one unit and early exits |
| `BigintSpec.HighSettles` | src/fmt/format.h:2966-2972 | once the top parts differ by more than one unit the bigits below cannot change the sign |
| `Bigints.Bigint.AssignPow10` | src/fmt/format.h:2976-2993 | 10^power by squaring 5 along the bits of power and one shift |
| `BigintSteps.PowerOfFiveIsShort` | src/fmt/format.h:2985-2991 | 5^power takes few enough bigits for every square on the way |
| `Bigints.Bigint.Square` | src/fmt/format.h:2995-3021 | the square, the exponent doubled, from the two convolution loops in place |
| `Convolution.ColumnsAreProduct` | src/fmt/format.h:3001-3018 | the sum of all columns of cross products is the product of the two numbers |
| `BigintSteps.AccumulatorFits` | src/fmt/format.h:3000-3018 | the 128-bit column accumulator never overflows |
| `Bigints.Bigint.Align` | src/fmt/format.h:3025-3034 | trailing zero bigits up to the smaller exponent, moved in place; the value stays |
| `Bigints.Bigint.DivmodAssign` | src/fmt/format.h:3038-3049 | quotient returned and remainder left, exactly, for quotients that fit an int; only an equal divisor stored with the smaller exponent is missed, and then nothing changes; with the exponent facts later calls rely on |
| `BigintSpec.CompareEqual` | src/fmt/format.h:2933-2947 | two equal numbers compare by their exponents alone |
| `BigintSteps.QuotientStep` | src/fmt/format.h:3044-3047 | one more subtraction keeps dividend == quotient * divisor + remainder, and its borrow fits |
| `Dragon.Start` | src/fmt/format.h:3071-3112 | all three set-ups: numerator / denominator * 10^exp10 is the value, lower and upper the distances to the midpoints; the two are equal with the larger exponent in the numerator for one value only |
| `DragonSteps.SetUpTimesTen` | src/fmt/format.h:3115-3121 | the fixup step keeps that relation with the exponent one less |
| `Dragon.Fixup` | src/fmt/format.h:3114-3122 | fixup decreases the exponent exactly when the interval's upper end fits below 10^exp10 |
| `Dragon.AdjustPrecision` | src/fmt/format.h:2791-2797 | refused exactly when a positive exponent carries the exact sum past the largest int; a result is never above both the precision and the largest int, so the int sum does not overflow |
| `DragonSteps.DigitStep` | src/fmt/format.h:3131-3151 | one generated digit keeps digits so far * denominator + remainder equal to the scaled value |
| `DragonSteps.NineIsNotHigh` | src/fmt/format.h:3132-3143 | digit 9 together with high cannot happen, so ++data[num_digits - 1] stays a digit |
| `Dragon.ShortestDigit` | src/fmt/format.h:3131-3134 | digit and remainder, or nothing taken where the division misses; low and high if and only if the remainder is at the end, with the answers on equality and on zero that the exponents lead to |
| `Dragon.EndShortest` | src/fmt/format.h:3136-3144 | the last digit after the choice between low, high and the nearer half |
| `Dragon.GenerateShortest` | src/fmt/format.h:3126-3153 | shortest mode ends, and which digits it settles on in terms of the last remainder and the two tests |
| `DragonShortest.ShortestIff` | src/fmt/format.h:3126-3153 | what it settles on is within the interval, with no multiple of the next power of ten within, if and only if no equality with the lower end was misjudged where nothing else was left and no whole value was overlooked at the first digit |
| `DragonShortest.NoShorterText` | src/fmt/format.h:3136-3152 | a multiple of the next power of ten within the interval was the misjudged lower end, or the overlooked whole value |
| `DragonShortest.LowEndSpoils` | src/fmt/format.h:3132 | conversely, a misjudged lower end that is all there is leaves no right or no shortest text, at whatever digit it shows |
| `DragonShortest.NearestIff` | src/fmt/format.h:3136-3144 | no multiple within the interval is nearer, a closer predecessor included, if and only if the lower end is not a nearer one that was misjudged |
| `DragonShortest.NothingNearerMissed` | src/fmt/format.h:3132-3144 | which never is the case: only a closer predecessor makes the lower end the nearer one, and 5^4 would then divide 2^n - 1 with n <= 129 |
| `Dragon.NextDigit` | src/fmt/format.h:3163-3167 | each digit and remainder, by its quotient; the quotient after a missed one is ten |
| `Dragon.RoundUpNine` | src/fmt/format.h:3171-3184 | full carry propagation: the digits plus one unit, with an extra zero (fixed) or the exponent raised |
| `Dragon.GenerateDigits` | src/fmt/format.h:3162-3188 | the digits are numerator / denominator rounded half to even to num_digits digits, carries included; where the first division misses, 0, then the character behind 9, then zeros |
| `Decimals.RoundsHalfEvenUnique` | src/fmt/format.h:3168-3188 | there is only one such rounding, so the contract fixes the digits |
| `Dragon.GenerateNone` | src/fmt/format.h:3156-3161 | for num_digits <= 0: the single character compares the value with half of ten units |
| `Dragon.FormatDragon` | src/fmt/format.h:3062-3189 | both modes of the whole function, for every value and flag: shortest mode reads back with no shorter text if and only if the run does not go astray, and what it prints always lies in the closed interval with no text of its length within the interval nearer; with a number of decimal places the text ends at that place and, if a digit is left and no power of ten was missed, is the value rounded half to even to it; with a number of digits it is rounded to that many from the leading exponent; or the precise error, exactly when the sum of places and exponent exceeds the largest int, or the single character |
| `DragonTheorems.EstimateFits` | src/fmt/format.h:3114-3125 | an exponent estimate that leaves the value below 5 * 10^exp10 suffices for both modes |
| `DragonTheorems.NoDigitsExactIff` | src/fmt/format.h:3156-3161 | when no digit is left at the place asked for, the character is the right rounding if and only if that place is next to the leading one or the value is at most half of 10^(x + 1) |
| `DragonTheorems.DigitIsLeft` | src/fmt/format.h:3114-3125 | with an exponent that brackets the interval, a digit is left for a number of decimal places if and only if the upper end of the interval around the value reaches the last of them |
| `DragonTheorems.NoDigitsCounterexample` | src/fmt/format.h:3156-3161 | 0.0625, as it is passed, to no decimal places is printed as 1 instead of 0 |
| `DragonTheorems.EvenTieIsMissed` | src/fmt/format.h:3132 | an even value for which shortest mode goes astray, the fixup step included: 3584e22 reads back and is stepped over |
| `DragonTheorems.EvenTieTakesMore` | src/fmt/format.h:3126-3153 | whatever shortest mode prints for it has more than the four digits that would do |
| `DragonTheorems.OddTieIsTaken` | src/fmt/format.h:3132 | an odd value with 113 bits for which the end that is taken does not read back, the fixup step included |
| `DragonTheorems.ZeroIsOverlooked` | src/fmt/format.h:3131-3134 | 10^32 as a pair of 76 bits without the fixup step, an input of the function that no caller passes: its zero remainder is overlooked |
| `DragonTheorems.OnlyTenTo31` | src/fmt/format.h:3076-3087 | the value that the first division misses is 10^31 with exponent 31, and no other |
| `DragonTheorems.TenTo31IsMisread` | src/fmt/format.h:3062-3087 | that value is in range for the function, in both modes, though no caller passes it |
| `DragonTheorems.MisreadIsNoNumeral` | src/fmt/format.h:3163-3167 | and the text that comes out for more than one digit is no numeral |
| `FloatFormats.AssignIsNormalised` | src/fmt/format.h:1664-1688 | the values and flags taken from positive finite numbers are exactly the p-bit significands with the top bit set, or smaller ones at the least exponent, and closer exactly at powers of two above it |
| `FloatFormats.OneIsOne` | src/fmt/format.h:1664-1688 | the number one of each format is taken apart as a power of two and its inverse |
| `FloatFormats.EstimateIsCeiling` | src/fmt/format.h:3310-3311 | the conversion and the comparison round the estimate up |
| `FloatFormats.EstimateBrackets` | src/fmt/format.h:3301-3312 | 10^(x - 1) <= 2^l <= 10^x for the estimate x of every binary logarithm l that occurs |
| `Logarithms.TenBelowTwo` | src/fmt/format.h:3301-3312 | powers of ten below powers of two, from 10^8651 <= 2^28738 |
| `Logarithms.TwoBelowTen` | src/fmt/format.h:3301-3312 | powers of two below powers of ten, from 2^13301 <= 10^4004 |
| `FloatFormats.EstimateIsClose` | src/fmt/format.h:3305-3309 | so 10^(exp - 1) <= value < 10^(exp + 1), as is said where the estimate is made |
| `FloatFormats.EstimateSuffices` | src/fmt/format.h:3301-3312 | and for every value that is passed the estimate is in range and large enough for both modes |
| `FloatFormats.NeverMisread` | src/fmt/format.h:3566-3576 | no value a caller passes is the one that the first division misses |
| `FloatFormats.AlwaysRounded` | src/fmt/format.h:3566-3576 | so every positive number of digits that is asked for is the rounding half to even |
| `FloatFormats.PlaceIsReached` | src/fmt/format.h:3114-3125 | for a caller with decimal places, a digit is left if and only if the upper end of the interval around the value reaches the last place |
| `FloatFormats.PlacesRounded` | src/fmt/format.h:3123-3188 | and then the text is the value rounded half to even to that place |
| `FloatFormats.OrderAbove` | src/fmt/format.h:3301-3312 | with the estimate the remainder has a larger exponent than lower only for 128-bit values with exponent 31, or 30 when closer |
| `FloatFormats.ZeroNeverHidden` | src/fmt/format.h:3301-3312 | and there the fixup step always lowers the exponent, so no zero remainder is overlooked for a caller |
| `FloatFormats.AstrayForCallers` | src/fmt/format.h:3132 | which values go astray for a caller: those whose lower end is all that reads back at some scale, if they are even with fewer whole bigits in the decimal than in the binary exponent, or odd with 128 bits and exponent 31 |
| `FloatFormats.EvenDoubleAstray` | src/fmt/format.h:3132 | the even input is a double with its estimate |
| `FloatFormats.OddQuadAstray` | src/fmt/format.h:3132 | the odd one is a 128-bit number with its estimate |
| `FloatFormats.NoDigitsForDouble` | src/fmt/format.h:3156-3161 | 0.0625 is passed as 2^52 * 2^-56 with a closer predecessor and the estimate -1, and gets the character 1 |
| `DragonSetUp.LargeNeverMeets` | src/fmt/format.h:3076-3087 | with value.e >= 0 numerator and denominator are never equal at different exponents, outside one family |
| `DragonSetUp.MisreadMeets` | src/fmt/format.h:3076-3087 | that family: 5^x * 2^x with x one below a multiple of 32 comes out as equal numbers stored with different exponents |
| `DragonSetUp.MisreadTimesTen` | src/fmt/format.h:3166 | ten times a missed numerator is not missed again |
| `DragonSetUp.LowDecides` | src/fmt/format.h:3132 | low in values, both ways: exact on different numbers, by exponents and parity on equal ones, by the stored length on zero |
| `DragonSetUp.OrderMeans` | src/fmt/format.h:3071-3112 | how the stored exponents compare, from the value and exp10 alone |
| `Subsegment.PrintSubsegment` | src/fmt/format.h:3423-3460 | for every subsegment below 10^9 and k in 1..9 the characters written are the first k digits of its nine-digit numeral, and the fraction left over approximates the rest |
| `Subsegment.IntegerPart` | src/fmt/format.h:3434-3457 | a fixed-point number whose scaled error is positive and below one unit has the right integer part and fraction |
| `Subsegment.FirstApproximation` | src/fmt/format.h:3428-3447 | both magic multiplications are such approximations |
| `Subsegment.NextPair` | src/fmt/format.h:3455-3456 | multiplying the fraction by 100 gives the next two digits and again an approximation |
| `Subsegment.PaddedPrefix` | src/fmt/format.h:3424-3460 | the first k digits are the quotient by a power of ten |
| `Subsegment.FirstSubsegment` | src/fmt/format.h:3410-3414 | the reciprocal of 10^10 by one high product is the exact quotient |
| `TrailingZeros.Umul128` | src/fmt/format.h:1484-1510 | four 32-bit partial products give the exact 128-bit product, with no 64-bit overflow on the way |
| `TrailingZeros.RotationDivides` | src/fmt/format-inl.h:1137-1147 | multiplying by an inverse and rotating is at most a bound exactly when the divisor divides, and is then the quotient |
| `TrailingZeros.Candidates` | src/fmt/format-inl.h:1133-1147 | the four constants are such inverses and bounds |
| `TrailingZeros.ReciprocalDivides` | src/fmt/format-inl.h:1155-1162 | the low 90 bits of the product are below ceil(2^90 / 10^8) exactly when 10^8 divides n; the bits above are the quotient |
| `TrailingZeros.RemoveTrailingZeros32` | src/fmt/format-inl.h:1131-1149 | n without its zeros and their number, for every nonzero 32-bit n |
| `TrailingZeros.RemoveTrailingZeros64` | src/fmt/format-inl.h:1152-1187 | right if and only if a multiple of 10^8 has a quotient that fits 32 bits, over all nonzero 64-bit n; for multiples of 2^32 * 10^8 the assertion behind it fails |
| `TrailingZeros.TruncationExample` | src/fmt/format-inl.h:1160-1167 | (2^32 + 1) * 10^8 is an input it gets wrong; both callers (lines 1215 and 1322) stay below 2^32 * 10^8 |
| `TrailingZeros.StrippedUnique` | src/fmt/format-inl.h:1130-1187 | n' * 10^s with n' no multiple of ten is unique |
| `IntegerText.CountDigits32IsDigitCount` | src/fmt/format.h:1251-1269 | the 32-bit table and one addition count the decimal digits |
| `IntegerText.CountDigits64IsDigitCount` | src/fmt/format.h:1202-1216 | the 64-bit tables do too |
| `IntegerText.CountDigitsFallback` | src/fmt/format.h:1179-1192 | so does the loop over groups of four digits |
| `IntegerText.FormatDecimal` | src/fmt/format.h:1343-1363 | exactly the numeral, at the end of the space, and nothing else written |
| `IntegerText.NumeralDenotes` | src/fmt/format.h:1343-1363 | the numeral denotes the number and has no leading zero |
| `IntegerText.ParseNonnegativeInt` | src/fmt/core.h:2138-2158 | the number read if it has at most ten digits and fits an int, else the error value, in spite of the wrapping accumulator |
| `IntegerText.ParsedInt` | src/fmt/core.h:2142-2157 | what the wrapped value and the previous one tell about the true number |
| `IntegerText.NumeralParses` | src/fmt/core.h:2138-2158 | every numeral written is read back as n when n <= INT_MAX and as the error value otherwise |
| `IntegerText.LeadingZerosRefused` | src/fmt/core.h:2148-2157 | eleven digits are refused even when leading zeros make the number 1 |
| `WriteFloat.DoWriteFloat` | src/fmt/format.h:2620-2722 | in every layout the text, without sign and separators, denotes digits * 10^exponent, has the shape the specifications ask for, and takes exactly the size reckoned before writing; it shows an exponent, with the letter asked for and no other, always in the exponent format, never in the fixed one, and in the general one exactly when the number is below 10^-4, or at least 10^16 or 10 to the precision |
| `WriteFloat.ExpFormatByNumber` | src/fmt/format.h:2638-2642 | the test on the output exponent is that test on the number |
| `WriteFloat.LayoutDigits` | src/fmt/format.h:2644-2722 | no zero in front of the first digit but a lone one, and behind the last digit only what the value needs, or as many digits in all as the precision when the point must show |
| `WriteFloat.WriteScientific` | src/fmt/format.h:2644-2670 | the exponent layout, with the optional point and zeros |
| `WriteFloat.WriteWhole` | src/fmt/format.h:2672-2692 | the layout with only trailing zeros, grouped |
| `WriteFloat.WriteMixed` | src/fmt/format.h:2693-2705 | the layout with the point inside the digits, grouped in front of it |
| `WriteFloat.WriteFraction` | src/fmt/format.h:2706-2722 | the layout with leading zeros, down to no digits at all |
| `WriteFloat.WriteSignificand` | src/fmt/format.h:2555-2574 | digit pairs from the right, then the point, then the integral digits: the numeral with the point in place |
| `WriteFloat.WriteExponent` | src/fmt/format.h:1630-1648 | sign and two to four digits that denote the exponent |
| `DigitGrouping.CountSeparators` | src/fmt/format.h:2097-2102 | the number of separator positions below the number of digits |
| `DigitGrouping.Apply` | src/fmt/format.h:2106-2126 | a separator before exactly the digits at those positions, counted from the right |
| `DigitGrouping.PositionsAreSums` | src/fmt/format.h:2075-2083 | separators go exactly where a group ends: at the sums of group sizes, the last one repeating, up to a size of 0, below 0 or CHAR_MAX |
| `DigitGrouping.GroupedLength` | src/fmt/format.h:2097-2126 | count_separators agrees with apply: length is digits plus count times separator length |
| `DigitGrouping.GroupedKeepsDigits` | src/fmt/format.h:2106-2126 | without the separators the digits are left, in order |
| `DigitGrouping.BetweenDigits` | src/fmt/format.h:2106-2126 | between two digits stands one separator or nothing, the first exactly if as many digits as make up whole groups follow |
| `FormatString.ParseFormatString` | src/fmt/core.h:2478-2525 | whichever loop runs, every sound handler ends in the same state or is aborted at the same point with the same message |
| `FormatString.CharacterLoop` | src/fmt/core.h:2482-2499 | the loop for short strings does what the meaning of the string says |
| `FormatString.FindLoop` | src/fmt/core.h:2516-2524 | so does the loop that looks for opening braces first, on strings of any length |
| `FormatString.Write` | src/fmt/core.h:2500-2515 | the text between fields: escaped closing braces, or the abort at an unmatched one |
| `FieldText.PlainIsWritten` | src/fmt/core.h:2441-2475 | a plain field, automatic or numbered as the context allows, writes its argument wherever it stands, and sets the context |
| `FieldText.FieldIsWritten` | src/fmt/format.h:4364-4389 | a field with a specification, automatic or numbered, writes its argument by that specification with width and precision as given or as the arguments referred to hold, each in its own place; or fails as writing it does, or because a character takes no #, sign or 0 |
| `FieldText.FieldFails` | src/fmt/format.h:3857-3885 | a width or precision from an argument that is missing, no integer, negative or above INT_MAX ends the run with the message that says so |
| `FormatCompile.AmountsOrRefuses` | src/fmt/format.h:3857-3885 | an argument gives a width or precision, or there is such a reason, never both |
| `FormatCompile.WritesAmounts` | src/fmt/format.h:4481-4500 | a compiled field writes likewise |
| `FormatCompile.RefusesAmounts` | src/fmt/format.h:4481-4500 | and fails likewise |
| `FieldText.SignNeedsSigned` | src/fmt/core.h:2322-2334 | a sign is accepted for signed numbers and floats only |
| `FieldText.FieldAlone` | src/fmt/format.h:4371-4390 | so does the whole entry point on such a field as its format string |
| `FieldText.PlainCompiles` | src/fmt/compile.h:316-341 | a plain field compiles to the argument it names, if there is one |
| `FieldText.FieldCompilesAlone` | src/fmt/compile.h:264-314 | a field with a specification compiles to its argument and exactly that specification, and is rejected without the argument or for a character that takes no such specification |
| `FieldText.AutomaticRefused` | src/fmt/core.h:2441-2475 | an automatic id after a numbered one ends the run |
| `FieldText.NumberRefused` | src/fmt/core.h:2441-2475 | so does a numbered id after an automatic one |
| `FieldText.NameRefused` | src/fmt/format.h:4360-4364 | and a name, as there are no named arguments |
| `FieldText.ArgumentMissing` | src/fmt/format.h:4366-4376 | and an id without an argument |
| `FieldText.BrokenField` | src/fmt/core.h:2454-2473 | and a brace at the end, or a number that is followed by neither a closing brace nor a colon |
| `FormatString.DoubledIsText` | src/fmt/core.h:2482-2524 | a text with its braces doubled is handled as that text, with no field |
| `FormatSpecs.ParseArgId` | src/fmt/core.h:2177-2213 | automatic, numbered or named id, or the error, and where it ends |
| `FormatSpecs.ParseFormatSpecs` | src/fmt/core.h:2275-2437 | the specification loop computes the turn-by-turn meaning of the grammar |
| `SpecLanguage.SpecRoundTrip` | src/fmt/core.h:2275-2437 | every specification that fits its type, its width and precision fixed, numbered, named or automatic as the context allows, is what its text is read as, wherever the text stands, with the context that follows |
| `SpecText.AcceptedFits` | src/fmt/core.h:2275-2437 | conversely, whatever is accepted fits its type, with references in the order the context counts |
| `SpecLanguage.AcceptedIffFits` | src/fmt/core.h:2275-2437 | so some text is accepted as a specification if and only if it fits |
| `SpecLanguage.LetterAccepted` | src/fmt/core.h:2376-2413 | each presentation letter by the types it is accepted for |
| `SpecLanguage.AcceptedByCharacters` | src/fmt/core.h:2275-2437 | and every other part: a sign only for signed integers and floats; alternate form, locale and zero padding only for arithmetic types; a precision only for floats and strings; a fill of one code point that is no brace; names of letters, digits and underscores; amounts up to 2147483647; references that count up from the context, or numbered ones when none has been counted |
| `SpecLanguage.AcceptedTexts` | src/fmt/core.h:2275-2437 | a text in front of a closing brace is accepted if and only if it is fill and alignment, sign, #, 0, width, precision, L and letter in this order, each at most once and allowed for the type; it then means what these pieces say |
| `SpecLanguage.AcceptedIsSpelled` | src/fmt/core.h:2310-2436 | whatever is accepted consists of such pieces |
| `SpecLanguage.SpelledIsAccepted` | src/fmt/core.h:2310-2436 | and every such text is accepted |
| `SpecLanguage.DynamicIsRead` | src/fmt/core.h:2237-2256 | a number, or a reference of any kind, is read as its text says, with the context that follows |
| `SpecLanguage.IdIsRead` | src/fmt/core.h:2177-2213 | the digits of an argument number are read as that number, and as the largest int when they exceed it |
| `SpecText.FillIsRead` | src/fmt/core.h:2416-2433 | a fill character of any length with its alignment is taken before anything else |
| `SpecText.IndexIsRead` | src/fmt/core.h:2177-2213 | the number of an argument is read as that number |
| `SpecText.NameIsRead` | src/fmt/core.h:2177-2213 | a name is read as that name, to its last character |
| `FormatSpecs.SpecsSameContext` | src/fmt/core.h:2275-2437 | specifications accepted in the manual context read the same in a context started at 0, which stays manual |
| `FormatCompile.FormatHandlerSound` | src/fmt/format.h:4337-4391 | the run-time handler treats text cut anywhere alike and never moves outside the string |
| `FormatCompile.VformatTo` | src/fmt/format.h:4327-4393 | formatting is interpreting the string from the start, the shortcut for a single plain field included |
| `FormatCompile.PlainField` | src/fmt/format.h:4330-4335 | that shortcut writes what the parser would |
| `FormatCompile.SpecsAgree` | src/fmt/compile.h:264-274 | specifications that run are read alike by the compiler in the context it sets up for them |
| `FormatCompile.FieldCompiles` | src/fmt/compile.h:316-393 | every field or escaped brace the interpreter gets past compiles to one part that writes the same text, with the same next id |
| `FormatCompile.CompiledAgrees` | src/fmt/compile.h:231-408 | from any position and id state, what interpreting adds to the output is what the compiled rest writes |
| `FormatCompile.CompileThenFormat` | src/fmt/compile.h:231-422 | every string that runs on given positional arguments compiles for their types and writes the same text |
| `FormatCompile.InterpretsIffCompiles` | src/fmt/compile.h:231-422 | for every string and arguments, running succeeds if and only if it compiles, what was compiled can be written, and two things the compiler does not check are in order: closing braces outside fields are doubled, and manual ids go with no automatic reference |
| `FormatCompile.SpecsManual` | src/fmt/compile.h:264-274 | what the compiler accepts in its fresh context for manual ids, the run-time context accepts exactly without automatic references |
| `FormatCompile.LoneBraceCompiles` | src/fmt/compile.h:394-397 | an input of the first kind: a lone closing brace compiles although it does not run |
| `FormatCompile.MixedIdsCompile` | src/fmt/compile.h:327-339 | one of the second: an automatic width next to a manual id |
| `Utf8.DecodesEncoding` | src/fmt/format.h:665-700 | when no error bit is set the bytes are the encoding of the scalar value returned (sections 3 and 4 of RFC 3629) |
| `Utf8.EncodingDecodes` | src/fmt/format.h:665-700 | every encoding of a scalar value decodes to it without an error bit, whatever bytes follow |
| `Utf8.EndsInside` | src/fmt/format.h:724-734 | a code point decoded from the padded tail never reaches into the padding |
| `Utf8.ForEachCodepoint` | src/fmt/format.h:707-735 | the visits are those of the text from left to right, up to the first one the callback refuses; all reads are inside the text or the padded copy |
| `Utf8.Decode` | src/fmt/format.h:708-715 | one visit and how far to go on |
| `Utf8.ViewsCover` | src/fmt/format.h:707-735 | the views of all visits concatenate to the text |
| `Utf8.VisitExact` | src/fmt/format.h:708-715 | a visit reports a scalar value with exactly its encoding, or an error on one byte where no encoding starts |
| `Utf8.ConvertUtf32` | src/fmt/format.h:1446-1480 | the encodings of all values and a terminator, or false at the first value that is no scalar |
| `Utf8.AppendCodePoint` | src/fmt/format.h:1450-1476 | the bytes of one value by range, or the failure |
| `Utf8.RoundTrip` | src/fmt/format.h:707-735 | visiting a converted text gives exactly the values it was converted from |
| `Buffers.FixedBufferTraits.Limit` | src/fmt/core.h:896-900 | how much of the next piece is due; all of it is counted |
| `Buffers.IteratorBuffer.Append` | src/fmt/format.h:871-881 | all elements are appended, each turn making room for at least one |
| `Buffers.IteratorBuffer.PushBack` | src/fmt/core.h:865-868 | one element is appended, after a flush if there is no room |
| `Buffers.IteratorBuffer.Grow` | src/fmt/core.h:912-914 | a full buffer is flushed, so there is room |
| `Buffers.IteratorBuffer.Flush` | src/fmt/core.h:916-920 | what has been delivered is the first limit elements of what has been flushed |
| `Buffers.IteratorBuffer.Out` | src/fmt/core.h:929-932 | exactly the first limit elements of everything appended have been delivered |
| `Buffers.IteratorBuffer.Count` | src/fmt/core.h:933 | all elements appended are counted |
| `Buffers.PointerBuffer.constructor` | src/fmt/core.h:960-961 | writing starts in the destination, with room for the limit |
| `Buffers.PointerBuffer.Append` | src/fmt/format.h:871-881 | as above, for the variant that writes to the destination first; a destination that was left stays as it is |
| `Buffers.PointerBuffer.PushBack` | src/fmt/core.h:865-868 | as above |
| `Buffers.PointerBuffer.Grow` | src/fmt/core.h:946-948 | a full destination is left for the spare buffer, a full spare buffer is emptied |
| `Buffers.PointerBuffer.Flush` | src/fmt/core.h:950-957 | the position becomes the number of elements due, if the destination had not been left before |
| `Buffers.PointerBuffer.Out` | src/fmt/core.h:973-976 | the destination holds the first limit elements and is otherwise untouched; after an early call the position stays, whatever is appended |
| `Buffers.PointerBuffer.Count` | src/fmt/core.h:977-979 | all elements appended are counted, before and after out |
| `Buffers.FormatToN` | src/fmt/core.h:2826-2834 | the limited formatting function: at most n elements of the text, in place, and the size of all of it |
| `Buffers.LateElement` | src/fmt/core.h:950-957 | an element appended after out is counted but never arrives, although the limit has not been reached |
| `Buffers.ClipConcat` | src/fmt/core.h:896-900 | delivering in pieces by what is left of the limit is delivering the first limit elements |
| `IsoWeek.IsoYearWeeksIsThursdays` | src/fmt/chrono.h:1179-1188 | the year has as many weeks as Thursdays |
| `IsoWeek.WeekNumCounts` | src/fmt/chrono.h:1189-1192 | the week number counts the Thursdays of the year up to the one of the day's week |
| `IsoWeek.IsoWeekIsThursdays` | src/fmt/chrono.h:1193-1206 | for every year >= 1 and consistent day, the year and week index of that week's Thursday (section 4.1.4 of ISO 8601:2004) |
| `IsoWeek.FirstDayFormula` | src/fmt/chrono.h:1180-1186 | the sums of leap days give the day on which a year begins |
| `KvScan.SkipWhitespace` | src/speedykv/speedykv.cpp:46-60 | the next position that is neither whitespace nor inside a comment |
| `KvScan.ReadQuotedString` | src/speedykv/speedykv.cpp:62-88 | the characters up to the closing quote, or the error |
| `KvScan.ReadQuotelessString` | src/speedykv/speedykv.cpp:92-102 | the characters up to whitespace or a special character |
| `KvRoot.KeyValueRoot.constructor` | src/speedykv/speedykv.cpp:193-208 | a root without entries |
| `KvRoot.KeyValueRoot.Parse` | src/speedykv/speedykv.cpp:485-642 | error and stopping position as the format says; without an error, linked records that hold exactly the entries, every block's last child, every other record untouched, and the tally of their bytes |
| `KvRoot.KeyValueRoot.ParseTurn` | src/speedykv/speedykv.cpp:492-546 | one turn of the loop: the end, an error, or one more entry |
| `KvRoot.KeyValueRoot.ParseValue` | src/speedykv/speedykv.cpp:548-619 | the value behind a key |
| `KvRoot.KeyValueRoot.ParseBlock` | src/speedykv/speedykv.cpp:575-594 | a block's record, holding its contents |
| `KvBuild.LinkStep` | src/speedykv/speedykv.cpp:622-631 | linking one more record keeps the list of all entries so far |
| `KvBuild.FinishStep` | src/speedykv/speedykv.cpp:634-639 | ending the list |
| `KvText.RoundTrip` | src/speedykv/speedykv.cpp:485-784 | for entries without quotes and terminators, parsing the printed text gives the same entries in the same order and tallies their bytes |
| `KvText.PrintedBlock` | src/speedykv/speedykv.cpp:699-736 | a pair inside a block as it is printed, character by character |
| `KvWords.LayoutRoundTrip` | src/speedykv/speedykv.cpp:46-102 | entries laid out in any way are read as those entries and tallied: each word in quotes, or bare with characters from ! to ~ but quotes and braces and no // in front; between them any blanks and comments up to the line end |
| `KvWords.DroppedKey` | src/speedykv/speedykv.cpp:548-560 | a last root key without a value is no entry and no error, but its bytes are tallied |
| `KvWords.ParsesLayout` | src/speedykv/speedykv.cpp:485-642 | the same at any position and depth, whatever follows |
| `KvWords.SpellingIsRead` | src/speedykv/speedykv.cpp:62-102 | a word is read up to its closing quote, or to the first blank, quote or brace |
| `KvWords.GapIsSkipped` | src/speedykv/speedykv.cpp:46-60 | blanks and whole comment lines are skipped, each comment to its first line end |
| `KvWords.KeyErrors` | src/speedykv/speedykv.cpp:500-546 | which error, or end, comes of what stands instead of a key: an opening brace, a closing one, the end, an unclosed quote |
| `KvWords.ValueErrors` | src/speedykv/speedykv.cpp:548-614 | and of what stands instead of a value |
| `KvWords.ErrorPasses` | src/speedykv/speedykv.cpp:575-594 | an error behind entries is that of the whole list, at the same position |
| `KvWords.BlockFails` | src/speedykv/speedykv.cpp:575-594 | so is an error inside a block |
| `KvText.PrintInjective` | src/speedykv/speedykv.cpp:699-736 | two forests of such entries never print alike |
| `KvText.TallyCovers` | src/speedykv/speedykv.cpp:546-614 | the bytes tallied are exactly those of the strings, plus those of a last root key without a value |
| `KvRoot.KeyValueRoot.BuildData` | src/speedykv/speedykv.cpp:645-674 | every string is copied, with a terminator, into its own stretch, in order; records point at the copies and nothing else changes |
| `KvRoot.KeyValueRoot.CopyEntry` | src/speedykv/speedykv.cpp:650-671 | the strings of one entry |
| `KvStrings.PlacedIsSegment` | src/speedykv/speedykv.cpp:645-674 | records pointing at the copies hold the same entries as before |
| `KvStrings.PlacedSound` | src/speedykv/speedykv.cpp:645-669 | every key and value, read as a C string, is its text, and every block's last child is among the records |
| `KvRoot.KeyValueRoot.ParseText` | src/speedykv/speedykv.cpp:252-270 | a whole parse: the entries are held without the text, in a buffer of exactly their bytes and those of a dropped last key, which is never overrun; lastChild is the last entry |
| `KvMemory.ListUnique` | src/speedykv/speedykv.h:126-147 | a record has one list of entries only, so these contracts fix what is held |
| `KvRoot.KeyValueRoot.Solidify` | src/speedykv/speedykv.cpp:234-250 | the same entries at every depth, in arrays, reached without any record the pools held; lastChild is not moved, and in the root and in every copied block points at a record that is gone |
| `KvRoot.KeyValueRoot.SolidifyUnnoticed` | src/speedykv/speedykv.cpp:234-250 | a client that looks up any key and any index and prints, before and after, gets the same answers |
| `KvRoot.KeyValueRoot.Ask` | src/speedykv/speedykv.cpp:314-367 | what such a client gets depends on the entries alone |
| `KvRoot.KeyValueRoot.Describe` | src/speedykv/speedykv.h:60-78 | the strings of the entry found, or what is printed below it |
| `KvRoot.KeyValueRoot.SolidifyNode` | src/speedykv/speedykv.cpp:286-311 | a list of children becomes an array of copies; nothing but the owner's pointer changes below it |
| `KvRoot.KeyValueRoot.SolidifyElement` | src/speedykv/speedykv.cpp:296-307 | one element and the array of its own children |
| `KvMemory.ArrayIsList` | src/speedykv/speedykv.cpp:303-309 | the array still reads as a linked list |
| `KvRoot.KeyValueRoot.GetByKey` | src/speedykv/speedykv.cpp:314-346 | the first entry whose key matches but for case, by index or along the list, or the invalid entry |
| `KvRoot.KeyValueRoot.GetByIndex` | src/speedykv/speedykv.cpp:348-367 | the entry at an index, by index or along the list, or the invalid entry |
| `KvSolid.EntryContains` | src/speedykv/speedykv.cpp:314-367 | the entry found can be searched and printed in turn, so both hold at every depth |
| `KvStrings.FindKeyFirst` | src/speedykv/speedykv.cpp:320-343 | the first match is the one no earlier entry matches |
| `KvStrings.EqualNoCaseMeans` | src/speedykv/speedykv.cpp:325-339 | keys match letter by letter: equal, or the two cases of a letter from A to Z |
| `KvRoot.KeyValueRoot.CopyAndShift` | src/speedykv/speedykv.cpp:677-683 | as much as there is room for, and the position and room moved by that much |
| `KvRoot.KeyValueRoot.TabFill` | src/speedykv/speedykv.cpp:691-697 | four spaces for each tab |
| `KvRoot.KeyValueRoot.PrintEntries` | src/speedykv/speedykv.cpp:699-736 | the printed entries, clipped to the room |
| `KvRoot.KeyValueRoot.PrintEntry` | src/speedykv/speedykv.cpp:705-734 | one entry, its block indented one more |
| `KvRoot.KeyValueRoot.ToStringInto` | src/speedykv/speedykv.h:78 | the first maxLength characters, and a terminator if there is room |
| `KvRoot.KeyValueRoot.ToStringLength` | src/speedykv/speedykv.cpp:753-784 | the length reserved for the entries |
| `KvText.CountedIsPrintedPlusSlack` | src/speedykv/speedykv.cpp:753-784 | reserved length minus printed length, for all entries: every tab is one too many, every block one too few |
| `KvText.LengthSuffices` | src/speedykv/speedykv.cpp:738-784 | the reserved length is enough when no top-level block is empty |
| `KvText.EmptyBlockOverflows` | src/speedykv/speedykv.cpp:738-784 | one empty top-level block is one character too long |
| `KvRoot.KeyValueRoot.ToString` | src/speedykv/speedykv.cpp:738-751 | a new C string: the whole text, or the text cut at the reserved length, which parses back if and only if the slack is not negative or the cut is a safe one |
| `KvCut.ReservedReadsBack` | src/speedykv/speedykv.cpp:738-784 | printed entries cut to their reserved length read back if and only if nothing is missing or the cut is safe for the last entries |
| `KvCut.CutList` | src/speedykv/speedykv.cpp:485-642 | at any depth, a printed list that lost its last d characters is read as that list if and only if d is safe: behind a value, a closing brace or an empty block's opening one |
| `KvCut.EmptyBlocks` | src/speedykv/speedykv.cpp:738-751 | one empty block at the top reads back although it is cut, two do not |
| `KvPool.KeyValuePool.Create` | src/speedykv/speedykv.cpp:149-166 | the n-th slot of the chain; no chunk is moved or reused |
| `KvPool.SlotNumberInjective` | src/speedykv/speedykv.cpp:149-166 | slots handed out at different times are different |
| `KvPool.KeyValuePool.Drain` | src/speedykv/speedykv.cpp:131-146 | every chunk of the chain is visited once |

## Left out

- Dragon.FormatDragon: the value is positive and its exponent estimate large enough, as `EstimateSuffices` shows of the one computed by logarithm; the one the fixed-precision path finds by its power tables is a parameter; exponents are unbounded numbers.
- FloatFormats.EstimateIsCeiling: the estimate's double arithmetic is real arithmetic here; its rounding is not modelled.
- FloatFormats.AssignIsNormalised: formats of 32, 64, 80 and 128 bits; pairs of doubles are not modelled.
- Bigints.Bigint.DivmodAssign: quotients fit an int, as its return type demands.
- Bigints.Bigint.AssignPow10: the power is below 2^30, since the loop's int mask overflows at larger ones.
- Bigints.Bigint.Square: exponents and sizes are unbounded numbers; their int overflow is not modelled.
- TrailingZeros.RemoveTrailingZeros64: a failed assertion ends the run; what happens where assertions are off is not modelled.
- TrailingZeros.RemoveTrailingZeros32: the number of zeros it starts from is even, as at both calls, because `s |= 1` stands for adding one.
- Buffers.PointerBuffer.constructor: the destination is an array with room for the limit, where the original has a bare pointer; moving buffers is not modelled.
- DigitGrouping.Apply: group sizes are given whenever there is a separator, since the original reads the last one.
- WriteFloat.DoWriteFloat: padding to a width, and the locale lookups for point and separators, which are parameters; a separator is one character or none, as a locale gives it.
- FormatString.ParseFormatString: handlers are values that functions transform, not objects that change; formatting of a single argument is a parameter both parsers share.
- FormatCompile.CompileThenFormat: named arguments and custom argument types.
- FormatSpecs.ParseFormatSpecs: characters are single bytes, and the automatic argument id is an unbounded number.
- Utf8.ConvertUtf32: UTF-16 input and its surrogate pairs, and the replacement policy that only they use.
- Utf8.ForEachCodepoint: the callback answers from the visits it has seen; other side effects are not modelled.
- KvRoot.KeyValueRoot.Parse: after an error the contents of the records are not stated; input that ends inside a block right behind a value is accepted, as in the original.
- KvRoot.KeyValueRoot.ParseText: a second parse on one root.
- KvRoot.KeyValueRoot.Solidify: adding entries, before or after it, with the write pools that only adding uses.
- KvRoot.KeyValueRoot.GetByKey: letters are compared without case as ASCII letters; the static invalid entry is a null pointer.
- KvRoot.KeyValueRoot.ToString: value and child pointer share storage in the original and are separate fields here; which one is meant is always checked.
- KvPool.KeyValuePool.Create: failing allocations, and giving a chunk's memory back.
- The shortest-double algorithm with its power tables, the remaining segments of fixed-precision printing, hexadecimal floats and long double classification.
- Locale facets, template dispatch on character types, and output to files and streams.
- Everything that patches engine code, hooks functions, scans signatures or talks to the network.
- The string cipher and colour escapes, which would only add easy members.
