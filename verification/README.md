# Model of the seed7 big integer, array and action table runtime

The project models parts of the C runtime of seed7 and proves what they promise:

- `src/big_rtl.c`: big integers in two's complement with 32-bit digits, lowest
  digit first. The modules follow the operations: representation (`Digits`,
  `Carries`, `Bits`, `BigRecord`), sums (`AddSubtract`, `IncrementDecrement`),
  products (`RawDigits`, `Multiplication`, `Karatsuba`, `Squaring`,
  `BigMultiplication`), division (`DivisionLaws`, `ShortDivision`, `LongDivision`,
  `SignedDivision`, `FlooredDivision`), shifts (`ShiftLaws`, `BigShift`), powers
  (`Exponentiation`), divisors and logarithms (`GcdLaws`, `BigGcd`, `BigLog10`),
  strings (`Numerals`, `RadixTables`, `PrintedText`, `PrintLimit`, `BigPrint`,
  `PowerBounds`, `LargePowers`, `RadixText`, `RadixParts`, `RadixRoom`, `BigParse`,
  `PowerOfTwoRadix`, `PowerOfTwoPrint`, `RadixConversion`), bytes (`ByteStrings`)
  and bits (`Bitwise`).
- `src/arr_rtl.c` and `src/arrlib.c`: sorting (`ArraySort`, `ArraySortReverse`),
  slices, removal (`ArrayOwnership`), insertion and appending (`ArrayInsertion`).
- `src/actutl.c`: the index of the action table (`ActionIndex`).

A `Big` is an object with a size and a buffer of digits, and its methods change
that buffer as the C functions do. Its value is the two's complement value of the
digits. A number is canonical if no leading digit can be left out. Digits are
32-bit and accumulators 64-bit subset types, so no carry loop overflows. The C
functions that get pointers into digit buffers work on positions of one memory
here. Exceptions are result values, and a failing allocation is a parameter where
the C code has to undo something.

`dafny verify dfyconfig.toml` checks all of it.

## Model

| member | source | states |
|---|---|---|
| Digits.NormalUnique | src/big_rtl.c:4049-4059 | two canonical digit strings with the same value are the same, which is why comparing digits decides equality |
| Digits.NormalIsShortest | src/big_rtl.c:500-546 | no other digits with the value of a canonical number are fewer |
| BigRecord.Normalize | src/big_rtl.c:500-546 | reaches the canonical form, keeps the value and never enlarges the number |
| BigRecord.BigEq | src/big_rtl.c:4049-4059 | true exactly for equal values |
| BigRecord.BigCmp | src/big_rtl.c:3540-3564 | -1, 0 or 1 exactly if the first number is less than, equal to or greater than the second one, for all combinations of signs and sizes |
| BigRecord.NegatePositiveBig | src/big_rtl.c:550-563 | the negation modulo the radix to the power of the size, in place |
| BigRecord.PositiveCopyOfNegativeBig | src/big_rtl.c:567-586 | the magnitude without a sign bit; it needs one digit more exactly for the lowest number of its size |
| BigRecord.AllocPositiveCopyOfNegativeBig | src/big_rtl.c:590-609 | the magnitude in as many digits; read as a signed number it is negative exactly for the lowest number of its size |
| BigRecord.UBigIncr | src/big_rtl.c:1566-1586 | adds one, with a wrap-around to zero only if all digits are masks |
| BigRecord.UBigIsNot0 | src/big_rtl.c:3098-3111 | true exactly if the digits stand for a number other than zero |
| AddSubtract.BigAdd | src/big_rtl.c:3219-3261 | the canonical sum for every pair of numbers, in either order of size |
| AddSubtract.BigSbtr | src/big_rtl.c:6975-7043 | the canonical difference for every pair of numbers |
| AddSubtract.BigAddAssign | src/big_rtl.c:3277-3371 | the sum in place, also if both operands are the same object; the old buffer stays or a larger one replaces it |
| AddSubtract.BigSbtrAssign | src/big_rtl.c:7059-7155 | the difference in place, also if both operands are the same object |
| AddSubtract.BigAddTo | src/big_rtl.c:2306-2326 | the sum modulo the size of the first operand, which is the sum if that fits |
| AddSubtract.ExtensionIsSign | src/big_rtl.c:3318-3344 | the extension digit is a sign digit; leaving it out keeps the sum if it repeats the sign, and otherwise the enlarged number is canonical |
| IncrementDecrement.BigIncr | src/big_rtl.c:4770-4834 | adds one in place; an error exactly if the number has to be enlarged and there is no memory, and then the old digits are back |
| IncrementDecrement.BigDecr | src/big_rtl.c:3727-3791 | subtracts one in place, with the same behaviour without memory |
| IncrementDecrement.BigSucc | src/big_rtl.c:7307-7369 | the canonical successor |
| IncrementDecrement.BigPred | src/big_rtl.c:6393-6455 | the canonical predecessor |
| IncrementDecrement.BigAddAssignSignedDigit | src/big_rtl.c:3385-3439 | adds the lowest 32 bits of delta with the sign of delta, for every intType delta |
| IncrementDecrement.DigitDeltaMeans | src/big_rtl.c:3385-3439 | what is added is congruent to delta modulo 2 ^ 32, below 2 ^ 32, and negative exactly if delta is |
| IncrementDecrement.DigitDeltaExact | src/big_rtl.c:3385-3439 | that is delta itself exactly for 33-bit numbers |
| RawDigits.UBigDigitAdd | src/big_rtl.c:2429-2449 | the sum of two digit strings at other positions, with a digit for the carry |
| RawDigits.UBigDigitSbtrFrom | src/big_rtl.c:2453-2473 | the difference in place modulo the radix power, and the borrow that is lost |
| RawDigits.UBigDigitAddTo | src/big_rtl.c:2477-2496 | the sum in place modulo the radix power, and the carry that is lost |
| Multiplication.UBigDigitMult | src/big_rtl.c:2500-2529 | the product of two digit strings; nothing else in the memory changes |
| Karatsuba.KaratsubaIdentity | src/big_rtl.c:2533-2558 | the product of two numbers from the products of their halves and of the sums of their halves |
| Karatsuba.UBigKaratsubaMult | src/big_rtl.c:2533-2558 | writes the product into 2 * size digits; only these and 4 * size digits of scratch memory change, although all recursive calls share them |
| Squaring.UBigDigitSquare | src/big_rtl.c:2562-2610 | the square, with the doubled products carried in 64 bits without overflow |
| Squaring.AddDouble | src/big_rtl.c:2580-2585 | a double product of up to 65 bits is accumulated exactly in two halves |
| Squaring.UBigKaratsubaSquare | src/big_rtl.c:2614-2636 | writes the square into 2 * size digits, with the same scratch memory |
| BigMultiplication.UBigMultK | src/big_rtl.c:2832-2926 | the product of two magnitudes with a sign, by all of its paths: schoolbook, Karatsuba with padding, and Karatsuba with the larger factor split |
| BigMultiplication.BigSquare | src/big_rtl.c:7180-7206 | the canonical square |
| BigMultiplication.BigMult | src/big_rtl.c:5975-6021 | the canonical product for every pair of numbers |
| BigMultiplication.BigMultAssign1 | src/big_rtl.c:2777-2824 | the canonical product with a one-digit number, also if its magnitude has the sign bit set |
| BigMultiplication.BigMultAssign | src/big_rtl.c:6028-6044 | the canonical product, which replaces the first factor |
| DivisionLaws.TruncatedLaw | src/big_rtl.c:3941-4040 | quotient and remainder of the truncated division satisfy its law: the remainder has the sign of the dividend |
| DivisionLaws.TruncatedUnique | src/big_rtl.c:3941-4040 | they are the only pair that does |
| DivisionLaws.FlooredLaw | src/big_rtl.c:5876-5967 | quotient and modulo of the floored division satisfy its law: the modulo has the sign of the divisor |
| DivisionLaws.FlooredUnique | src/big_rtl.c:5876-5967 | they are the only pair that does |
| LongDivision.TrialDigit | src/big_rtl.c:1840-1854 | after at most two corrections the trial digit is the largest that the first two divisor digits allow |
| LongDivision.TrialIsClose | src/big_rtl.c:1840-1854 | such a trial digit is the quotient digit or one more |
| LongDivision.UBigMultSub | src/big_rtl.c:1753-1782 | subtracts a multiple of the divisor and tells whether there is a borrow |
| LongDivision.UBigAddTo | src/big_rtl.c:1791-1810 | adds the divisor back, with the carry that cancels the borrow |
| LongDivision.UBigDiv | src/big_rtl.c:1829-1864 | dividend = quotient * divisor + remainder with a remainder below the divisor; the remainder replaces the dividend |
| LongDivision.UBigRem | src/big_rtl.c:2393-2425 | the same remainder without the quotient |
| ShortDivision.DivideDigits | src/big_rtl.c:756-791 | quotient and remainder by one digit; the quotient can replace the dividend |
| ShortDivision.UBigLShift | src/big_rtl.c:1516-1529 | the product with a power of two modulo the radix power, and the bits that are lost |
| ShortDivision.UBigRShift | src/big_rtl.c:1539-1557 | the quotient by a power of two |
| SignedDivision.BigDiv1 | src/big_rtl.c:1648-1695 | the canonical truncated quotient by one digit, or an error exactly for zero |
| SignedDivision.BigDivSizeLess | src/big_rtl.c:1711-1742 | a longer divisor gives zero, except for the lowest number of a size divided by its magnitude |
| SignedDivision.BigDiv | src/big_rtl.c:3839-3920 | the canonical truncated quotient for every pair of numbers, or an error exactly for a zero divisor |
| SignedDivision.BigRem | src/big_rtl.c:6652-6728 | the canonical truncated remainder for every pair of numbers, or an error exactly for a zero divisor |
| SignedDivision.BigDivRem | src/big_rtl.c:3941-4040 | both of them, canonical, in buffers of their own |
| FlooredDivision.BigMDiv | src/big_rtl.c:5767-5853 | the canonical floored quotient for every pair of numbers, or an error exactly for a zero divisor |
| FlooredDivision.BigMod | src/big_rtl.c:5876-5967 | the canonical floored modulo for every pair of numbers, or an error exactly for a zero divisor |
| BigShift.BigLShift | src/big_rtl.c:5434-5534 | the product with a power of two, and for a negative shift the floored quotient q: q * 2 ^ k <= x < (q + 1) * 2 ^ k, for every intType shift |
| BigShift.BigRShift | src/big_rtl.c:6740-6832 | the floored quotient q by a power of two, q * 2 ^ k <= x < (q + 1) * 2 ^ k, or the product for a negative shift |
| BigShift.BigLShiftAssign | src/big_rtl.c:5543-5655 | the same in place |
| BigShift.BigRShiftAssign | src/big_rtl.c:6841-6966 | the same in place, where the digits move within their buffer |
| BigShift.ShiftThereAndBack | src/big_rtl.c:6740-6832 | bigRShift after bigLShift gives the same digits back |
| ShiftLaws.ReductionTest | src/big_rtl.c:6791-6805 | the test of the highest digits tells exactly whether the result has one digit less |
| ShiftLaws.ShiftRoundTrip | src/big_rtl.c:6740-6832 | a right shift undoes a left shift |
| Exponentiation.BigLShiftOne | src/big_rtl.c:5668-5706 | the power of two, or zero for a negative exponent |
| Exponentiation.BigLog2BaseIPow | src/big_rtl.c:5716-5747 | the power of a power of two; the two errors exactly for negative arguments and for a shift above the largest intType |
| Exponentiation.BigIPowN | src/big_rtl.c:2979-3034 | the power of a digit by repeated squaring |
| Exponentiation.BigIPow1 | src/big_rtl.c:3045-3094 | the power of a one-digit number with its sign; too large exactly if the number is a power of two whose shift is above the largest intType |
| Exponentiation.BigIPow | src/big_rtl.c:4849-4938 | the canonical power of every number; an error exactly for a negative exponent, and too large exactly as for one digit |
| Exponentiation.DivisorCache.GetConversionDivisor | src/big_rtl.c:1054-1089 | base ^ (2 ^ exponent); the cache keeps what it had and holds every divisor up to this one afterwards |
| GcdLaws.GcdIsGreatest | src/big_rtl.c:4664-4727 | the specification is a common divisor that every common divisor divides |
| GcdLaws.GcdMeans | src/big_rtl.c:4664-4727 | it is positive unless both numbers are zero, leaves no remainder, and every number that leaves none divides it |
| GcdLaws.GcdOddParts | src/big_rtl.c:4664-4727 | the common power of two can be taken out of both numbers |
| BigGcd.BigLowestSetBit | src/big_rtl.c:5393-5422 | the exponent of the largest power of two that divides the number, of any sign; -1 for zero, and a range error exactly if the exponent is above the largest intType |
| BigGcd.BigAbs | src/big_rtl.c:3120-3164 | the canonical absolute value |
| BigGcd.BigGcd | src/big_rtl.c:4664-4727 | the greatest common divisor of the magnitudes by either algorithm, or a range error exactly if the sizes lead to the binary algorithm and one of the numbers it comes to is a multiple of 2 ^ (2 ^ 63); only numbers of at least 2 ^ 58 digits can cause it |
| BigLog10.BigLog10 | src/big_rtl.c:4987-5095 | -1 for zero, an error exactly for negative numbers, and otherwise the floor of the logarithm exactly if the digits of the large blocks can be counted in 32 bits; in any case the lowest 32 bits of it are right |
| BigLog10.LogIsRight | src/big_rtl.c:4987-5095 | so it is for every number of up to 4294967287 digits |
| BigLog10.LogIsWrong | src/big_rtl.c:4987-5095 | so it is for no number of at least 6872000000 digits |
| Numerals.PrintThenParse | src/big_rtl.c:6258-6332 | a literal can be parsed, and stands for its number, in every base |
| Numerals.SignedDigits | src/big_rtl.c:6258-6332 | digits alone, after a plus and after a minus sign are literals, with the value of the digits, the same and its negation |
| Numerals.OnlySignedDigits | src/big_rtl.c:6258-6332 | there are no other literals |
| Numerals.FirstDigitCounts | src/big_rtl.c:6258-6332 | the first of n digits counts base ^ (n - 1) |
| Numerals.DigitTable | src/int_rtl.c:215-218 | the digits that are printed are those of the two tables |
| Numerals.CharTable | src/int_rtl.c:215-218 | a character is read as digit d exactly if one of the tables has it at position d; all others are no digits in any base |
| Numerals.NoLeadingZero | src/big_rtl.c:7284-7297 | a numeral starts with zero only for zero, and never with a sign |
| RadixTables.RadixPower | src/big_rtl.c:185-199 | the two tables agree: each entry is the power of its base with as many digits, and the largest one that fits into a digit |
| BigPrint.BasicRadix2To36 | src/big_rtl.c:1180-1221 | writes the numeral of an unsigned number at the end of the free part of the buffer |
| BigPrint.SplitByDivisor | src/big_rtl.c:1143-1147 | one division of the recursion: truncated quotient and remainder, none of them in the cache |
| BigPrint.BinaryRadix2To36 | src/big_rtl.c:1225-1275 | writes exactly the specified text, right or wrong, for every number and exponent, with leading zeros where they are needed |
| PrintedText.TextOfNonnegative | src/big_rtl.c:1131-1176 | for a number that is not negative this text is its numeral, padded with zeros |
| PrintedText.WrittenIsLarge | src/big_rtl.c:1131-1176 | for a number that is not positive the text stands for its magnitude or for a larger number |
| PrintLimit.WrittenIffPrintable | src/big_rtl.c:1131-1176 | the text of a copied magnitude is its numeral, and stands for it, exactly if the number is not -2 ^ (32 * size - 1) or is above -base ^ 256 |
| RadixText.UnpaddedShape | src/big_rtl.c:1131-1176 | the length of a text, right or wrong: at most p characters for each padded part, each of which takes t bits from the magnitude, and those of the first part |
| RadixText.RoomInBase | src/big_rtl.c:1455-1480 | what the recursion writes for -2 ^ (32 n - 1) stays within the estimate, for every size, in all bases other than 17, 33, 34 and 35 |
| RadixRoom.InBuffer17 | src/big_rtl.c:1455-1480 | in base 17 it does so exactly for sizes other than 33 to 49 |
| RadixRoom.InBuffer34 | src/big_rtl.c:1455-1480 | in base 34 exactly for sizes other than 41 to 52, 54 and 55 |
| RadixParts.LengthOfText | src/big_rtl.c:1225-1275 | the exact length of a text from the parts of the magnitude in radix base ^ 256, if parts up to a power of two have 256 characters and others e more |
| RadixRoom.PartsOfTightBase | src/big_rtl.c:1225-1275 | in base 33 a part has 261 characters exactly if it is above 2 ^ 1279, in base 35 it has 263 exactly if it is above 2 ^ 1311, and otherwise 256 |
| RadixRoom.InBufferByParts | src/big_rtl.c:1455-1480 | in the bases 33 and 35 the text stays within the buffer exactly if these lengths do |
| RadixRoom.NotInBuffer | src/big_rtl.c:1455-1480 | in base 33 not for -2 ^ 1311, and in base 35 not for -2 ^ 1343 |
| RadixConversion.FitsExactly | src/big_rtl.c:1426-1506 | the text and its sign fit into the buffer exactly if the number is printable or the condition for its base holds |
| BigPrint.MagnitudeBound | src/big_rtl.c:7234-7236 | the estimate of the number of radix digits is large enough |
| RadixConversion.BigStrDecimal | src/big_rtl.c:7217-7280 | writes a decimal literal, of decimal digits after an optional minus sign, within its buffer, which is that of the number exactly if the number is printable, and of a smaller number otherwise |
| RadixConversion.BigRadix2To36 | src/big_rtl.c:1426-1506 | the same for the other bases that are no powers of two, for every number whose text fits into the buffer; all letters are of the wanted case |
| RadixConversion.FirstNotPrinted | src/big_rtl.c:7217-7280 | the decimal literals that go wrong are those of -2 ^ (32 * size - 1) from 27 digits on |
| PowerOfTwoPrint.BigRadixPow2 | src/big_rtl.c:1292-1411 | the literal of every number in the bases 2, 4, 8, 16 and 32, in a buffer of exactly its length, with letters of the wanted case |
| RadixConversion.BigRadix | src/big_rtl.c:6528-6559 | an error exactly for bases outside 2..36; the literal of the number exactly if it is printable or the base is a power of two; no small letters if upperCase, and no capital letters otherwise |
| BigParse.UBigMultiplyAndAdd | src/big_rtl.c:645-662 | the number times a factor plus a digit, in place |
| BigParse.BigParse | src/big_rtl.c:6258-6332 | succeeds exactly for decimal literals, with their canonical value |
| BigParse.BigParseBased2To36 | src/big_rtl.c:948-1042 | succeeds exactly for literals of the base, with their canonical value |
| PowerOfTwoRadix.DigitsNecessary | src/big_rtl.c:856-872 | the digits that are allocated hold every literal of the length, with its sign |
| PowerOfTwoRadix.BigParseBasedPow2 | src/big_rtl.c:812-927 | succeeds exactly for literals of the base, with their canonical value |
| RadixConversion.BigParseBased | src/big_rtl.c:6353-6383 | succeeds exactly for literals of a base in 2..36, with their canonical value |
| RadixConversion.PrintAndParse | src/big_rtl.c:6353-6383 | parsing what bigRadix has printed gives the same digits exactly if the number is printable or the base is a power of two |
| ByteStrings.BigToBStriBe | src/big_rtl.c:7445-7523 | an error exactly for a negative number without sign bytes; otherwise the shortest bytes that stand for the number, highest first |
| ByteStrings.BigToBStriLe | src/big_rtl.c:7540-7618 | the same, lowest byte first |
| ByteStrings.ShortestIsUnique | src/big_rtl.c:7445-7523 | no byte string with the same value is shorter, and none is another one of the same kind |
| ByteStrings.LittleEndian | src/big_rtl.c:7540-7618 | the value of bytes, lowest first: byte i counts 256 ^ i, and the last one has the sign |
| ByteStrings.BigEndian | src/big_rtl.c:7445-7523 | the value of bytes, highest first: the first one counts most and has the sign |
| ByteStrings.ByteAtMeans | src/big_rtl.c:7506-7517 | the bytes of a digit are what the shifts and masks take out of it |
| ByteStrings.OrdersAgree | src/big_rtl.c:7540-7618 | the two encodings are the reverse of each other |
| ByteStrings.BigFromByteBufferBe | src/big_rtl.c:4093-4169 | an error exactly for no bytes; otherwise the canonical value of the bytes, highest first |
| ByteStrings.BigFromByteBufferLe | src/big_rtl.c:4186-4262 | the same, lowest byte first |
| ByteStrings.EncodeAndDecode | src/big_rtl.c:4186-4262 | decoding an encoding gives the same digits, in both orders |
| Bitwise.BigAnd | src/big_rtl.c:3457-3490 | the canonical number that has a bit exactly where both have one, with infinitely many sign bits |
| Bitwise.BigOr | src/big_rtl.c:6210-6243 | the canonical number that has a bit where one of them has one |
| Bitwise.BigXor | src/big_rtl.c:7826-7859 | the canonical number that has a bit where the bits are different |
| Bitwise.BitMeans | src/big_rtl.c:3457-3490 | bit i is the lowest bit of the number shifted right by i |
| Bitwise.BitsDetermine | src/big_rtl.c:3457-3490 | a number is determined by its bits |
| Bitwise.AndOrXor | src/big_rtl.c:7826-7859 | and plus or is the sum, and xor is their difference |
| ArraySort.QsortArray | src/arr_rtl.c:110-161 | an ascending permutation of the part, for every total preorder; nothing else changes and no scan leaves the part |
| ArraySort.SortedMeans | src/arr_rtl.c:110-161 | that means: no element compares as greater than one behind it, the part has the same elements, and those around it are the same |
| ArraySort.Partition | src/arr_rtl.c:133-155 | the pivot is in its final place after the swap too many has been taken back |
| ArraySortReverse.QsortArrayReverse | src/arr_rtl.c:174-225 | a descending permutation of the part |
| ArraySortReverse.ReverseSortedMeans | src/arr_rtl.c:174-225 | the same with no element less than one behind it |
| ArrayOwnership.SlicesAreRanges | src/arr_rtl.c:1868-1937 | head, tail and subarray are ranges, with the same elements and exceptions |
| ArrayOwnership.RangeMeans | src/arr_rtl.c:1868-1937 | the elements at the positions of the range, as far as there are any; the empty array for an empty range, and the exact exceptions |
| ArrayOwnership.HeadAndTail | src/arr_rtl.c:1171-1229 | the head and the tail behind it make up the array |
| ArrayOwnership.ArrHead | src/arr_rtl.c:1171-1229 | a copy of the head, or the exception that is specified |
| ArrayOwnership.ArrTail | src/arr_rtl.c:2859-2914 | a copy of the tail, or the exception that is specified |
| ArrayOwnership.ArrRange | src/arr_rtl.c:1868-1937 | a copy of the range, or the exception that is specified |
| ArrayOwnership.ArrSubarr | src/arr_rtl.c:2380-2442 | a copy of the subarray, or the exception that is specified |
| ArrayOwnership.ArrHeadTemp | src/arr_rtl.c:1241-1323 | the head in its old array and the rest, which starts behind it, in another; without memory and after exceptions everything is as it was |
| ArrayOwnership.ArrTailTemp | src/arr_rtl.c:2926-3008 | the tail in another array and the rest in the old one; without memory and after exceptions everything is as it was |
| ArrayOwnership.ArrRangeTemp | src/arr_rtl.c:1950-2060 | the range in another array and the elements around it in the old one; every element is in exactly one of them; without memory the range is behind the others |
| ArrayOwnership.ArrSubarrTemp | src/arr_rtl.c:2455-2559 | the same for a start and a length |
| ArrayOwnership.TookPart | src/arr_rtl.c:1950-2060 | for n elements from position i: they are the result and the others are left; without memory to shrink they are behind the others |
| ArrayOwnership.TookNoRange | src/arr_rtl.c:1950-2060 | for an empty range and after an exception nothing is taken |
| ArrayOwnership.PutBackAtEnd | src/arr_rtl.c:2004-2014 | then the array is a permutation, and the old one exactly if the range and what follows it can be exchanged |
| ArrayOwnership.PutBackDistinct | src/arr_rtl.c:2004-2014 | if no element occurs twice, it is the old one exactly for a range at the end |
| ArrayOwnership.PutBackExchanged | src/arr_rtl.c:2004-2014 | the first of two different elements: the array [x, y] has become [y, x] |
| ArrayOwnership.ArrRemove | src/arr_rtl.c:2111-2173 | the element and the array without it; without memory and after exceptions the array is as it was |
| ArrayOwnership.ArrRemoveArray | src/arr_rtl.c:2183-2276 | as many elements as wanted, or all that there are from the position on, and the array without them; without memory and after exceptions the array is as it was |
| ArrayInsertion.ArrInsertArray | src/arrlib.c:1366-1478 | the elements between those before and behind the position, also if an array is inserted into itself; without memory and after exceptions the array is as it was |
| ArrayInsertion.ArrAppend | src/arrlib.c:207-290 | the elements behind the others, also if an array is appended to itself; without memory the array is as it was |
| ActionIndex.ActEntryMap.GenActPtrTable | src/actutl.c:253-293 | an index of the action table: ascending, without double actions, with the first entry of each action |
| ActionIndex.ActEntryMap.GetActEntry | src/actutl.c:317-360 | the first entry of the action, or entry 0 if no entry has it |
| ActionIndex.SearchAction | src/actutl.c:120-185 | an entry with the name exactly if there is one |
| ActionIndex.StrcmpFirstDifference | src/actutl.c:120-185 | names are compared by their first different character, and a name comes before its extensions |

## Findings

The code is modelled as it is. Where it does not do what it promises, the model
states exactly when it does.

- Printing a number -2 ^ (32 * size - 1) (src/big_rtl.c:1147 and 1243). The copy of
  its magnitude has the sign bit set, and the recursion divides it with bigDivRem as
  a signed number. `PrintLimit.WrittenIffPrintable` and
  `RadixConversion.BigStrDecimal`: the literal is right for all other numbers, and
  for these exactly if they are above -base ^ 256. Otherwise the text is the literal
  of a smaller number. The first decimal number is -2 ^ 863
  (`RadixConversion.FirstNotPrinted`). That the wrong parts of the text cannot make up
  for each other is a fact about numbers: for an odd prime p that divides the base,
  p ^ 255 would have to divide an exponent below 2 ^ 69.
  The power of two bases are right for every number
  (`PowerOfTwoPrint.BigRadixPow2`).
- Room for such a number (src/big_rtl.c:1225-1275 and 1455-1480). The parts of the
  wrong text can be longer than their share of the estimate, and then its first
  characters, or the sign, are written before the beginning of the buffer.
  `RadixConversion.FitsExactly`: this happens only in the bases 17, 33, 34 and 35. In base 17 it happens exactly for the
  sizes 33 to 49 (`RadixRoom.InBuffer17`); the first is -2 ^ 1055, with at least 265
  characters and a sign for 265 cells. In base 34 it happens exactly for the sizes 41 to
  52, 54 and 55 (`RadixRoom.InBuffer34`). In the bases 33 and 35 it depends on how many
  parts of the magnitude in radix base ^ 256 are above 2 ^ 1279 or 2 ^ 1311
  (`RadixRoom.InBufferByParts`); it happens for -2 ^ 1311 and -2 ^ 1343
  (`RadixRoom.NotInBuffer`). bigStrDecimal has enough room.
- Decimal logarithms (src/big_rtl.c:5080-5081). The number of digits in large blocks
  goes through the signed digit of bigAddAssignSignedDigit, which adds its lowest 32
  bits. `BigLog10.BigLog10` states the exact limit, and that the lowest 32 bits of the
  result are right even then; `BigLog10.LogIsRight` and `BigLog10.LogIsWrong` state the
  limit in terms of the size.
- Failing to shrink memory (src/arr_rtl.c:2004-2014 in arrRangeTemp and 2510-2519 in
  arrSubarrTemp). The comment of the former says that the old value is restored, but
  the slice is put behind the elements that followed it.
  `ArrayOwnership.PutBackAtEnd`: nothing is lost, and the array is the old one exactly
  if the two parts can be exchanged. If no element occurs twice, that is so exactly
  for a slice at the end (`ArrayOwnership.PutBackDistinct`); taking the first of two
  elements leaves them exchanged (`ArrayOwnership.PutBackExchanged`). arrRemove,
  arrRemoveArray, arrHeadTemp and arrTailTemp do restore the array.

## Left out

- RadixConversion.BigRadix2To36: wants the text to fit into the buffer (`RadixConversion.InBuffer`), because what the C code does after writing before it is not defined; that is a condition on the base, the size and, in the bases 33 and 35, the parts of the number.
- RadixConversion.BigRadix: wants the same for the bases that are no powers of two.
- RadixConversion.PrintAndParse: wants the same for the bases that are no powers of two.
- AddSubtract.BigAddTo: wants the sum to fit into the first operand, as the callers see to; the wrapped sum otherwise is not stated.
- ArrayOwnership.ArrRemove: wants that an array with the lowest possible minimum index does not become empty, because positions are integers without wrap-around here.
- ArrayOwnership.ArrRemoveArray: wants the same of both parts.
- ArrayOwnership.ArrHead: positions are unbounded integers, so the overflow of min_position - 1 in the test for the exception (src/arr_rtl.c:1199), for an array with the lowest possible minimum index, is not modelled.
- ArrayOwnership.ArrHeadTemp: the same overflow is not modelled.
- ArrayOwnership.ArrRange: the overflow of start - 1 in the test for the exception (src/arr_rtl.c:1905), for the lowest possible index, is not modelled.
- ArrayOwnership.ArrRangeTemp: the same overflow is not modelled.
- ArrayInsertion.ArrInsertArray: the overflow of max_position + 1 in the test of the position (src/arrlib.c:1397), for an array that ends at the highest possible index, is not modelled.
- BigParse.UBigMultiplyAndAdd: wants room for the result in the buffer, which the C code does not check either; the parsers have it.
- ActionIndex.ActEntryMap.GenActPtrTable: the call of qsort is a parameter, which is any ascending permutation of the entries.
- Allocation failures of big integer operations, except where the code has to restore something (bigIncr and bigDecr); freeing, reallocation to a smaller size and reference counts of buffers.
- Digits of 8 and 16 bits (BIGDIGIT_SIZE), and the alternative runtime based on GMP.
- The tests for numbers and strings that are too long for the memory, which lead to MEMORY_ERROR.
- Loops that several functions share in the same form are one method here, and do-while loops are while loops that start with the first round.
- bigRand, bigHashCode, bigHexCStri, bigLowerBits, bigLog2, bigBitLength, the conversions from and to machine integers and bigFromDecimalBuffer: no other operation needs them, or they only add easier members.
- Reference counts and copies of the elements of arrays; arrCat, arrExtend, arrInsert, arrPush and the fixed length slices, which repeat the ones here.
- Creating, matching and calling the actions themselves.
