/** The truncated base 10 logarithm (src/big_rtl.c). */
module BigLog10 {
  import opened Digits
  import opened Bits
  import opened ShortDivision
  import opened DivisionLaws
  import opened BigRecord
  import opened SignedDivision
  import opened FlooredDivision
  import opened BigMultiplication
  import opened IncrementDecrement
  import opened ShiftLaws
  import opened Exponentiation

  const POWER_OF_10_IN_BIGDIGIT: Digit := 1_000_000_000
  const POWER_OF_5_IN_BIGDIGIT: Digit := 1_220_703_125

  /** l is the logarithm of x, rounded down. */
  ghost predicate IsLog10(x: int, l: nat) {
    Pow(10, l) <= x < Pow(10, l + 1)
  }

  /** No other number is the logarithm. */
  lemma Log10Unique(x: int, l: nat, l': nat)
    requires IsLog10(x, l) && IsLog10(x, l')
    ensures l == l'
  {
    if l < l' {
      PowGrows(10, l + 1, l');
    } else if l' < l {
      PowGrows(10, l' + 1, l);
    }
  }

  /** Dropping decimal digits, as long as one is left, takes away their number. */
  lemma LogOfQuotient(x: int, t: nat, l: nat)
    requires Pow(10, t) > 0 && IsLog10(x / Pow(10, t), l)
    ensures IsLog10(x, t + l)
  {
    PowAdd(10, t, l);
    PowAdd(10, t, l + 1);
    QuotientRange(x, Pow(10, t), Pow(10, l), Pow(10, l + 1));
  }

  lemma QuotientRange(x: int, p: int, a: int, b: int)
    requires p > 0 && a <= x / p < b
    ensures p * a <= x < p * b
  {
    FloorBound(x, p, a);
    FloorBound(x, p, b);
  }

  // --------------------------------------------- division that keeps digits

  /** The digits of a positive magnitude, without superfluous leading digits. */
  ghost predicate Packed(s: seq<Digit>) {
    Leading(s) && UVal(s) > 0
  }

  /** The top digit is needed, so that the size follows from the value. */
  ghost predicate Minimal(s: seq<Digit>) {
    |s| > 0 && UVal(s) >= Radix(|s| - 1)
  }

  lemma MinimalIsPacked(s: seq<Digit>)
    requires Minimal(s)
    ensures Packed(s)
    ensures |s| > 2 <==> UVal(s) >= Radix(2)
  {
    UValBound(s);
    if |s| > 2 {
      RadixMono(2, |s| - 1);
    } else {
      RadixMono(|s|, 2);
    }
  }

  /** Dividing by less than half a digit can clear at most one leading digit. */
  lemma OneDigitLess(s: seq<Digit>, x: int, d: int)
    requires |s| >= 2 && x >= SignWeight(|s| - 1) && 0 < d <= 0x8000_0000 && UVal(s) == x / d
    ensures s[|s| - 1] == 0 ==> UVal(s[..|s| - 1]) == UVal(s) && Minimal(s[..|s| - 1])
    ensures s[|s| - 1] != 0 ==> Minimal(s)
  {
    var n := |s|;
    MulLe(d, 0x8000_0000, Radix(n - 2), Radix(n - 2));
    FloorBound(x, d, Radix(n - 2));
    UValPrefix(s, n - 1);
    assert s[..n] == s;
    ShlOne(n - 1);
    ShlMono(1, s[n - 1], n - 1);
  }

  /** Removes a leading digit that has become zero. */
  method TrimTop(big1: Big, ghost x: int, ghost d: int)
    requires 0 < d <= 0x8000_0000
    requires big1.Valid() && big1.size >= 2 && big1.Unsigned() == x / d && x >= SignWeight(big1.size - 1)
    modifies big1`size
    ensures big1.Valid() && Minimal(big1.Digits()) && big1.Unsigned() == x / d
    ensures old(big1.size) - 1 <= big1.size <= old(big1.size)
  {
    ghost var s := big1.Digits();
    OneDigitLess(s, x, d);
    if big1.bigdigits[big1.size - 1] == 0 {
      big1.size := big1.size - 1;
      assert big1.Digits() == s[..|s| - 1];
    }
  }

  /** Divides the magnitude by one digit and removes at most one leading digit. */
  method DivideByDigitAndTrim(big1: Big, d: Digit) returns (remainder: Digit)
    requires big1.Valid() && big1.size >= 2 && Packed(big1.Digits()) && 0 < d <= 0x7FFF_FFFF
    modifies big1`size, big1.bigdigits
    ensures big1.Valid() && Minimal(big1.Digits())
    ensures big1.Unsigned() == old(big1.Unsigned()) / d && remainder == old(big1.Unsigned()) % d
    ensures old(big1.size) - 1 <= big1.size <= old(big1.size)
  {
    ghost var x := big1.Unsigned();
    remainder := DivideDigits(big1.bigdigits, big1.bigdigits, big1.size, d);
    RemainderUnique(x, d, UVal(big1.bigdigits[..big1.size]), remainder);
    TrimTop(big1, x, d);
  }

  /** Division by 10^13: a shift by 13 bits and a division by 5^13. */
  method DivideByLargeBlock(big1: Big)
    requires big1.Valid() && big1.size > 2 && Packed(big1.Digits())
    modifies big1`size, big1.bigdigits
    ensures big1.Valid() && Minimal(big1.Digits())
    ensures big1.Unsigned() == old(big1.Unsigned()) / Pow(10, 13)
  {
    ghost var x := big1.Unsigned();
    assert Pow2(13) == 8192;
    UBigRShift(big1, 13);
    TrimTop(big1, x, Pow2(13));
    MinimalIsPacked(big1.Digits());
    var remainder := DivideByDigitAndTrim(big1, POWER_OF_5_IN_BIGDIGIT);
    DivDiv(x, 8192, 1_220_703_125);
    TenTo13();
  }

  lemma TenTo13()
    ensures Pow(10, 13) == 8192 * 1_220_703_125 && Pow(10, 9) == 1_000_000_000
  {
    assert Pow(10, 4) == 10_000;
    assert Pow(10, 1) == 10;
    PowAdd(10, 4, 4);
    PowAdd(10, 8, 4);
    PowAdd(10, 12, 1);
    PowAdd(10, 8, 1);
  }

  lemma DropMore(x: int, t: nat, u: int, k: nat)
    requires Pow(10, t) > 0 && u == x / Pow(10, t)
    ensures Pow(10, k) > 0 && Pow(10, t + k) > 0 && u / Pow(10, k) == x / Pow(10, t + k)
  {
    PowPositive(10, k);
    PowPositive(10, t + k);
    PowAdd(10, t, k);
    DivDiv(x, Pow(10, t), Pow(10, k));
  }

  /** t decimal digits of x have been dropped. */
  ghost predicate Dropped(x: int, t: nat, u: int) {
    Pow(10, t) > 0 && u == x / Pow(10, t)
  }

  /** How often the loop over large blocks runs for a number without a leading
      zero digit. */
  ghost function MoreLargeBlocks(u: nat): (l: nat) {
    TenTo13();
    if u < 0x1_0000_0000_0000_0000 then 0 else 1 + MoreLargeBlocks(u / Pow(10, 13))
  }

  /** ... and for a number in canonical form, which can have one. */
  ghost function LargeBlocks(u: nat): (l: nat) {
    TenTo13();
    if u < 0x8000_0000_0000_0000 then 0 else 1 + MoreLargeBlocks(u / Pow(10, 13))
  }

  lemma RadixOfTwoDigits()
    ensures Radix(2) == 0x1_0000_0000_0000_0000 && SignWeight(2) == 0x8000_0000_0000_0000
  {
    assert Radix(1) == 0x1_0000_0000;
  }

  /** The loop over large blocks. */
  method DropLargeBlocks(big1: Big, ghost x: int, ghost t0: nat) returns (largeDecimalBlockCount: nat)
    requires big1.Valid() && Packed(big1.Digits()) && Dropped(x, t0, big1.Unsigned())
    requires big1.size > 2 <==> big1.Unsigned() >= SignWeight(2)
    modifies big1`size, big1.bigdigits
    ensures big1.Valid() && Packed(big1.Digits()) && big1.size <= 2
    ensures Dropped(x, t0 + 13 * largeDecimalBlockCount, big1.Unsigned())
    ensures largeDecimalBlockCount == LargeBlocks(old(big1.Unsigned()))
  {
    largeDecimalBlockCount := 0;
    ghost var left: nat := LargeBlocks(big1.Unsigned());
    RadixOfTwoDigits();
    while big1.size > 2
      invariant big1.Valid() && Packed(big1.Digits()) && big1.bigdigits == old(big1.bigdigits)
      invariant Dropped(x, t0 + 13 * largeDecimalBlockCount, big1.Unsigned())
      invariant largeDecimalBlockCount + left == LargeBlocks(old(big1.Unsigned()))
      invariant if largeDecimalBlockCount == 0 then left == LargeBlocks(big1.Unsigned())
                else left == MoreLargeBlocks(big1.Unsigned())
      invariant big1.size > 2 <==> left > 0
      decreases left
    {
      ghost var u, t := big1.Unsigned(), t0 + 13 * largeDecimalBlockCount;
      DropMore(x, t, u, 13);
      DivideByLargeBlock(big1);
      MinimalIsPacked(big1.Digits());
      left := left - 1;
      largeDecimalBlockCount := largeDecimalBlockCount + 1;
    }
  }

  /** The loop over blocks that fit into a digit. One digit is left. */
  method DropBlocks(big1: Big, ghost x: int, ghost t0: nat) returns (decimalBlockCount: nat)
    requires big1.Valid() && Packed(big1.Digits()) && Dropped(x, t0, big1.Unsigned())
    modifies big1`size, big1.bigdigits
    ensures big1.Valid() && big1.size == 1 && 0 < big1.bigdigits[0] < POWER_OF_10_IN_BIGDIGIT
    ensures Dropped(x, t0 + 9 * decimalBlockCount, big1.bigdigits[0])
  {
    decimalBlockCount := 0;
    OneDigitNumber(big1);
    while big1.size > 1 || big1.bigdigits[0] >= POWER_OF_10_IN_BIGDIGIT
      invariant big1.Valid() && Packed(big1.Digits()) && big1.bigdigits == old(big1.bigdigits)
      invariant big1.size == 1 ==> big1.Unsigned() == big1.bigdigits[0]
      invariant Dropped(x, t0 + 9 * decimalBlockCount, big1.Unsigned())
      decreases big1.Unsigned()
    {
      ghost var u := big1.Unsigned();
      DropMore(x, t0 + 9 * decimalBlockCount, u, 9);
      TenTo13();
      DivideByBlock(big1);
      OneDigitNumber(big1);
      decimalBlockCount := decimalBlockCount + 1;
    }
  }

  lemma OneDigitNumber(big1: Big)
    requires big1.Valid()
    ensures big1.size == 1 ==> big1.Unsigned() == big1.bigdigits[0]
  {
    if big1.size == 1 {
      SingleDigit(big1.Digits());
    }
  }

  /** A single digit that is large enough does not become zero. */
  method DivideByBlock(big1: Big)
    requires big1.Valid() && Packed(big1.Digits()) && (big1.size > 1 || big1.bigdigits[0] >= POWER_OF_10_IN_BIGDIGIT)
    modifies big1`size, big1.bigdigits
    ensures big1.Valid() && Packed(big1.Digits())
    ensures big1.Unsigned() == old(big1.Unsigned()) / 1_000_000_000
  {
    if big1.size == 1 {
      SingleDigit(big1.Digits());
      big1.bigdigits[0] := big1.bigdigits[0] / 1_000_000_000;
      SingleDigit(big1.Digits());
    } else {
      var remainder := DivideByDigitAndTrim(big1, POWER_OF_10_IN_BIGDIGIT);
      MinimalIsPacked(big1.Digits());
    }
  }

  // ---------------------------------------------------------- the logarithm

  /** A positive number of at least three digits is larger than 10^9 for each of
      its digits but the first one. */
  lemma {:induction false} EnoughDigits(n: nat)
    requires n >= 2
    ensures SignWeight(n) >= Pow(10, 9 * n)
    decreases n
  {
    TenTo13();
    if n == 2 {
      PowAdd(10, 9, 9);
      assert Radix(1) == 0x1_0000_0000;
    } else {
      EnoughDigits(n - 1);
      PowAdd(10, 9, 9 * (n - 1));
      PowPositive(10, 9 * (n - 1));
      MulLe(Pow(10, 9 * (n - 1)), SignWeight(n - 1), 1_000_000_000, 0x1_0000_0000);
    }
  }

  lemma {:induction false} PowerAboveRadix(n: nat)
    ensures Radix(n) <= Pow(10, 10 * n)
  {
    if n > 0 {
      PowerAboveRadix(n - 1);
      TenTo13();
      PowAdd(10, 9, 1);
      PowAdd(10, 10, 10 * (n - 1));
      assert Pow(10, 1) == 10;
      MulLe(Radix(n - 1), Pow(10, 10 * (n - 1)), 0x1_0000_0000, 10_000_000_000);
    }
  }

  /** No more decimal digits are dropped than ten for each digit. */
  lemma DroppedBound(x: int, n: nat, t: nat)
    requires Pow(10, t) <= x < Radix(n)
    ensures t < 10 * n
  {
    PowerAboveRadix(n);
    if t >= 10 * n {
      PowGrows(10, 10 * n, t);
    }
  }

  lemma NotPowerOfTwo(k: nat)
    ensures Pow2(k) != 1_000_000_000
  {
    assert Pow2(10) == 1024;
    Pow2Add(10, 10);
    Pow2Add(20, 9);
    assert Pow2(9) == 512;
    if k <= 29 {
      Pow2Mono(k, 29);
    } else {
      Pow2Mono(30, k);
    }
  }

  method PowerOf10(decimalBlockCount: IntType) returns (powerOf10: Big)
    requires decimalBlockCount >= 1
    ensures fresh(powerOf10) && fresh(powerOf10.bigdigits) && powerOf10.Canonical()
    ensures powerOf10.Value() == Pow(10, 9 * decimalBlockCount) > 0
  {
    var result := BigIPow1(POWER_OF_10_IN_BIGDIGIT, decimalBlockCount);
    if result.TooLarge? {
      ghost var k :| 1 <= k <= 31 && Abs(Signed(POWER_OF_10_IN_BIGDIGIT)) == Pow2(k);
      NotPowerOfTwo(k);
      assert false;
    }
    powerOf10 := result.value;
    TenTo13();
    PowPower(10, 9, decimalBlockCount);
    PowPositive(10, 9 * decimalBlockCount);
  }

  lemma PackedValue(s: seq<Digit>)
    requires Normal(s) && SVal(s) > 0
    ensures Packed(s) && UVal(s) == SVal(s)
    ensures |s| > 2 <==> UVal(s) >= SignWeight(2)
  {
    NormalIsLeading(s);
    SValRange(s);
    if |s| > 2 {
      RadixMono(1, |s| - 2);
    } else {
      RadixMono(|s| - 1, 1);
    }
  }

  /** The number of blocks that the first division drops. */
  function FirstBlocks(size: nat): (k: nat)
    ensures k <= INTTYPE_MAX
  {
    if size > 2 then (if size - 1 <= INTTYPE_MAX then size - 1 else INTTYPE_MAX) else 0
  }

  /** The first division: it drops 9 decimal digits for each digit but the first one. */
  method DropFirstBlocks(big1: Big) returns (unsigned_big: Big, decimalBlockCount: nat)
    requires big1.Canonical() && big1.Value() > 0
    ensures fresh(unsigned_big) && fresh(unsigned_big.bigdigits) && unsigned_big.Valid()
        && Packed(unsigned_big.Digits())
    ensures unsigned_big.size > 2 <==> unsigned_big.Unsigned() >= SignWeight(2)
    ensures decimalBlockCount == FirstBlocks(big1.size)
    ensures Dropped(big1.Value(), 9 * decimalBlockCount, unsigned_big.Unsigned())
  {
    ghost var x := big1.Value();
    PackedValue(big1.Digits());
    unsigned_big := CopyOf(big1);
    decimalBlockCount := 0;
    if unsigned_big.size > 2 {
      decimalBlockCount := if unsigned_big.size - 1 <= INTTYPE_MAX then unsigned_big.size - 1 else INTTYPE_MAX;
      var powerOf10 := PowerOf10(decimalBlockCount);
      ghost var p := powerOf10.Value();
      FirstQuotient(x, big1.size, decimalBlockCount);
      FlooredUnique(x, p, x / p, x % p);
      var result := BigMDiv(unsigned_big, powerOf10);
      unsigned_big := result.value;
      PackedValue(unsigned_big.Digits());
    }
  }

  lemma FirstQuotient(x: int, n: nat, k: nat)
    requires n > 2 && x >= SignWeight(n - 1) && k <= n - 1
    ensures var p := Pow(10, 9 * k); p > 0 && x / p >= 1 && x == x / p * p + x % p && 0 <= x % p < p
  {
    EnoughDigits(n - 1);
    PowGrows(10, 9 * k, 9 * (n - 1));
    DivMod(x, Pow(10, 9 * k));
    FloorBound(x, Pow(10, 9 * k), 1);
  }

  /** bigFromUInt64 */
  method BigFromUInt64(number: Double) returns (result: Big)
    ensures fresh(result) && fresh(result.bigdigits) && result.Canonical() && result.Value() == number
  {
    var low: Digit, high: Digit := number % 0x1_0000_0000, number / 0x1_0000_0000;
    if number > 0x7FFF_FFFF_FFFF_FFFF {
      result := new Big.Alloc(3);
      result.bigdigits[2] := 0;
      result.bigdigits[0] := low;
      result.bigdigits[1] := high;
      assert result.Digits() == [low, high] + [0];
      ZeroExtended([low, high]);
    } else if number > 0x7FFF_FFFF {
      result := new Big.Alloc(2);
      result.bigdigits[0] := low;
      result.bigdigits[1] := high;
      assert result.Digits() == [low, high];
    } else {
      result := OneDigit(number);
      SValRange(result.Digits());
    }
    if number > 0x7FFF_FFFF {
      TwoDigitValue(low, high);
    }
  }

  lemma TwoDigitValue(low: Digit, high: Digit)
    ensures UVal([low, high]) == low + 0x1_0000_0000 * high as int
  {
    assert [low, high][1..] == [high];
    SingleDigit([high]);
  }

  /** The decimal digits of a digit, counted by division. */
  lemma OneDigitLog(digit: int, l: nat)
    requires digit >= 1
    ensures digit < 10 ==> IsLog10(digit, 0)
    ensures digit >= 10 && IsLog10(digit / 10, l) ==> IsLog10(digit, l + 1)
  {
    assert Pow(10, 1) == 10 * Pow(10, 0);
    if digit >= 10 && IsLog10(digit / 10, l) {
      LogOfQuotient(digit, 1, l);
    }
  }

  /** The last loop: one increment for each further decimal digit. */
  method CountDigits(logarithm: Big, digit0: Digit) returns (ghost l: nat)
    requires logarithm.Canonical() && digit0 >= 1
    modifies logarithm, logarithm.bigdigits
    ensures logarithm.bigdigits == old(logarithm.bigdigits) || fresh(logarithm.bigdigits)
    ensures logarithm.Canonical() && logarithm.Value() == old(logarithm.Value()) + l && IsLog10(digit0, l)
  {
    var digit := digit0 / 10;
    ghost var all: int, count: nat := digit0, 0;
    l := DigitLog(digit0);
    while digit != 0
      invariant logarithm.Canonical()
      invariant logarithm.bigdigits == old(logarithm.bigdigits) || fresh(logarithm.bigdigits)
      invariant logarithm.Value() == old(logarithm.Value()) + count
      invariant all >= 1 && digit == all / 10 && l == count + DigitLog(all)
    {
      var memoryError := BigIncr(logarithm, true);
      all, count := digit, count + 1;
      digit := digit / 10;
    }
    DigitLogMeans(digit0);
  }

  ghost function DigitLog(digit: int): nat
    requires digit >= 1
  {
    if digit < 10 then 0 else 1 + DigitLog(digit / 10)
  }

  lemma {:induction false} DigitLogMeans(digit: int)
    requires digit >= 1
    ensures IsLog10(digit, DigitLog(digit))
  {
    if digit < 10 {
      OneDigitLog(digit, 0);
    } else {
      DigitLogMeans(digit / 10);
      OneDigitLog(digit, DigitLog(digit / 10));
    }
  }

  /** The decimal digits that the large blocks stand for. Their number is given to
      bigAddAssignSignedDigit, which takes the lowest 32 bits of it. */
  ghost function LargeBlockDigits(x: int, size: nat): (k: nat)
    requires x >= 0
  {
    PowPositive(10, 9 * FirstBlocks(size));
    DivMod(x, Pow(10, 9 * FirstBlocks(size)));
    13 * LargeBlocks(x / Pow(10, 9 * FirstBlocks(size)))
  }

  /** (intType) of an unsigned 64-bit number. */
  function ToIntType(number: nat): IntType {
    var low := number % 0x1_0000_0000_0000_0000;
    if low <= INTTYPE_MAX then low else low - 0x1_0000_0000_0000_0000
  }

  /** What bigAddAssignSignedDigit adds is the number itself exactly if it has 32 bits. */
  lemma BlockDelta(k: nat)
    ensures DigitDelta(ToIntType(k)) == k <==> k <= 0xFFFF_FFFF
  {
  }

  lemma SameLowBits(x: int, d: int, k: int, m: int)
    requires (x - d) % 0x1_0000_0000 == 0 && d == k - 0x1_0000_0000 * m
    ensures (x - k) % 0x1_0000_0000 == 0
  {
    var n := (x - d) / 0x1_0000_0000;
    assert x - k == 0x1_0000_0000 * (n - m);
  }

  /** Otherwise it has the same lowest 32 bits. */
  lemma BlockDeltaMeans(k: nat)
    ensures (DigitDelta(ToIntType(k)) - k) % 0x1_0000_0000 == 0
    ensures -0x1_0000_0000 <= DigitDelta(ToIntType(k)) < 0x1_0000_0000
  {
    var d := ToIntType(k);
    var m := k / 0x1_0000_0000_0000_0000 + if d < 0 then 1 else 0;
    assert d == k - 0x1_0000_0000 * (0x1_0000_0000 * m);
    DigitDeltaMeans(d);
    SameLowBits(DigitDelta(d), d, k, 0x1_0000_0000 * m);
  }

  /** 9 * decimalBlockCount + 13 * largeDecimalBlockCount */
  method BlockDigits(decimalBlockCount: nat, largeDecimalBlockCount: nat) returns (logarithm: Big)
    requires decimalBlockCount <= 0xFFFF_FFFF_FFFF_FFFF
    ensures fresh(logarithm) && fresh(logarithm.bigdigits) && logarithm.Canonical()
    ensures logarithm.Value() == 9 * decimalBlockCount + DigitDelta(ToIntType(13 * largeDecimalBlockCount))
  {
    var blocks := BigFromUInt64(decimalBlockCount);
    logarithm := BigMultAssign1(blocks, 9);
    BigAddAssignSignedDigit(logarithm, ToIntType(13 * largeDecimalBlockCount));
  }

  /** After the large blocks there are at most two blocks. */
  lemma FewBlocks(u: int, k: nat)
    requires 0 < u < Radix(2) && Pow(10, 9 * k) > 0 && u / Pow(10, 9 * k) > 0
    ensures k <= 2
  {
    FloorBound(u, Pow(10, 9 * k), 1);
    DroppedBound(u, 2, 9 * k);
  }

  /** l is the logarithm, and v what comes out if k digits are counted as those of large blocks. */
  lemma LogIsExact(x: int, l: nat, k: nat, v: int)
    requires IsLog10(x, l) && v - l == DigitDelta(ToIntType(k)) - k
    ensures v >= 0 && IsLog10(x, v) <==> k <= 0xFFFF_FFFF
    ensures (v - l) % 0x1_0000_0000 == 0
  {
    BlockDelta(k);
    BlockDeltaMeans(k);
    if v >= 0 && IsLog10(x, v) {
      Log10Unique(x, l, v);
    }
  }

  /** The logarithm, when at most two digits are left. */
  method RestOfLog(unsigned_big: Big, blocks1: nat, largeDecimalBlockCount: nat, ghost x: int)
    returns (logarithm: Big, ghost right: nat)
    requires unsigned_big.Valid() && Packed(unsigned_big.Digits()) && unsigned_big.size <= 2
    requires Dropped(x, 9 * blocks1 + 13 * largeDecimalBlockCount, unsigned_big.Unsigned())
    requires blocks1 <= 0xFFFF_FFFF_FFFF_FFFD
    modifies unsigned_big`size, unsigned_big.bigdigits
    ensures fresh(logarithm) && fresh(logarithm.bigdigits) && logarithm.Canonical()
    ensures IsLog10(x, right)
    ensures var k := 13 * largeDecimalBlockCount; logarithm.Value() - right == DigitDelta(ToIntType(k)) - k
  {
    ghost var u, t0 := unsigned_big.Unsigned(), 9 * blocks1 + 13 * largeDecimalBlockCount;
    UValBound(unsigned_big.Digits());
    RadixMono(unsigned_big.size, 2);
    var blocks2 := DropBlocks(unsigned_big, u, 0);
    var digit := unsigned_big.bigdigits[0];
    FewBlocks(u, blocks2);
    DropMore(x, t0, u, 9 * blocks2);
    logarithm := BlockDigits(blocks1 + blocks2, largeDecimalBlockCount);
    ghost var l := CountDigits(logarithm, digit);
    LogOfQuotient(x, t0 + 9 * blocks2, l);
    right := t0 + 9 * blocks2 + l;
  }

  method PositiveLog10(big1: Big) returns (logarithm: Big, ghost right: nat)
    requires big1.Canonical() && big1.Value() > 0
    ensures fresh(logarithm) && fresh(logarithm.bigdigits) && logarithm.Canonical()
    ensures logarithm.Value() >= 0 && IsLog10(old(big1.Value()), logarithm.Value())
       <==> LargeBlockDigits(old(big1.Value()), big1.size) <= 0xFFFF_FFFF
    ensures IsLog10(old(big1.Value()), right) && (logarithm.Value() - right) % 0x1_0000_0000 == 0
  {
    ghost var x, k := big1.Value(), LargeBlockDigits(big1.Value(), big1.size);
    var unsigned_big, blocks1 := DropFirstBlocks(big1);
    var largeDecimalBlockCount := DropLargeBlocks(unsigned_big, x, 9 * blocks1);
    assert 13 * largeDecimalBlockCount == k;
    logarithm, right := RestOfLog(unsigned_big, blocks1, largeDecimalBlockCount, x);
    LogIsExact(x, right, k, logarithm.Value());
  }

  /** The logarithm is right exactly if the digits of the large blocks can be
      counted with 32 bits. Otherwise only its lowest 32 bits are. */
  method BigLog10(big1: Big) returns (result: Result<Big>, ghost right: nat)
    requires big1.Canonical()
    ensures result.NumericError? <==> old(big1.Value()) < 0
    ensures result.Ok? ==> fresh(result.value) && fresh(result.value.bigdigits) && result.value.Canonical()
    ensures old(big1.Value()) == 0 ==> result.value.Value() == -1
    ensures old(big1.Value()) > 0 ==>
      (result.value.Value() >= 0
       && Pow(10, result.value.Value()) <= old(big1.Value()) < Pow(10, result.value.Value() + 1)
       <==> LargeBlockDigits(old(big1.Value()), big1.size) <= 0xFFFF_FFFF)
    ensures old(big1.Value()) > 0 ==>
      (Pow(10, right) <= old(big1.Value()) < Pow(10, right + 1)
       && (result.value.Value() - right) % 0x1_0000_0000 == 0)
  {
    right := 0;
    SValRange(big1.Digits());
    ZeroIsOneDigit(big1);
    var logarithm;
    if big1.Negative() {
      result := NumericError;
    } else if big1.IsZero() {
      logarithm := OneDigit(0xFFFF_FFFF);
      result := Ok(logarithm);
    } else {
      logarithm, right := PositiveLog10(big1);
      result := Ok(logarithm);
    }
  }

  // ------------------------------------------------------- how large is large

  /** Each large block takes 13 digits of the number away, and something is left. */
  lemma {:induction false} MoreLargeBlocksMean(u: nat)
    requires u > 0
    ensures var k := 13 * MoreLargeBlocks(u);
      Pow(10, k) > 0 && 0 < u / Pow(10, k) < 0x1_0000_0000_0000_0000
  {
    TenTo13();
    if u >= 0x1_0000_0000_0000_0000 {
      var v := u / Pow(10, 13);
      MoreLargeBlocksMean(v);
      DropMore(u, 13, v, 13 * MoreLargeBlocks(v));
    }
  }

  lemma LargeBlocksMean(u: nat)
    requires u > 0
    ensures var k := 13 * LargeBlocks(u);
      Pow(10, k) > 0 && 0 < u / Pow(10, k) < 0x1_0000_0000_0000_0000
  {
    TenTo13();
    if u >= 0x8000_0000_0000_0000 {
      var v := u / Pow(10, 13);
      MoreLargeBlocksMean(v);
      DropMore(u, 13, v, 13 * MoreLargeBlocks(v));
    }
  }

  /** The first quotient. */
  lemma FirstQuotientOf(s: seq<Digit>) returns (q: int)
    requires Normal(s) && SVal(s) > 0
    ensures Pow(10, 9 * FirstBlocks(|s|)) > 0 && q == SVal(s) / Pow(10, 9 * FirstBlocks(|s|)) > 0
  {
    var k := FirstBlocks(|s|);
    PowPositive(10, 9 * k);
    q := SVal(s) / Pow(10, 9 * k);
    if |s| > 2 {
      NormalRange(s);
      FirstQuotient(SVal(s), |s|, k);
    }
  }

  /** All numbers of less than 2 ^ 32 - 8 digits have their logarithm computed. */
  lemma LogIsRight(s: seq<Digit>)
    requires Normal(s) && SVal(s) > 0 && |s| <= 0xFFFF_FFF7
    ensures LargeBlockDigits(SVal(s), |s|) <= 0xFFFF_FFFF
  {
    var x, k := SVal(s), FirstBlocks(|s|);
    var q := FirstQuotientOf(s);
    LargeBlocksMean(q);
    var t := 13 * LargeBlocks(q);
    DropMore(x, 9 * k, q, t);
    FloorBound(x, Pow(10, 9 * k + t), 1);
    SValRange(s);
    DroppedBound(x, |s|, 9 * k + t);
  }

  lemma RadixTo8()
    ensures Radix(8) >= Pow(10, 77)
  {
    var h := Radix(4);
    RadixOfTwoDigits();
    assert Radix(4) == 0x1_0000_0000 * (0x1_0000_0000 * Radix(2));
    RadixAdd(4, 4);
    TenTo13();
    PowAdd(10, 13, 13);
    PowAdd(10, 26, 13);
    PowAdd(10, 39, 38);
    PowAdd(10, 26, 12);
    assert Pow(10, 12) == 1_000_000_000_000;
  }

  /** ... and none of those with 6_872_000_000 digits and more. */
  lemma LogIsWrong(s: seq<Digit>)
    requires Normal(s) && SVal(s) > 0 && 6_872_000_000 <= |s| <= INTTYPE_MAX
    ensures LargeBlockDigits(SVal(s), |s|) > 0xFFFF_FFFF
  {
    var x, n := SVal(s), |s| - 1;
    var q := FirstQuotientOf(s);
    NormalRange(s);
    QuotientIsLarge(x, n, q, (n - 2) / 8);
    LargeBlocksMean(q);
    var t := 13 * LargeBlocks(q);
    FloorBound(q, Pow(10, t), 0x1_0000_0000_0000_0000);
    PowerAboveRadix(2);
    RadixOfTwoDigits();
    BlocksNeeded(q, 5 * ((n - 2) / 8), t);
  }

  lemma BlocksNeeded(q: int, k: nat, t: nat)
    requires Pow(10, k) <= q < Pow(10, t) * 0x1_0000_0000_0000_0000 && 0x1_0000_0000_0000_0000 <= Pow(10, 20)
    ensures k < t + 20
  {
    PowPositive(10, t);
    MulLe(0x1_0000_0000_0000_0000, Pow(10, 20), Pow(10, t), Pow(10, t));
    PowAdd(10, t, 20);
    if k >= t + 20 {
      PowGrows(10, t + 20, k);
    }
  }

  lemma {:induction false} RadixOf8(k: nat)
    ensures Radix(8 * k) >= Pow(10, 77 * k)
  {
    if k > 0 {
      var n, m := 8 * (k - 1), 77 * (k - 1);
      RadixOf8(k - 1);
      RadixTo8();
      assert Radix(8 + n) == Radix(8) * Radix(n) by { RadixAdd(8, n); }
      assert Pow(10, 77 + m) == Pow(10, 77) * Pow(10, m) by { PowAdd(10, 77, m); }
      PowPositive(10, 77);
      PowPositive(10, m);
      MulLe(Pow(10, 77), Radix(8), Pow(10, m), Radix(n));
    }
  }

  /** Eight digits are worth five decimal digits more than the 72 that are dropped. */
  lemma QuotientIsLarge(x: int, n: nat, q: int, k: nat)
    requires n - 8 * k >= 2 && x >= SignWeight(n) && Pow(10, 9 * n) > 0 && q == x / Pow(10, 9 * n)
    ensures q >= Pow(10, 5 * k)
  {
    var r := n - 8 * k;
    EnoughDigits(r);
    RadixOf8(k);
    RadixAdd(8 * k, r - 1);
    MulSwap(Radix(8 * k), 0x8000_0000, Radix(r - 1));
    PowPositive(10, 77 * k);
    PowPositive(10, 9 * r);
    MulLe(Pow(10, 77 * k), Radix(8 * k), Pow(10, 9 * r), SignWeight(r));
    PowAdd(10, 77 * k, 9 * r);
    PowAdd(10, 9 * n, 5 * k);
    FloorBound(x, Pow(10, 9 * n), Pow(10, 5 * k));
  }
}
