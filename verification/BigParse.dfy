/** Conversion of strings to big integers (src/big_rtl.c): blocks of as many
    characters as a digit can hold are multiplied into the result. */
module BigParse {
  import opened Digits
  import opened Carries
  import opened Bits
  import opened ShortDivision
  import opened BigRecord
  import opened Exponentiation
  import opened Numerals
  import opened RadixTables

  // ------------------------------------------------------ multiply and add

  /** The loop of uBigMultiplyAndAdd. */
  method MultiplyDigits(d: array<Digit>, n: nat, factor: Digit, carry0: Digit) returns (carry: Double)
    requires n <= d.Length
    modifies d
    ensures carry <= 0xFFFF_FFFF && Stands(d[..n], carry, UVal(old(d[..n])) * factor + carry0)
  {
    ghost var s := d[..n];
    carry := carry0;
    var pos := 0;
    ShlOne(0);
    while pos < n
      invariant 0 <= pos <= n && carry <= 0xFFFF_FFFF
      invariant forall j :: pos <= j < n ==> d[j] == s[j]
      invariant Stands(d[0..pos], carry, UVal(s[..pos]) * factor + carry0)
    {
      MultiplyAccumulator(carry, s[pos], factor);
      TimesPrefix(s, factor, pos);
      carry := Put(d, 0, pos, carry + d[pos] * factor, carry, s[pos] * factor, UVal(s[..pos]) * factor + carry0);
      pos := pos + 1;
    }
    assert d[0..n] == d[..n] && s[..n] == s;
  }

  /** uBigMultiplyAndAdd, and uBigMultByPowerOf10AndAdd with the factor 10 ^ 9:
      big1 becomes big1 * factor + carry. The buffer must have room for it. */
  method UBigMultiplyAndAdd(big1: Big, factor: Digit, carry0: Digit)
    requires big1.Valid() && big1.Unsigned() * factor + carry0 < Radix(big1.bigdigits.Length)
    modifies big1`size, big1.bigdigits
    ensures big1.Valid() && big1.Unsigned() == old(big1.Unsigned()) * factor + carry0
  {
    var carry := MultiplyDigits(big1.bigdigits, big1.size, factor, carry0);
    ghost var low := big1.Digits();
    if carry != 0 {
      CarryNeedsRoom(low, carry, big1.bigdigits.Length);
      UValSnoc(low, carry);
      big1.bigdigits[big1.size] := carry;
      big1.size := big1.size + 1;
      assert big1.Digits() == low + [carry];
    } else {
      ShlOne(|low|);
    }
  }

  lemma MultiplyAccumulator(carry: Double, digit: Digit, factor: Digit)
    requires carry <= 0xFFFF_FFFF
    ensures var acc := carry + digit * factor;
      0 <= acc <= 0xFFFF_FFFF_FFFF_FFFF && acc / 0x1_0000_0000 <= 0xFFFF_FFFF
  {
    MulLe(digit, 0xFFFF_FFFF, factor, 0xFFFF_FFFF);
  }

  lemma CarryNeedsRoom(d: seq<Digit>, carry: int, length: nat)
    requires |d| <= length && carry >= 1 && UVal(d) + Shl(carry, |d|) < Radix(length)
    ensures |d| < length
  {
    ShlMono(1, carry, |d|);
    ShlOne(|d|);
  }

  // ------------------------------------------------------------------ blocks

  lemma NextCharacter(s: string, lo: nat, i: nat, b: int)
    requires lo <= i < |s|
    ensures DigitsValue(s[lo..i + 1], b) == b * DigitsValue(s[lo..i], b) + CharValue(s[i])
    ensures IsDigits(s[lo..i + 1], b) <==> IsDigits(s[lo..i], b) && CharValue(s[i]) < b
  {
    assert s[lo..i + 1] == s[lo..i] + [s[i]];
    DigitsSnoc(s[lo..i], s[i], b);
    LastDigitIs(s[lo..i], s[i], b);
  }

  /** The value of a block fits into a digit. */
  lemma BlockFits(s: string, b: int)
    requires Base(b) && IsDigits(s, b) && |s| <= RadixDigits(b)
    ensures 0 <= DigitsValue(s, b) <= 0xFFFF_FFFF
  {
    DigitsBound(s, b);
    RadixPower(b);
    PowGrows(b, |s|, RadixDigits(b));
  }

  /** The first character from lo on that is not a digit, if there is one. */
  ghost predicate BlockRead(s: string, lo: nat, position: nat, limit: nat, b: int, okay: bool, bigDigit: int) {
    && lo <= position <= limit <= |s|
    && (okay ==> IsDigits(s[lo..position], b) && bigDigit == DigitsValue(s[lo..position], b))
    && (!okay ==> !IsDigits(s[lo..limit], b) && 0 <= bigDigit < Pow(b, limit - lo))
  }

  lemma IllegalCharacter(s: string, lo: nat, i: nat, limit: nat, b: int)
    requires Base(b) && lo <= i < limit <= |s| && IsDigits(s[lo..i], b) && !(CharValue(s[i]) < b)
    ensures !IsDigits(s[lo..limit], b) && 0 <= DigitsValue(s[lo..i], b) < Pow(b, limit - lo)
  {
    assert s[lo..limit][i - lo] == s[i];
    DigitsBound(s[lo..i], b);
    PowGrows(b, i - lo, limit - lo);
  }

  /** The inner loop of bigParseBased2To36. */
  method RadixBlock(stri: string, lo: nat, limit: nat, base: int) returns (position: nat, bigDigit: Digit, okay: bool)
    requires Base(base) && lo <= limit <= |stri| && limit - lo <= RadixDigits(base)
    ensures BlockRead(stri, lo, position, limit, base, okay, bigDigit) && (okay ==> position == limit)
  {
    bigDigit, position, okay := 0, lo, true;
    assert stri[lo..lo] == [];
    while position < limit && okay
      invariant BlockRead(stri, lo, position, limit, base, okay, bigDigit)
      decreases limit - position
    {
      NextCharacter(stri, lo, position, base);
      var digitval := CharValue(stri[position]);
      if digitval < base {
        BlockFits(stri[lo..position + 1], base);
        bigDigit := base * bigDigit + digitval;
      } else {
        IllegalCharacter(stri, lo, position, limit, base);
        okay := false;
      }
      position := position + 1;
    }
  }

  lemma DecimalCharacter(c: char)
    ensures CharValue(c) < 10 <==> '0' <= c <= '9'
    ensures '0' <= c <= '9' ==> CharValue(c) == c as int - '0' as int
  {
  }

  /** The inner loop of bigParse. */
  method DecimalBlock(stri: string, lo: nat, limit: nat) returns (position: nat, bigDigit: Digit, okay: bool)
    requires lo <= limit <= |stri| && limit - lo <= 9
    ensures BlockRead(stri, lo, position, limit, 10, okay, bigDigit) && (okay ==> position == limit)
  {
    bigDigit, position, okay := 0, lo, true;
    assert stri[lo..lo] == [];
    while position < limit && okay
      invariant BlockRead(stri, lo, position, limit, 10, okay, bigDigit)
      decreases limit - position
    {
      NextCharacter(stri, lo, position, 10);
      DecimalCharacter(stri[position]);
      if '0' <= stri[position] <= '9' {
        BlockFits(stri[lo..position + 1], 10);
        bigDigit := 10 * bigDigit + (stri[position] as int - '0' as int);
      } else {
        IllegalCharacter(stri, lo, position, limit, 10);
        okay := false;
      }
      position := position + 1;
    }
  }

  // -------------------------------------------------------------- the blocks

  /** The state of the outer loop: what has been read, and whether it was legal. */
  ghost predicate DigitsRead(stri: string, start: nat, position: nat, b: int, okay: bool, value: int) {
    && start <= position <= |stri|
    && (okay ==> IsDigits(stri[start..position], b) && value == DigitsValue(stri[start..position], b))
    && (!okay ==> !IsDigits(stri[start..], b))
  }

  /** What is read with one more block. */
  lemma {:induction false} ReadingNext(stri: string, start: nat, lo: nat, position: nat, limit: nat, b: int, okay: bool,
                                       value: int, bigDigit: int)
    requires Base(b) && DigitsRead(stri, start, lo, b, true, value)
    requires BlockRead(stri, lo, position, limit, b, okay, bigDigit) && (okay ==> position == limit)
    requires lo == start || limit - lo == RadixDigits(b)
    ensures DigitsRead(stri, start, position, b, okay, value * PowerOfRadix(b) + bigDigit)
  {
    var high, low := stri[start..lo], stri[lo..limit];
    assert stri[start..limit] == high + low;
    DigitsConcat(high, low, b);
    if okay {
      RadixPower(b);
    } else {
      assert stri[start..] == (high + low) + stri[limit..];
      DigitsConcat(high + low, stri[limit..], b);
    }
  }

  /** The room that one more block needs. */
  lemma {:induction false} BlockRoom(stri: string, start: nat, lo: nat, position: nat, limit: nat, b: int, okay: bool,
                                     value: int, bigDigit: int)
    requires Base(b) && DigitsRead(stri, start, lo, b, true, value)
    requires BlockRead(stri, lo, position, limit, b, okay, bigDigit) && (okay ==> position == limit)
    requires lo == start || limit - lo == RadixDigits(b)
    ensures 0 <= value * PowerOfRadix(b) + bigDigit < Pow(b, |stri| - start)
  {
    RadixPower(b);
    DigitsBound(stri[start..lo], b);
    if okay {
      DigitsBound(stri[lo..limit], b);
    }
    BlockBound(value, Pow(b, lo - start), bigDigit, Pow(b, limit - lo), PowerOfRadix(b), lo == start);
    PowAdd(b, lo - start, limit - lo);
    PowGrows(b, limit - start, |stri| - start);
  }

  lemma BlockBound(x: int, p: int, y: int, w: int, f: int, first: bool)
    requires 0 <= x < p && 0 <= y < w && (if first then p == 1 else f == w)
    ensures 0 <= x * f + y < p * w
    ensures x * f == x * w
  {
    if !first {
      NextBound(x, p, w, y);
    }
  }

  /** The number of blocks that are left. */
  lemma FirstBlock(n: nat, d: nat) returns (k: nat)
    requires n > 0 && d > 0
    ensures 0 < (n - 1) % d + 1 <= d && (n - 1) % d + 1 <= n
    ensures n - ((n - 1) % d + 1) == k * d
  {
    DivMod(n - 1, d);
    k := (n - 1) / d;
    MulLe(0, k, 0, d);
  }

  lemma BlockLeft(k: nat, d: nat, left: nat)
    requires d > 0 && left == k * d
    ensures left > 0 ==> k > 0 && left - d == (k - 1) * d >= 0
  {
    if k > 0 {
      MulDistr(k, 1, d);
      MulLe(0, k - 1, d, d);
    }
  }

  /** Reads a block and adds it to the result. */
  method ReadBlock(stri: string, ghost start: nat, lo: nat, limit: nat, base: int, decimal: bool, result: Big)
    returns (position: nat, okay: bool)
    requires Base(base) && (decimal ==> base == 10) && result.Valid()
    requires DigitsRead(stri, start, lo, base, true, result.Unsigned())
    requires lo <= limit <= |stri| && limit - lo <= RadixDigits(base)
    requires lo == start || limit - lo == RadixDigits(base)
    requires Pow(base, |stri| - start) <= Radix(result.bigdigits.Length)
    modifies result`size, result.bigdigits
    ensures result.Valid() && (okay ==> position == limit)
    ensures DigitsRead(stri, start, position, base, okay, result.Unsigned())
  {
    var bigDigit;
    RadixPower(base);
    if decimal {
      position, bigDigit, okay := DecimalBlock(stri, lo, limit);
    } else {
      position, bigDigit, okay := RadixBlock(stri, lo, limit, base);
    }
    ReadingNext(stri, start, lo, position, limit, base, okay, result.Unsigned(), bigDigit);
    BlockRoom(stri, start, lo, position, limit, base, okay, result.Unsigned(), bigDigit);
    UBigMultiplyAndAdd(result, PowerOfRadix(base), bigDigit);
  }

  /** The outer loop of the parsers. */
  method ReadDigits(stri: string, start: nat, base: int, decimal: bool, result: Big) returns (okay: bool)
    requires Base(base) && (decimal ==> base == 10) && start < |stri|
    requires result.Valid() && result.size == 1 && result.bigdigits[0] == 0
    requires Pow(base, |stri| - start) <= Radix(result.bigdigits.Length)
    modifies result`size, result.bigdigits
    ensures result.Valid() && (okay <==> IsDigits(stri[start..], base))
    ensures okay ==> result.Unsigned() == DigitsValue(stri[start..], base)
  {
    RadixPower(base);
    SingleDigit(result.Digits());
    assert stri[start..start] == [];
    var digits := RadixDigits(base);
    ghost var k: nat := FirstBlock(|stri| - start, digits);
    var limit := (|stri| - start - 1) % digits + start + 1;
    var position;
    position, okay := ReadBlock(stri, start, start, limit, base, decimal, result);
    limit := limit + digits;
    while position < |stri| && okay
      invariant result.Valid() && result.bigdigits == old(result.bigdigits)
      invariant DigitsRead(stri, start, position, base, okay, result.Unsigned())
      invariant okay ==> |stri| - position == k * digits && limit == position + digits
      decreases if okay then |stri| - position + 1 else 0
    {
      BlockLeft(k, digits, |stri| - position);
      position, okay := ReadBlock(stri, start, position, limit, base, decimal, result);
      limit := limit + digits;
      k := k - 1;
    }
    if okay {
      assert stri[start..position] == stri[start..];
    }
  }

  // ------------------------------------------------------------- the parsers

  /** The exception RANGE_ERROR is a result here. */
  datatype ParseResult = Parsed(value: Big) | RangeError

  /** Zeroes the unused digits, gives the number its sign and normalizes it. */
  method Finish(result: Big, negative: bool)
    requires result.Valid() && result.Unsigned() < SignWeight(result.bigdigits.Length)
    modifies result, result.bigdigits
    ensures result.bigdigits == old(result.bigdigits) && result.Canonical()
    ensures result.Value() == if negative then -old(result.Unsigned()) else old(result.Unsigned())
  {
    ghost var s := result.Digits();
    var d := result.bigdigits;
    forall i | result.size <= i < d.Length {
      d[i] := 0;
    }
    ghost var t := d[..];
    UValSplit(t, |s|);
    assert t[..|s|] == s;
    UValZeros(t[|s|..]);
    ShlOne(|s|);
    result.size := d.Length;
    assert d[..d.Length] == t;
    SignAndNormalize(result, negative);
  }

  /** The common part of bigParse and bigParseBased2To36: the sign, the digits
      and the error if there are none or an illegal one. */
  method ParseNumber(stri: string, base: int, decimal: bool, result_size: nat) returns (result: ParseResult)
    requires Base(base) && (decimal ==> base == 10)
    requires stri != [] ==> result_size > 0 && Pow(base, |stri|) <= SignWeight(result_size)
    ensures result.Parsed? <==> IsLiteral(stri, base)
    ensures result.Parsed? ==> fresh(result.value) && fresh(result.value.bigdigits) && result.value.Canonical()
    ensures result.Parsed? ==> result.value.Value() == LiteralValue(stri, base)
  {
    var negative, position := false, 0;
    if |stri| != 0 {
      if stri[0] == '-' {
        negative := true;
        position := position + 1;
      } else {
        if stri[0] == '+' {
          position := position + 1;
        }
      }
    }
    assert position == SignLength(stri);
    if position >= |stri| {
      return RangeError;
    }
    PowGrows(base, |stri| - position, |stri|);
    var big1 := new Big.Alloc(result_size);
    big1.size := 1;
    big1.bigdigits[0] := 0;
    var okay := ReadDigits(stri, position, base, decimal, big1);
    if okay {
      DigitsBound(stri[position..], base);
      Finish(big1, negative);
      result := Parsed(big1);
    } else {
      result := RangeError;
    }
  }

  lemma DecimalRoom(n: nat)
    requires n > 0
    ensures Pow(10, n) <= SignWeight((n - 1) / 9 + 1)
  {
    var w := (n - 1) / 9 + 1;
    PowGrows(10, n, 9 * w);
    PowPower(10, 9, w);
    assert Pow(10, 9) == 1000000000;
    Pow2Add(15, 15);
    assert Pow2(15) == 32768;
    PowBaseMono(Pow(10, 9), Pow2(30), w);
    PowOfTwo(30, w);
    Pow2Mono(30 * w, 32 * w - 1);
    SignWeightIsPower(w);
  }

  method BigParse(stri: string) returns (result: ParseResult)
    ensures result.Parsed? <==> IsLiteral(stri, 10)
    ensures result.Parsed? ==> fresh(result.value) && fresh(result.value.bigdigits) && result.value.Canonical()
    ensures result.Parsed? ==> result.value.Value() == LiteralValue(stri, 10)
  {
    if |stri| != 0 {
      DecimalRoom(|stri|);
      result := ParseNumber(stri, 10, true, (|stri| - 1) / 9 + 1);
    } else {
      result := ParseNumber(stri, 10, true, 0);
    }
  }

  lemma RadixRoom(n: nat, base: int)
    requires Base(base)
    ensures var bits := HighestBit(base - 1) + 1;
      bits > 0 && Pow(base, n) <= SignWeight(n * bits / 32 + 1)
  {
    var bits := HighestBit(base - 1) + 1;
    HighestBitRange(base - 1);
    MulLe(0, n, 0, bits);
    var w := n * bits / 32 + 1;
    PowBaseMono(base, Pow2(bits), n);
    PowOfTwo(bits, n);
    Pow2Mono(bits * n, 32 * w - 1);
    SignWeightIsPower(w);
  }

  method BigParseBased2To36(stri: string, base: int) returns (result: ParseResult)
    requires Base(base)
    ensures result.Parsed? <==> IsLiteral(stri, base)
    ensures result.Parsed? ==> fresh(result.value) && fresh(result.value.bigdigits) && result.value.Canonical()
    ensures result.Parsed? ==> result.value.Value() == LiteralValue(stri, base)
  {
    RadixRoom(|stri|, base);
    var based_digit_size := HighestBit(base - 1) + 1;
    var result_size := |stri| * based_digit_size;
    result := ParseNumber(stri, base, false, result_size / 32 + 1);
  }
}
