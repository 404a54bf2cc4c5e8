/** Printing in a base that is a power of two (src/big_rtl.c, bigRadixPow2): the
    bits of the digits are regrouped, from the lowest character on. */
module PowerOfTwoPrint {
  import opened Digits
  import opened Bits
  import opened ShortDivision
  import opened DivisionLaws
  import opened BigRecord
  import opened ShiftLaws
  import opened Exponentiation
  import opened Numerals
  import opened PowerOfTwoRadix

  // ------------------------------------------------------- bits of the number

  lemma ModuloMultiple(x: int, b: int, y: int)
    requires b > 0
    ensures (x + b * y) % b == x % b
  {
    DivMod(x, b);
    MulDistr(x / b, y, b);
    RemainderUnique(x + b * y, b, x / b + y, x % b);
  }

  /** A digit and what is above it, shifted right by less than a digit. */
  lemma DigitAndAbove(d: int, v: int, p: int, q: int)
    requires p > 0 && p * q == 0x1_0000_0000
    ensures (d + 0x1_0000_0000 * v) / p == d / p + q * v
  {
    DivMod(d, p);
    MulAssoc(p, q, v);
    MulDistr(d / p, q * v, p);
    RemainderUnique(d + 0x1_0000_0000 * v, p, d / p + q * v, d % p);
  }

  lemma DigitsFrom(s: seq<Digit>, i: nat)
    requires i <= |s|
    ensures UVal(s) / Radix(i) == UVal(s[i..])
  {
    UValSplit(s, i);
    UValBound(s[..i]);
    ShlRadix(UVal(s[i..]), i);
    SplitDivision(UVal(s), UVal(s[i..]), Radix(i), UVal(s[..i]));
  }

  lemma SplitDivision(x: int, high: int, r: int, low: int)
    requires 0 <= low < r && x == low + high * r
    ensures x / r == high
  {
    RemainderUnique(x, r, high, low);
  }

  /** The bits of a number from bit 32 i + t on. */
  lemma BitsFrom(s: seq<Digit>, i: nat, t: nat)
    requires i < |s| && t <= 32
    ensures UVal(s) / Pow2(32 * i + t) == s[i] / Pow2(t) + Pow2(32 - t) * UVal(s[i + 1..])
  {
    assert UVal(s) / Pow2(32 * i + t) == UVal(s[i..]) / Pow2(t) by {
      DigitsFrom(s, i);
      Pow2Radix(i);
      Pow2Add(32 * i, t);
      DivDiv(UVal(s), Radix(i), Pow2(t));
    }
    assert s[i..][1..] == s[i + 1..];
    SplitPow2Of32(t);
    DigitAndAbove(s[i], UVal(s[i + 1..]), Pow2(t), Pow2(32 - t));
  }

  /** The value of the character whose lowest bit is bit b. */
  ghost function CharacterBits(u: nat, b: nat, base: int): (v: int)
    requires base > 0
    ensures 0 <= v < base
  {
    DivMod(u / Pow2(b), base);
    u / Pow2(b) % base
  }

  /** A character whose bits are in one digit. */
  lemma CharacterInDigit(s: seq<Digit>, i: nat, t: nat, base: int, shift: nat)
    requires RadixShift(base, shift) && i < |s| && t + shift <= 32
    ensures Shr(s[i], t) % base == CharacterBits(UVal(s), 32 * i + t, base)
  {
    BitsFrom(s, i, t);
    ShrMeans(s[i], t);
    Pow2Add(shift, 32 - t - shift);
    MulAssoc(base, Pow2(32 - t - shift), UVal(s[i + 1..]));
    ModuloMultiple(s[i] / Pow2(t), base, Pow2(32 - t - shift) * UVal(s[i + 1..]));
  }

  function NextOrZero(s: seq<Digit>, i: nat): Digit {
    if i + 1 < |s| then s[i + 1] else 0
  }

  lemma AboveNext(s: seq<Digit>, i: nat) returns (v: int)
    requires i < |s|
    ensures UVal(s[i + 1..]) == NextOrZero(s, i) + 0x1_0000_0000 * v
  {
    if i + 1 < |s| {
      v := UVal(s[i + 1..][1..]);
    } else {
      v := 0;
    }
  }

  lemma JoinedCharacters(j: int, d: int, high: int, p: int, q: int, v: int)
    requires p > 0 && p * q == 0x1_0000_0000 && j * p + d % p == (high % p) * 0x1_0000_0000 + d
    ensures d / p + q * (high + 0x1_0000_0000 * v) == j + 0x1_0000_0000 * (high / p + q * v)
  {
    DivMod(d, p);
    DivMod(high, p);
    var r, h := high % p, high / p;
    MulAssoc(r, q, p);
    MulDistr(d / p, r * q, p);
    MulDistr(d / p + r * q, j, p);
    SmallMultiple(d / p + r * q - j, p);
    MulDistr(h * p, r, q);
    MulAssoc(h, p, q);
    MulDistr(high, 0x1_0000_0000 * v, q);
    MulSwap(q, 0x1_0000_0000, v);
  }

  /** A character whose bits straddle two digits. */
  lemma CharacterAcross(s: seq<Digit>, i: nat, t: nat, base: int, shift: nat)
    requires RadixShift(base, shift) && i < |s| && 0 < t < 32
    ensures JoinedDigit(s[i], NextOrZero(s, i), t) % base == CharacterBits(UVal(s), 32 * i + t, base)
  {
    var high := NextOrZero(s, i);
    var j := JoinedDigit(s[i], high, t);
    var v := AboveNext(s, i);
    BitsFrom(s, i, t);
    JoinedDigitMeans(s[i], high, t);
    SplitPow2Of32(t);
    JoinedCharacters(j, s[i], high, Pow2(t), Pow2(32 - t), v);
    SplitPow2Of32(shift);
    var w := high / Pow2(t) + Pow2(32 - t) * v;
    MulAssoc(base, Pow2(32 - shift), w);
    ModuloMultiple(j, base, Pow2(32 - shift) * w);
  }

  // ------------------------------------------------------------ the characters

  /** The cells from pos on hold the lowest characters of u, b bits in all. */
  ghost predicate Printed(h: string, pos: nat, u: nat, base: int, upperCase: bool, b: nat)
    requires Base(base)
  {
    && pos <= |h|
    && h[pos..] == Padded(u, base, |h| - pos, upperCase)
    && Pow(base, |h| - pos) == Pow2(b)
  }

  lemma PaddedMore(u: nat, base: int, k: nat, upperCase: bool, b: nat)
    requires Base(base) && Pow(base, k) == Pow2(b)
    ensures Padded(u, base, k + 1, upperCase)
         == [DigitChar(CharacterBits(u, b, base), upperCase)] + Padded(u, base, k, upperCase)
  {
    var p := Pow2(b);
    DivMod(u, p);
    PaddedSplit(u, base, 1, k, upperCase);
    PaddedSplit(u, base, 0, k, upperCase);
    DivMod(u / p, base);
    assert Padded(u / p, base, 1, upperCase)
        == Padded(u / p / base, base, 0, upperCase) + [DigitChar(u / p % base, upperCase)];
  }

  lemma PrintedNext(h: string, pos: nat, u: nat, base: int, upperCase: bool, b: nat, shift: nat, v: int)
    requires RadixShift(base, shift) && Base(base) && Printed(h, pos, u, base, upperCase, b) && pos > 0
    requires v == CharacterBits(u, b, base)
    ensures Printed(h[pos - 1 := DigitChar(v, upperCase)], pos - 1, u, base, upperCase, b + shift)
  {
    var k := |h| - pos;
    PaddedMore(u, base, k, upperCase, b);
    Pow2Add(shift, b);
    assert h[pos - 1 := DigitChar(v, upperCase)][pos - 1..] == [DigitChar(v, upperCase)] + h[pos..];
  }

  /** The inner loop: the characters whose bits are all in one digit. */
  method PrintWithinDigit(result: array<char>, unsigned_digit: Digit, digit_shift0: nat, pos0: nat, low: nat,
                          shift: nat, mask: int, upperCase: bool,
                          ghost s: seq<Digit>, ghost i: nat, ghost base: int)
    returns (pos: nat, digit_shift: nat)
    requires RadixShift(base, shift) && Base(base) && mask == base - 1 && i < |s| && s[i] == unsigned_digit
    requires low <= pos0 <= result.Length && digit_shift0 < 32
    requires Printed(result[..], pos0, UVal(s), base, upperCase, 32 * i + digit_shift0)
    modifies result
    ensures low <= pos <= pos0 && digit_shift <= 32 && (pos > low ==> digit_shift > 32 - shift)
    ensures Printed(result[..], pos, UVal(s), base, upperCase, 32 * i + digit_shift)
  {
    pos, digit_shift := pos0, digit_shift0;
    while digit_shift <= 32 - shift && pos > low
      invariant low <= pos <= pos0 && digit_shift <= 32
      invariant Printed(result[..], pos, UVal(s), base, upperCase, 32 * i + digit_shift)
    {
      CharacterInDigit(s, i, digit_shift, base, shift);
      AndLowMask(Shr(unsigned_digit, digit_shift), shift);
      PrintedNext(result[..], pos, UVal(s), base, upperCase, 32 * i + digit_shift, shift,
                  And(Shr(unsigned_digit, digit_shift), mask));
      pos := pos - 1;
      result[pos] := DigitChar(And(Shr(unsigned_digit, digit_shift), mask), upperCase);
      digit_shift := digit_shift + shift;
    }
  }

  /** A character whose lower bits are in one digit, and its upper bits, if there
      are any, in the next one. */
  method PrintJoined(result: array<char>, unsigned_digit: Digit, pos0: nat,
                     shift: nat, mask: int, upperCase: bool,
                     ghost s: seq<Digit>, ghost i: nat, ghost t: nat, ghost base: int)
    returns (pos: nat)
    requires RadixShift(base, shift) && Base(base) && mask == base - 1 && i < |s| && 0 < t < 32
    requires unsigned_digit == JoinedDigit(s[i], NextOrZero(s, i), t)
    requires 0 < pos0 <= result.Length && Printed(result[..], pos0, UVal(s), base, upperCase, 32 * i + t)
    modifies result
    ensures pos == pos0 - 1 && Printed(result[..], pos, UVal(s), base, upperCase, 32 * i + t + shift)
  {
    CharacterAcross(s, i, t, base, shift);
    AndLowMask(unsigned_digit, shift);
    PrintedNext(result[..], pos0, UVal(s), base, upperCase, 32 * i + t, shift, And(unsigned_digit, mask));
    pos := pos0 - 1;
    result[pos] := DigitChar(And(unsigned_digit, mask), upperCase);
  }

  // -------------------------------------------------------- how many there are

  /** A numeral has no more characters than the number needs. */
  lemma {:induction false} NumeralLength(m: nat, b: int, upperCase: bool)
    requires Base(b)
    ensures var w := |Numeral(m, b, upperCase)|;
      m < Pow(b, w) && (w >= 2 ==> Pow(b, w - 1) <= m)
  {
    if m < b {
      assert Pow(b, 1) == b * Pow(b, 0);
    } else {
      NumeralLength(m / b, b, upperCase);
      var w := |Numeral(m / b, b, upperCase)|;
      LengthStep(m, b, Pow(b, w), if w >= 2 then Pow(b, w - 1) else 1);
    }
  }

  lemma LengthStep(m: nat, b: int, p: int, q: int)
    requires b > 1 && m >= b && m / b < p && (q <= m / b)
    ensures m < b * p && b * q <= m
  {
    FloorBound(m, b, p);
    FloorBound(m, b, q);
  }

  lemma NumeralLengthIs(u: nat, base: int, k: nat, upperCase: bool)
    requires Base(base) && Pow(base, k) <= u < Pow(base, k + 1)
    ensures |Numeral(u, base, upperCase)| == k + 1
  {
    var w := |Numeral(u, base, upperCase)|;
    NumeralLength(u, base, upperCase);
    if w <= k {
      PowGrows(base, w, k);
    } else if w >= k + 2 {
      PowGrows(base, k + 1, w - 1);
    }
  }

  lemma BitsOfCharacters(highest: nat, shift: nat)
    requires shift > 0
    ensures highest / shift >= 0 && shift * (highest / shift) <= highest < shift * (highest / shift + 1)
  {
    DivMod(highest, shift);
    MulDistr(highest / shift, 1, shift);
  }

  /** The length of a numeral in base 2 ^ shift follows from its highest bit. */
  lemma LengthByHighestBit(u: nat, highest: nat, base: int, shift: nat, upperCase: bool)
    requires RadixShift(base, shift) && Base(base) && Pow2(highest) <= u < Pow2(highest + 1)
    ensures |Numeral(u, base, upperCase)| == highest / shift + 1
  {
    BitsOfCharacters(highest, shift);
    var k := highest / shift;
    assert Pow(base, k) <= u by {
      PowOfTwo(shift, k);
      Pow2Mono(shift * k, highest);
    }
    assert u < Pow(base, k + 1) by {
      PowOfTwo(shift, k + 1);
      Pow2Mono(highest + 1, shift * (k + 1));
    }
    NumeralLengthIs(u, base, k, upperCase);
  }

  /** result_size without the sign, as it is computed for a number other than zero. */
  function RadixCharacters(n: nat, most_significant: int, shift: nat): int
    requires n > 0 && shift > 0
  {
    var digit_shift := 32 - (n * 32) % shift;
    var result_size := (n * 32 - 1) / shift + 1;
    if most_significant < digit_shift then
      // Reduced because of leading zero digits.
      var reduced := result_size - (digit_shift - most_significant - 1) / shift;
      if digit_shift != 32 then reduced - 1 else reduced
    else
      result_size
  }

  lemma CharactersOf3(n: nat, h: int)
    requires n > 0 && 0 <= h < 32
    ensures RadixCharacters(n, h, 3) == (32 * (n - 1) + h) / 3 + 1
  {
  }

  lemma CharactersOf5(n: nat, h: int)
    requires n > 0 && 0 <= h < 32
    ensures RadixCharacters(n, h, 5) == (32 * (n - 1) + h) / 5 + 1
  {
  }

  lemma CharactersOf1(n: nat, h: int)
    requires n > 0 && 0 <= h < 32
    ensures RadixCharacters(n, h, 1) == (32 * (n - 1) + h) / 1 + 1
  {
  }

  lemma CharactersOf2(n: nat, h: int)
    requires n > 0 && 0 <= h < 32
    ensures RadixCharacters(n, h, 2) == (32 * (n - 1) + h) / 2 + 1
  {
  }

  lemma CharactersOf4(n: nat, h: int)
    requires n > 0 && 0 <= h < 32
    ensures RadixCharacters(n, h, 4) == (32 * (n - 1) + h) / 4 + 1
  {
  }

  lemma CharactersAre(n: nat, h: int, shift: nat)
    requires n > 0 && 0 <= h < 32 && 1 <= shift <= 5
    ensures RadixCharacters(n, h, shift) == (32 * (n - 1) + h) / shift + 1
  {
    if shift == 1 {
      CharactersOf1(n, h);
    } else if shift == 2 {
      CharactersOf2(n, h);
    } else if shift == 3 {
      CharactersOf3(n, h);
    } else if shift == 4 {
      CharactersOf4(n, h);
    } else {
      CharactersOf5(n, h);
    }
  }

  /** The highest bit of the number is that of its top digit. */
  lemma HighestOfTop(s: seq<Digit>)
    requires |s| > 0 && s[|s| - 1] != 0
    ensures var h := 32 * (|s| - 1) + MostSignificantBit(s[|s| - 1]);
      h >= 0 && Pow2(h) <= UVal(s) < Pow2(h + 1)
  {
    var n, top: int := |s| - 1, s[|s| - 1];
    var h := MostSignificantBit(top);
    UValPrefix(s, n);
    assert s[..n + 1] == s;
    UValBound(s[..n]);
    ShlRadix(top, n);
    Pow2Radix(n);
    Pow2Add(h, 32 * n);
    Pow2Add(h + 1, 32 * n);
    TopWeight(UVal(s[..n]), top, Radix(n), Pow2(h), Pow2(h + 1));
  }

  lemma TopWeight(low: int, top: int, r: int, lo: int, hi: int)
    requires 0 <= low < r && 0 <= lo <= top < hi
    ensures lo * r <= low + top * r < hi * r
  {
    MulLe(lo, top, r, r);
    MulLe(top + 1, hi, r, r);
    MulDistr(top, 1, r);
  }

  // --------------------------------------------------------------- the number

  /** Leading zero digits of the magnitude are not printed. */
  method TrimmedSize(unsigned_big: Big) returns (unsigned_size: nat)
    requires unsigned_big.Valid()
    ensures 1 <= unsigned_size <= unsigned_big.size
    ensures UVal(unsigned_big.bigdigits[..unsigned_size]) == unsigned_big.Unsigned()
    ensures unsigned_size > 1 ==> unsigned_big.bigdigits[unsigned_size - 1] != 0
  {
    unsigned_size := unsigned_big.size;
    ghost var s := unsigned_big.Digits();
    assert s[..unsigned_size] == s;
    while unsigned_size > 1 && unsigned_big.bigdigits[unsigned_size - 1] == 0
      invariant 1 <= unsigned_size <= unsigned_big.size && UVal(s[..unsigned_size]) == UVal(s)
    {
      UValPrefix(s, unsigned_size - 1);
      ShlOne(unsigned_size - 1);
      unsigned_size := unsigned_size - 1;
    }
    assert s[..unsigned_size] == unsigned_big.bigdigits[..unsigned_size];
  }

  /** The exact number of characters: there will be no leading zero. */
  method ResultSize(unsigned_big: Big, unsigned_size: nat, shift: nat, negative: bool, ghost base: int,
                    ghost upperCase: bool)
    returns (result_size: nat)
    requires RadixShift(base, shift) && Base(base)
    requires unsigned_big.Valid() && 1 <= unsigned_size <= unsigned_big.size
    requires unsigned_size > 1 ==> unsigned_big.bigdigits[unsigned_size - 1] != 0
    requires negative ==> UVal(unsigned_big.bigdigits[..unsigned_size]) > 0
    ensures result_size
        == |Numeral(UVal(unsigned_big.bigdigits[..unsigned_size]), base, upperCase)| + (if negative then 1 else 0)
  {
    ghost var s := unsigned_big.bigdigits[..unsigned_size];
    if unsigned_size == 1 && unsigned_big.bigdigits[0] == 0 {
      SingleDigit(s);
      result_size := 1;
    } else {
      var most_significant := MostSignificantBit(unsigned_big.bigdigits[unsigned_size - 1]);
      HighestOfTop(s);
      LengthByHighestBit(UVal(s), 32 * (unsigned_size - 1) + most_significant, base, shift, upperCase);
      CharactersAre(unsigned_size, most_significant, shift);
      result_size := RadixCharacters(unsigned_size, most_significant, shift) + (if negative then 1 else 0);
    }
  }

  lemma FirstPrinted(h: string, u: nat, base: int, upperCase: bool)
    requires Base(base)
    ensures Printed(h, |h|, u, base, upperCase, 0)
  {
  }

  /** When the bits of all digits have been printed, all cells are written. */
  lemma AllPrinted(h: string, pos: nat, s: seq<Digit>, base: int, upperCase: bool, b: nat, low: nat)
    requires Base(base) && Printed(h, pos, UVal(s), base, upperCase, b) && b >= 32 * |s| && low <= pos < |h|
    requires |h| == low + |Numeral(UVal(s), base, upperCase)|
    ensures pos == low
  {
    UValBound(s);
    Pow2Radix(|s|);
    Pow2Mono(32 * |s|, b);
    PaddedNumeral(UVal(s), base, |h| - pos, upperCase);
  }

  lemma PrintedNumeral(h: string, low: nat, u: nat, base: int, upperCase: bool, b: nat)
    requires Base(base) && Printed(h, low, u, base, upperCase, b) && |h| == low + |Numeral(u, base, upperCase)|
    ensures h[low..] == Numeral(u, base, upperCase)
  {
    NumeralLength(u, base, upperCase);
    PaddedNumeral(u, base, |h| - low, upperCase);
  }

  /** The loop over the digits of the magnitude. */
  method PrintDigits(result: array<char>, unsigned_big: Big, unsigned_size: nat, low: nat,
                     shift: nat, mask: int, upperCase: bool, ghost base: int)
    requires RadixShift(base, shift) && Base(base) && mask == base - 1
    requires unsigned_big.Valid() && 1 <= unsigned_size <= unsigned_big.size
    requires result.Length == low + |Numeral(UVal(unsigned_big.bigdigits[..unsigned_size]), base, upperCase)|
    modifies result
    ensures result[low..] == Numeral(UVal(unsigned_big.bigdigits[..unsigned_size]), base, upperCase)
  {
    ghost var s := unsigned_big.bigdigits[..unsigned_size];
    var pos: nat := result.Length;
    var unsigned_digit: Digit := unsigned_big.bigdigits[0];
    var digit_index: nat, digit_shift: nat := 0, 0;
    ghost var bits: nat := 0;
    FirstPrinted(result[..], UVal(s), base, upperCase);
    var more := true;
    while more
      invariant low <= pos <= result.Length && Printed(result[..], pos, UVal(s), base, upperCase, bits)
      invariant more ==> digit_index < unsigned_size && unsigned_digit == s[digit_index]
      invariant more ==> digit_shift < 32 && bits == 32 * digit_index + digit_shift && pos > low
      invariant !more ==> pos == low
      decreases if more then unsigned_size - digit_index else 0, more
    {
      pos, digit_shift := PrintWithinDigit(result, unsigned_digit, digit_shift, pos, low, shift, mask, upperCase,
                                           s, digit_index, base);
      bits := 32 * digit_index + digit_shift;
      digit_index := digit_index + 1;
      if digit_index < unsigned_size {
        if digit_shift == 32 {
          unsigned_digit := unsigned_big.bigdigits[digit_index];
          digit_shift := 0;
        } else {
          if pos > low {
            var joined := JoinedDigit(unsigned_digit, unsigned_big.bigdigits[digit_index], digit_shift);
            pos := PrintJoined(result, joined, pos, shift, mask, upperCase, s, digit_index - 1, digit_shift, base);
            bits := bits + shift;
            unsigned_digit := unsigned_big.bigdigits[digit_index];
            digit_shift := digit_shift + shift - 32;
          }
        }
      } else if digit_shift != 32 && pos > low {
        LastCharacterBits(s, digit_shift);
        pos := PrintJoined(result, Shr(unsigned_digit, digit_shift), pos, shift, mask, upperCase,
                           s, digit_index - 1, digit_shift, base);
        bits := bits + shift;
      }
      more := digit_index < unsigned_size && pos > low;
      if digit_index == unsigned_size && pos > low {
        AllPrinted(result[..], pos, s, base, upperCase, bits, low);
      }
    }
    PrintedNumeral(result[..], low, UVal(s), base, upperCase, bits);
    assert result[low..] == result[..][low..];
  }

  /** Above the last digit there are only zero bits. */
  lemma LastCharacterBits(s: seq<Digit>, t: nat)
    requires |s| > 0 && 0 < t < 32
    ensures JoinedDigit(s[|s| - 1], NextOrZero(s, |s| - 1), t) == Shr(s[|s| - 1], t)
  {
    JoinedDigitBounds(s[|s| - 1], 0, t);
    KeepsLowBits(0, t);
    RemainderUnique(0, Pow2(t), 0, 0);
  }

  /** The minus sign goes before the digits. */
  method WithSign(result: array<char>, negative: bool, ghost n: string) returns (stri: string)
    requires negative ==> result.Length > 0
    requires n == result[if negative then 1 else 0..]
    modifies result
    ensures stri == (if negative then "-" else "") + n
  {
    if negative {
      result[0] := '-';
      assert result[1..] == n;
    }
    stri := result[..];
  }

  method BigRadixPow2(big1: Big, shift: nat, mask: int, upperCase: bool, ghost base: int) returns (stri: string)
    requires big1.Canonical() && RadixShift(base, shift) && Base(base) && mask == base - 1
    ensures stri == Literal(big1.Value(), base, upperCase)
    ensures if upperCase then forall c :: c in stri ==> !('a' <= c <= 'z')
            else forall c :: c in stri ==> !('A' <= c <= 'Z')
  {
    LiteralInCase(big1.Value(), base, upperCase);
    var unsigned_big, negative := UnsignedMagnitude(big1);
    var unsigned_size := TrimmedSize(unsigned_big);
    var result_size := ResultSize(unsigned_big, unsigned_size, shift, negative, base, upperCase);
    var result := new char[result_size];
    var low := if negative then 1 else 0;
    PrintDigits(result, unsigned_big, unsigned_size, low, shift, mask, upperCase, base);
    stri := WithSign(result, negative, result[low..]);
  }
}
