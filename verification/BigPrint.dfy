/** Conversion of big integers to strings (src/big_rtl.c): repeated division by
    one digit, and below it in the recursion, division by base ^ (2 ^ i). */
module BigPrint {
  import opened Digits
  import opened Bits
  import opened ShortDivision
  import opened DivisionLaws
  import opened BigRecord
  import opened SignedDivision
  import opened FlooredDivision
  import opened BigGcd
  import opened ShiftLaws
  import opened Exponentiation
  import opened Numerals
  import opened PrintedText
  import opened PrintLimit
  import opened RadixTables

  // -------------------------------------------------- writing to the buffer

  /** The buffer h after the string t has been written so that it ends at pos. */
  ghost function Written(h: string, pos: int, t: string): (r: string)
    requires -1 <= pos < |h| && |t| <= pos + 1
    ensures |r| == |h|
  {
    h[..pos + 1 - |t|] + t + h[pos + 1..]
  }

  lemma WrittenMore(h: string, pos: int, t: string, t': string)
    requires -1 <= pos < |h| && |t'| + |t| <= pos + 1
    ensures Written(Written(h, pos, t), pos - |t|, t') == Written(h, pos, t' + t)
  {
  }

  lemma WrittenChar(h: string, pos: int, t: string, c: char)
    requires -1 <= pos < |h| && 1 + |t| <= pos + 1
    ensures Written(h, pos, t)[pos - |t| := c] == Written(h, pos, [c] + t)
  {
  }

  /** Writes 'count' digits of a number, lowest digit first. */
  method WriteDigits(buffer: array<char>, pos0: int, digit0: Digit, count: nat, base: int, upperCase: bool)
    returns (pos: int)
    requires Base(base) && -1 <= pos0 < buffer.Length && count <= pos0 + 1
    modifies buffer
    ensures pos == pos0 - count
    ensures buffer[..] == Written(old(buffer[..]), pos0, Padded(digit0, base, count, upperCase))
  {
    ghost var h, t := buffer[..], "";
    var digit: Digit := digit0;
    var digit_pos := count;
    pos := pos0;
    while digit_pos != 0
      invariant 0 <= digit_pos <= count && pos == pos0 - |t| && |t| == count - digit_pos
      invariant buffer[..] == Written(h, pos0, t)
      invariant Padded(digit, base, digit_pos, upperCase) + t == Padded(digit0, base, count, upperCase)
    {
      DigitDivided(digit, base);
      var c := DigitChar(digit % base, upperCase);
      WrittenChar(h, pos0, t, c);
      AppendChar(Padded(digit / base, base, digit_pos - 1, upperCase), c, t);
      buffer[pos] := c;
      t := [c] + t;
      digit := digit / base;
      pos := pos - 1;
      digit_pos := digit_pos - 1;
    }
  }

  lemma DigitDivided(digit: Digit, base: int)
    requires base >= 2
    ensures 0 <= digit / base <= digit && 0 <= digit % base < base
  {
    DivMod(digit, base);
    MulLe(1, base, digit / base, digit / base);
  }

  lemma AppendChar(high: string, c: char, t: string)
    ensures high + ([c] + t) == (high + [c]) + t
  {
  }

  /** Writes the numeral of a digit, without leading zeros. */
  method WriteNumeral(buffer: array<char>, pos0: int, digit0: Digit, base: int, upperCase: bool) returns (pos: int)
    requires Base(base) && -1 <= pos0 < buffer.Length && |Numeral(digit0, base, upperCase)| <= pos0 + 1
    modifies buffer
    ensures pos == pos0 - |Numeral(digit0, base, upperCase)|
    ensures buffer[..] == Written(old(buffer[..]), pos0, Numeral(digit0, base, upperCase))
  {
    ghost var h, t, n := buffer[..], "", Numeral(digit0, base, upperCase);
    var digit: Digit := digit0;
    pos := pos0;
    var more := true;
    while more
      invariant pos == pos0 - |t| && |t| <= |n| && buffer[..] == Written(h, pos0, t)
      invariant more ==> Numeral(digit, base, upperCase) + t == n
      invariant !more ==> t == n
      decreases if more then digit as int + 1 else 0
    {
      DigitDivided(digit, base);
      NumeralEnd(digit, base, upperCase, t);
      var c := DigitChar(digit % base, upperCase);
      WrittenChar(h, pos0, t, c);
      buffer[pos] := c;
      t := [c] + t;
      digit := digit / base;
      pos := pos - 1;
      more := digit != 0;
    }
  }

  lemma NumeralCases(m: nat, base: int)
    requires base >= 2
    ensures m < base ==> m / base == 0 && m % base == m
    ensures m >= base ==> 0 < m / base < m
  {
    DivMod(m, base);
    FloorBound(m, base, 1);
    if m < base {
      RemainderUnique(m, base, 0, m);
    } else {
      MulLe(2, base, m / base, m / base);
    }
  }

  /** The last character of a numeral, and what is before it. */
  lemma NumeralEnd(m: nat, base: int, upperCase: bool, t: string)
    requires Base(base)
    ensures m / base == 0 ==> Numeral(m, base, upperCase) + t == [DigitChar(m % base, upperCase)] + t
    ensures m / base != 0 ==> m / base < m
    ensures m / base != 0
        ==> Numeral(m, base, upperCase) + t
            == Numeral(m / base, base, upperCase) + ([DigitChar(m % base, upperCase)] + t)
  {
    NumeralCases(m, base);
    if m >= base {
      AppendChar(Numeral(m / base, base, upperCase), DigitChar(m % base, upperCase), t);
    }
  }

  // ------------------------------------------------- repeated division

  /** Division by one digit clears at most one leading digit that is needed. */
  lemma LeadingQuotient(s: seq<Digit>, x: int, d: int)
    requires |s| >= 2 && x >= SignWeight(|s| - 1) && 0 < d <= 0xFFFF_FFFF && UVal(s) == x / d
    ensures s[|s| - 1] == 0 ==> UVal(s[..|s| - 1]) == UVal(s) && Leading(s[..|s| - 1])
    ensures s[|s| - 1] != 0 ==> Leading(s)
  {
    var n := |s|;
    if s[n - 1] == 0 {
      QuotientTop(s);
      if n >= 3 {
        MulLe(d, 0x1_0000_0000, SignWeight(n - 2), SignWeight(n - 2));
        FloorBound(x, d, SignWeight(n - 2));
      }
    } else {
      UValPrefix(s, n - 1);
      assert s[..n] == s;
      ShlMono(1, s[n - 1], n - 1);
      ShlOne(n - 1);
    }
  }

  /** Divides by 'd' and removes a leading zero digit. The size becomes zero if
      a single digit becomes zero. */
  method DivideAndTrim(unsignedBig: Big, d: Digit) returns (digit: Digit, more: bool)
    requires unsignedBig.Valid() && Leading(unsignedBig.Digits()) && d > 0
    modifies unsignedBig`size, unsignedBig.bigdigits
    ensures digit == old(unsignedBig.Unsigned()) % d
    ensures more <==> old(unsignedBig.Unsigned()) / d != 0
    ensures more ==> unsignedBig.Valid() && Leading(unsignedBig.Digits())
    ensures more ==> unsignedBig.Unsigned() == old(unsignedBig.Unsigned()) / d
  {
    ghost var x := unsignedBig.Unsigned();
    digit := DivideDigits(unsignedBig.bigdigits, unsignedBig.bigdigits, unsignedBig.size, d);
    ghost var s := unsignedBig.Digits();
    RemainderUnique(x, d, UVal(s), digit);
    if |s| >= 2 {
      LeadingQuotient(s, x, d);
    }
    if unsignedBig.bigdigits[unsignedBig.size - 1] == 0 {
      unsignedBig.size := unsignedBig.size - 1;
    }
    if unsignedBig.size > 0 {
      assert unsignedBig.Digits() == if s[|s| - 1] == 0 then s[..|s| - 1] else s;
      LeadingIsZero(unsignedBig.Digits());
    } else {
      SingleDigit(s);
    }
    more := unsignedBig.size > 1 || unsignedBig.bigdigits[0] != 0;
  }

  /** The digits that one round of the division writes. */
  ghost function Block(x: nat, base: int, upperCase: bool): string
    requires Base(base)
  {
    RadixPower(base);
    var p := PowerOfRadix(base);
    DivMod(x, p);
    if x / p != 0 then Padded(x % p, base, RadixDigits(base), upperCase) else Numeral(x % p, base, upperCase)
  }

  lemma BlockMeans(x: nat, base: int, upperCase: bool)
    requires Base(base)
    ensures PowerOfRadix(base) > 0 && x / PowerOfRadix(base) >= 0
    ensures x / PowerOfRadix(base) == 0 ==> Numeral(x, base, upperCase) == Block(x, base, upperCase)
    ensures x / PowerOfRadix(base) != 0 ==> x / PowerOfRadix(base) < x
    ensures x / PowerOfRadix(base) != 0
        ==> Numeral(x, base, upperCase) == Numeral(x / PowerOfRadix(base), base, upperCase) + Block(x, base, upperCase)
  {
    RadixPower(base);
    var p, n := PowerOfRadix(base), RadixDigits(base);
    DivMod(x, p);
    RadixAtLeastBase(base, n);
    NumeralCases(x, p);
    if x / p != 0 {
      NumeralSplit(x, base, n, upperCase);
    }
  }

  lemma RadixAtLeastBase(base: int, n: nat)
    requires Base(base) && n >= 1
    ensures Pow(base, n) >= base
  {
    PowPositive(base, n - 1);
    MulLe(base, base, 1, Pow(base, n - 1));
  }

  /** One round: a division, and the digits of its remainder. */
  method WriteBlock(unsignedBig: Big, buffer: array<char>, base: int, upperCase: bool, pos0: int)
    returns (pos: int, more: bool)
    requires unsignedBig.Valid() && Leading(unsignedBig.Digits()) && Base(base) && PowerOfRadix(base) > 0
    requires -1 <= pos0 < buffer.Length && |Block(unsignedBig.Unsigned(), base, upperCase)| <= pos0 + 1
    modifies unsignedBig`size, unsignedBig.bigdigits, buffer
    ensures more <==> old(unsignedBig.Unsigned()) / PowerOfRadix(base) != 0
    ensures more ==> unsignedBig.Valid() && Leading(unsignedBig.Digits())
    ensures more ==> unsignedBig.Unsigned() == old(unsignedBig.Unsigned()) / PowerOfRadix(base)
    ensures pos == pos0 - |Block(old(unsignedBig.Unsigned()), base, upperCase)|
    ensures buffer[..] == Written(old(buffer[..]), pos0, Block(old(unsignedBig.Unsigned()), base, upperCase))
  {
    RadixPower(base);
    var digit;
    digit, more := DivideAndTrim(unsignedBig, PowerOfRadix(base));
    if more {
      pos := WriteDigits(buffer, pos0, digit, RadixDigits(base), base, upperCase);
    } else {
      pos := WriteNumeral(buffer, pos0, digit, base, upperCase);
    }
  }

  /** The string t has been written, and the numeral n is complete if x comes before it. */
  ghost predicate BlocksWritten(h0: string, h: string, pos0: int, pos: int, t: string, n: string, more: bool,
                                x: int, base: int, upperCase: bool)
    requires Base(base)
  {
    && -1 <= pos0 < |h0| && |t| <= |n| <= pos0 + 1 && pos == pos0 - |t| && h == Written(h0, pos0, t)
    && (if more then x >= 0 && Numeral(x, base, upperCase) + t == n else t == n)
  }

  /** A block before t: it is the rest of the numeral, or the numeral of the quotient comes before it. */
  lemma {:induction false} BlockBefore(x: int, base: int, upperCase: bool, t: string, n: string)
    requires Base(base) && x >= 0 && Numeral(x, base, upperCase) + t == n
    ensures var p, block := PowerOfRadix(base), Block(x, base, upperCase);
      && p > 0 && x / p >= 0 && |block + t| <= |n|
      && (if x / p != 0 then x / p < x && Numeral(x / p, base, upperCase) + (block + t) == n else block + t == n)
  {
    BlockMeans(x, base, upperCase);
    if x / PowerOfRadix(base) != 0 {
      PutBefore(Numeral(x / PowerOfRadix(base), base, upperCase), Block(x, base, upperCase), t);
    }
  }

  lemma PutBefore(a: string, b: string, c: string)
    ensures (a + b) + c == a + (b + c)
  {
  }

  lemma {:induction false} NextBlock(h0: string, h: string, pos0: int, pos: int, t: string, n: string, x: int,
                                     base: int, upperCase: bool)
    requires Base(base) && BlocksWritten(h0, h, pos0, pos, t, n, true, x, base, upperCase)
    ensures var p, block := PowerOfRadix(base), Block(x, base, upperCase);
      && p > 0 && |block| <= pos + 1 && (x / p != 0 ==> x / p < x)
      && BlocksWritten(h0, Written(h, pos, block), pos0, pos - |block|, block + t, n, x / p != 0, x / p, base,
                       upperCase)
  {
    BlockBefore(x, base, upperCase, t, n);
    WrittenMore(h0, pos0, t, Block(x, base, upperCase));
  }

  /** basicToStri and basicRadix2To36: the numeral of the magnitude. */
  method BasicRadix2To36(unsignedBig: Big, buffer: array<char>, base: int, upperCase: bool, pos0: int)
    returns (pos: int)
    requires unsignedBig.Valid() && Leading(unsignedBig.Digits()) && Base(base)
    requires -1 <= pos0 < buffer.Length && |Numeral(unsignedBig.Unsigned(), base, upperCase)| <= pos0 + 1
    modifies unsignedBig, unsignedBig.bigdigits, buffer
    ensures pos == pos0 - |Numeral(old(unsignedBig.Unsigned()), base, upperCase)|
    ensures buffer[..] == Written(old(buffer[..]), pos0, Numeral(old(unsignedBig.Unsigned()), base, upperCase))
  {
    ghost var h, t, x, n := buffer[..], "", unsignedBig.Unsigned(), Numeral(unsignedBig.Unsigned(), base, upperCase);
    assert n + t == n && Written(h, pos0, t) == h;
    pos := pos0;
    var more := true;
    while more
      invariant unsignedBig.bigdigits == old(unsignedBig.bigdigits)
      invariant BlocksWritten(h, buffer[..], pos0, pos, t, n, more, x, base, upperCase)
      invariant more ==> unsignedBig.Valid() && Leading(unsignedBig.Digits()) && unsignedBig.Unsigned() == x
      decreases if more then x + 1 else 0
    {
      ghost var block := Block(x, base, upperCase);
      NextBlock(h, buffer[..], pos0, pos, t, n, x, base, upperCase);
      pos, more := WriteBlock(unsignedBig, buffer, base, upperCase, pos);
      t, x := block + t, x / PowerOfRadix(base);
    }
  }

  // ------------------------------------------------- divide and conquer

  /** The number does not belong to the cache. */
  ghost predicate NotCached(cache: DivisorCache, big: Big)
    reads cache, cache.divisors, big
  {
    forall i :: 0 <= i < |cache.divisors| ==> cache.divisors[i] != big && cache.divisors[i].bigdigits != big.bigdigits
  }

  /** The division of the recursion. The number is divided as a signed number.
      The results do not belong to the cache. */
  method SplitByDivisor(cache: DivisorCache, unsignedBig: Big, exponent: nat)
    returns (quotient: Big, remainder: Big)
    requires cache.Valid() && unsignedBig.Canonical()
    modifies cache`divisors
    ensures cache.Valid() && old(cache.divisors) <= cache.divisors
    ensures forall i :: |old(cache.divisors)| <= i < |cache.divisors|
                    ==> fresh(cache.divisors[i]) && fresh(cache.divisors[i].bigdigits)
    ensures fresh(quotient) && fresh(quotient.bigdigits) && fresh(remainder) && fresh(remainder.bigdigits)
    ensures FreshPair(quotient, remainder) && NotCached(cache, quotient) && NotCached(cache, remainder)
    ensures quotient.Canonical() && remainder.Canonical() && Pow(cache.base, Pow2(exponent)) > 0
    ensures quotient.Value() == TruncDiv(old(unsignedBig.Value()), Pow(cache.base, Pow2(exponent)))
    ensures remainder.Value() == TruncRem(old(unsignedBig.Value()), Pow(cache.base, Pow2(exponent)))
  {
    PowPositive(cache.base, Pow2(exponent));
    var divisor := cache.GetConversionDivisor(exponent);
    var result := BigDivRem(unsignedBig, divisor);
    quotient, remainder := result.value.0, result.value.1;
  }

  /** Writes zeros until the text has 2 ^ exponent characters. The source compares
      unsigned positions, so the position before the text must not be below zero. */
  method PadWithZeros(buffer: array<char>, pos0: int, endPos: int) returns (pos: int)
    requires 0 <= endPos <= pos0 < buffer.Length
    modifies buffer
    ensures pos == endPos && buffer[..] == Written(old(buffer[..]), pos0, Repeat('0', pos0 - endPos))
  {
    ghost var h, t := buffer[..], "";
    pos := pos0;
    while pos > endPos
      invariant endPos <= pos <= pos0 && t == Repeat('0', pos0 - pos) && buffer[..] == Written(h, pos0, t)
    {
      WrittenChar(h, pos0, t, '0');
      buffer[pos] := '0';
      t := ['0'] + t;
      pos := pos - 1;
    }
  }

  /** The recursion has room for its text. Zeros are written only behind something. */
  ghost predicate HasRoom(v: int, base: int, exponent: nat, zeroPad: bool, upperCase: bool, pos: int, length: nat)
    requires Base(base)
  {
    && -1 <= pos < length
    && |WrittenText(v, base, exponent, zeroPad, upperCase)| <= pos + (if zeroPad then 0 else 1)
  }

  /** The end of the recursion. */
  method BinaryBase(unsignedBig: Big, buffer: array<char>, base: int, upperCase: bool, exponent: nat, zeroPad: bool,
                    pos0: int)
    returns (pos: int)
    requires Base(base) && unsignedBig.Canonical() && exponent <= 8
    requires HasRoom(unsignedBig.Value(), base, exponent, zeroPad, upperCase, pos0, buffer.Length)
    modifies unsignedBig, unsignedBig.bigdigits, buffer
    ensures var text := WrittenText(old(unsignedBig.Value()), base, exponent, zeroPad, upperCase);
      pos == pos0 - |text| && buffer[..] == Written(old(buffer[..]), pos0, text)
  {
    ReadingOfDigits(unsignedBig.Digits());
    NormalIsLeading(unsignedBig.Digits());
    ghost var h, n := buffer[..], Numeral(unsignedBig.Unsigned(), base, upperCase);
    pos := BasicRadix2To36(unsignedBig, buffer, base, upperCase, pos0);
    if zeroPad {
      var endPos := pos0 - Pow2(exponent);
      if pos > endPos {
        WrittenMore(h, pos0, n, Repeat('0', pos - endPos));
        pos := PadWithZeros(buffer, pos, endPos);
      }
    }
  }

  /** Room for a text is room for both of its halves. */
  lemma RoomForHalves(v: int, base: int, exponent: nat, zeroPad: bool, upperCase: bool, pos: int, length: nat, d: int)
    requires Base(base) && exponent >= 8 && HasRoom(v, base, exponent + 1, zeroPad, upperCase, pos, length)
    requires d == Pow(base, Pow2(exponent)) > 0
    ensures var q, r := TruncDiv(v, d), TruncRem(v, d);
      if zeroPad || q != 0 then
        HasRoom(r, base, exponent, true, upperCase, pos, length)
        && HasRoom(q, base, exponent, zeroPad, upperCase,
                   pos - |WrittenText(r, base, exponent, true, upperCase)|, length)
      else
        HasRoom(r, base, exponent, false, upperCase, pos, length)
  {
  }

  /** binaryToStri (for base 10) and binaryRadix2To36: writes the text of the
      number so that it ends at pos0. */
  method BinaryRadix2To36(cache: DivisorCache, unsignedBig: Big, buffer: array<char>, upperCase: bool,
                          exponent: nat, zeroPad: bool, pos0: int)
    returns (pos: int)
    requires cache.Valid() && unsignedBig.Canonical() && NotCached(cache, unsignedBig)
    requires HasRoom(unsignedBig.Value(), cache.base, exponent, zeroPad, upperCase, pos0, buffer.Length)
    modifies cache`divisors, unsignedBig, unsignedBig.bigdigits, buffer
    ensures cache.Valid() && old(cache.divisors) <= cache.divisors
    ensures forall i :: |old(cache.divisors)| <= i < |cache.divisors|
                    ==> fresh(cache.divisors[i]) && fresh(cache.divisors[i].bigdigits)
    ensures var text := WrittenText(old(unsignedBig.Value()), cache.base, exponent, zeroPad, upperCase);
      pos == pos0 - |text| && buffer[..] == Written(old(buffer[..]), pos0, text)
    decreases exponent, 0
  {
    if exponent > 8 {
      pos := BinarySplit(cache, unsignedBig, buffer, upperCase, exponent - 1, zeroPad, pos0);
    } else {
      pos := BinaryBase(unsignedBig, buffer, cache.base, upperCase, exponent, zeroPad, pos0);
    }
  }

  method BinarySplit(cache: DivisorCache, unsignedBig: Big, buffer: array<char>, upperCase: bool,
                     exponent: nat, zeroPad: bool, pos0: int)
    returns (pos: int)
    requires exponent >= 8
    requires cache.Valid() && unsignedBig.Canonical() && NotCached(cache, unsignedBig)
    requires HasRoom(unsignedBig.Value(), cache.base, exponent + 1, zeroPad, upperCase, pos0, buffer.Length)
    modifies cache`divisors, buffer
    ensures cache.Valid() && old(cache.divisors) <= cache.divisors
    ensures forall i :: |old(cache.divisors)| <= i < |cache.divisors|
                    ==> fresh(cache.divisors[i]) && fresh(cache.divisors[i].bigdigits)
    ensures var text := WrittenText(old(unsignedBig.Value()), cache.base, exponent + 1, zeroPad, upperCase);
      pos == pos0 - |text| && buffer[..] == Written(old(buffer[..]), pos0, text)
    decreases exponent, 2
  {
    ghost var v, base := unsignedBig.Value(), cache.base;
    PowPositive(base, Pow2(exponent));
    RoomForHalves(v, base, exponent, zeroPad, upperCase, pos0, buffer.Length, Pow(base, Pow2(exponent)));
    var quotient, remainder := SplitByDivisor(cache, unsignedBig, exponent);
    ZeroIsOneDigit(quotient);
    if zeroPad || quotient.size > 1 || quotient.bigdigits[0] != 0 {
      pos := BinaryHalves(cache, quotient, remainder, buffer, upperCase, exponent, zeroPad, pos0);
    } else {
      pos := BinaryRadix2To36(cache, remainder, buffer, upperCase, exponent, false, pos0);
    }
  }

  /** The text of the remainder with leading zeros, and before it that of the quotient. */
  method BinaryHalves(cache: DivisorCache, quotient: Big, remainder: Big, buffer: array<char>, upperCase: bool,
                      exponent: nat, zeroPad: bool, pos0: int)
    returns (pos: int)
    requires cache.Valid() && FreshPair(quotient, remainder) && NotCached(cache, quotient)
        && NotCached(cache, remainder)
    requires quotient.Canonical() && remainder.Canonical()
    requires HasRoom(remainder.Value(), cache.base, exponent, true, upperCase, pos0, buffer.Length)
    requires HasRoom(quotient.Value(), cache.base, exponent, zeroPad, upperCase,
                     pos0 - |WrittenText(remainder.Value(), cache.base, exponent, true, upperCase)|, buffer.Length)
    modifies cache`divisors, quotient, quotient.bigdigits, remainder, remainder.bigdigits, buffer
    ensures cache.Valid() && old(cache.divisors) <= cache.divisors
    ensures forall i :: |old(cache.divisors)| <= i < |cache.divisors|
                    ==> fresh(cache.divisors[i]) && fresh(cache.divisors[i].bigdigits)
    ensures var text := WrittenText(old(quotient.Value()), cache.base, exponent, zeroPad, upperCase)
                      + WrittenText(old(remainder.Value()), cache.base, exponent, true, upperCase);
      pos == pos0 - |text| && buffer[..] == Written(old(buffer[..]), pos0, text)
    decreases exponent, 1
  {
    ghost var h, low, high := buffer[..], WrittenText(remainder.Value(), cache.base, exponent, true, upperCase),
                              WrittenText(quotient.Value(), cache.base, exponent, zeroPad, upperCase);
    pos := BinaryRadix2To36(cache, remainder, buffer, upperCase, exponent, true, pos0);
    pos := BinaryRadix2To36(cache, quotient, buffer, upperCase, exponent, zeroPad, pos);
    assert buffer[..] == Written(Written(h, pos0, low), pos0 - |low|, high);
    WrittenMore(h, pos0, low, high);
  }

  // ------------------------------------------------------- whole numbers

  /** The estimate of the number of radix digits: the base is replaced by the
      power of two 2 ^ shift that is not larger. */
  function RadixDigitsEstimate(size: nat, shift: nat): nat
    requires size > 0 && shift > 0
  {
    (size * 32 - 1) / shift + 1
  }

  /** A magnitude is below base to the power of the estimate. */
  lemma MagnitudeBound(m: nat, size: nat, base: int, shift: nat)
    requires Base(base) && size > 0 && shift > 0 && Pow2(shift) <= base && m <= SignWeight(size)
    ensures RadixDigitsEstimate(size, shift) >= 1 && m < Pow(base, RadixDigitsEstimate(size, shift))
  {
    var w := RadixDigitsEstimate(size, shift);
    SignWeightIsPower(size);
    EstimateBits(size * 32 - 1, shift);
    Pow2Mono(size * 32, shift * w);
    PowOfTwo(shift, w);
    PowBaseMono(Pow2(shift), base, w);
    assert Pow2(size * 32) == 2 * Pow2(size * 32 - 1);
  }

  lemma EstimateBits(bits: nat, shift: nat)
    requires shift > 0
    ensures shift * (bits / shift + 1) >= bits + 1
  {
    DivMod(bits, shift);
    MulDistr(bits / shift, 1, shift);
  }

  /** A magnitude that has as many digits as the number. */
  lemma MagnitudeIsCanonical(s: seq<Digit>, d: seq<Digit>)
    requires Normal(s) && |d| == |s| && UVal(d) == Abs(SVal(s))
    ensures Normal(d) && SVal(d) == MagnitudeValue(SVal(s), |s|)
  {
    SValRange(s);
    SValRange(d);
    if |s| >= 2 {
      NormalRange(s);
    }
    if SVal(s) >= 0 || IsNegative(d[|d| - 1]) {
      UValInjective(s, d);
    } else {
      AbsNormal(s, d);
    }
  }

  /** A copy of the magnitude that the printer can destroy. */
  method CopyOfMagnitude(big1: Big) returns (unsigned_big: Big)
    requires big1.Canonical()
    ensures fresh(unsigned_big) && fresh(unsigned_big.bigdigits) && unsigned_big.Canonical()
    ensures unsigned_big.Value() == MagnitudeValue(big1.Value(), big1.size)
  {
    ghost var s := big1.Digits();
    SValRange(s);
    if big1.Negative() {
      unsigned_big := AllocPositiveCopyOfNegativeBig(big1);
    } else {
      unsigned_big := CopyOf(big1);
    }
    MagnitudeIsCanonical(s, unsigned_big.Digits());
  }

  /** The characters from pos on, moved to the front behind an optional minus sign. */
  method MoveToFront(result: array<char>, pos: int, negative: bool, ghost text: string) returns (stri: string)
    requires 0 <= pos <= result.Length && (negative ==> pos >= 1) && result[pos..] == text
    modifies result
    ensures stri == (if negative then "-" else "") + text
  {
    var final_result_size := result.Length - pos;
    var from := 0;
    if negative {
      result[0] := '-';
      from := 1;
      final_result_size := final_result_size + 1;
    }
    forall i | 0 <= i < result.Length - pos {
      result[from + i] := result[pos + i];
    }
    stri := result[..final_result_size];
    assert stri[from..] == text;
  }

  lemma WrittenAtEnd(h: string, t: string)
    requires |t| <= |h|
    ensures Written(h, |h| - 1, t)[|h| - |t|..] == t
  {
  }

  /** The text of the magnitude in a buffer of result_size characters. */
  ghost function MagnitudeText(x: int, size: nat, base: int, upperCase: bool, result_size: nat): (t: string)
    requires Base(base) && size > 0
  {
    WrittenText(MagnitudeValue(x, size), base, HighestBit(result_size) + 1, false, upperCase)
  }

  ghost function SignOf(x: int): string {
    if x < 0 then "-" else ""
  }

  /** The text of the magnitude at the end of the buffer. */
  method WriteMagnitude(cache: DivisorCache, big1: Big, upperCase: bool, result: array<char>, ghost text: string)
    returns (pos: int)
    requires big1.Canonical() && cache.Valid()
    requires text == MagnitudeText(big1.Value(), big1.size, cache.base, upperCase, result.Length)
    requires |text| <= result.Length
    modifies cache`divisors, result
    ensures cache.Valid()
    ensures pos + 1 == result.Length - |text| && result[pos + 1..] == text
  {
    ghost var h := result[..];
    var unsigned_big := CopyOfMagnitude(big1);
    var exponent := HighestBit(result.Length) + 1;
    pos := BinaryRadix2To36(cache, unsigned_big, result, upperCase, exponent, false, result.Length - 1);
    WrittenAtEnd(h, text);
    assert result[pos + 1..] == result[..][pos + 1..];
  }

  /** The same in a new buffer of result_size characters. */
  method NewMagnitude(cache: DivisorCache, big1: Big, upperCase: bool, result_size: nat, ghost text: string)
    returns (result: array<char>, pos: int)
    requires big1.Canonical() && cache.Valid()
    requires text == MagnitudeText(big1.Value(), big1.size, cache.base, upperCase, result_size)
    requires |text| <= result_size
    modifies cache`divisors
    ensures cache.Valid() && fresh(result) && result.Length == result_size
    ensures pos + 1 == result.Length - |text| && result[pos + 1..] == text
  {
    result := new char[result_size];
    pos := WriteMagnitude(cache, big1, upperCase, result, text);
  }

  lemma SignIs(big1: Big)
    requires big1.Valid()
    ensures SignOf(big1.Value()) == if big1.Negative() then "-" else ""
  {
    SValRange(big1.Digits());
  }

  /** The common part of bigStrDecimal and bigRadix2To36. */
  method RadixString(cache: DivisorCache, big1: Big, upperCase: bool, result_size: nat) returns (stri: string)
    requires big1.Canonical() && cache.Valid()
    requires |MagnitudeText(big1.Value(), big1.size, cache.base, upperCase, result_size)| + |SignOf(big1.Value())|
          <= result_size
    modifies cache`divisors
    ensures cache.Valid()
    ensures stri == SignOf(old(big1.Value()))
                  + MagnitudeText(old(big1.Value()), big1.size, cache.base, upperCase, result_size)
  {
    ghost var x := big1.Value();
    ghost var text := MagnitudeText(x, big1.size, cache.base, upperCase, result_size);
    var negative := big1.Negative();
    SignIs(big1);
    var result, pos := NewMagnitude(cache, big1, upperCase, result_size, text);
    label Written:
    stri := MoveToFront(result, pos + 1, negative, text);
    assert unchanged@Written(cache, cache.divisors, cache.DigitBuffers());
  }

  lemma BitBelowBase(base: int)
    requires Base(base)
    ensures HighestBit(base) > 0 && Pow2(HighestBit(base)) <= base
  {
    HighestBitRange(base);
    assert Pow2(1) == 2;
  }
}
