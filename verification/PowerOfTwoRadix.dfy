/** Parsing in a base that is a power of two (src/big_rtl.c): the
    bits of the digits are regrouped. */
module PowerOfTwoRadix {
  import opened Digits
  import opened Carries
  import opened Bits
  import opened BigRecord
  import opened ShiftLaws
  import opened Exponentiation
  import opened Numerals
  import opened BigParse

  /** The base 2 ^ shift. */
  ghost predicate RadixShift(base: int, shift: nat) {
    1 <= shift <= 5 && base == Pow2(shift)
  }

  lemma ShiftedBases(base: int, shift: nat)
    requires RadixShift(base, shift)
    ensures Base(base) && PowerOfTwoBase(base)
  {
    assert Pow2(1) == 2 && Pow2(2) == 4 && Pow2(3) == 8 && Pow2(4) == 16 && Pow2(5) == 32;
  }

  // ----------------------------------------------------------------- parsing

  /** The characters from charPos on have been read: their bits are the digits
      below 'pos' and the lowest 'shift' bits of bigDigit. */
  ghost predicate BitsRead(stri: string, charPos: nat, base: int, out: seq<Digit>, bigDigit: int, shift: nat) {
    && charPos <= |stri| && IsDigits(stri[charPos..], base)
    && Stands(out, bigDigit, DigitsValue(stri[charPos..], base))
    && 0 <= bigDigit < Pow2(shift)
    && Pow(base, |stri| - charPos) == Pow2(32 * |out| + shift)
  }

  lemma ShiftedBits(d: int, s: nat, n: nat)
    ensures Shl(d * Pow2(s), n) == d * Pow2(32 * n + s)
  {
    ShlRadix(d * Pow2(s), n);
    Pow2Radix(n);
    Pow2Add(32 * n, s);
    MulAssoc(d, Pow2(s), Pow2(32 * n));
  }

  /** bigDigit | digitval << shift */
  lemma NextAccumulator(bigDigit: int, digitval: int, shift: nat, base: int, step: nat)
    requires RadixShift(base, step) && 0 <= bigDigit < Pow2(shift) && 0 <= digitval < base && shift < 32
    ensures Or(bigDigit, digitval * Pow2(shift)) == bigDigit + digitval * Pow2(shift) < Pow2(shift + step)
    ensures Or(bigDigit, digitval * Pow2(shift)) <= 0xFFFF_FFFF_FFFF_FFFF
  {
    OrDisjoint(bigDigit, digitval, shift);
    MulLe(digitval, base - 1, Pow2(shift), Pow2(shift));
    MulDistr(base, 1, Pow2(shift));
    Pow2Add(step, shift);
    Pow2Mono(shift + step, 64);
    Pow2Of32();
    Pow2Add(32, 32);
  }

  lemma BitsReadNext(stri: string, charPos: nat, base: int, out: seq<Digit>, bigDigit: int, shift: nat, step: nat,
                     digitval: int)
    requires RadixShift(base, step) && 0 < charPos && BitsRead(stri, charPos, base, out, bigDigit, shift) && shift < 32
    requires digitval == CharValue(stri[charPos - 1]) < base
    ensures Or(bigDigit, digitval * Pow2(shift)) <= 0xFFFF_FFFF_FFFF_FFFF
    ensures BitsRead(stri, charPos - 1, base, out, Or(bigDigit, digitval * Pow2(shift)), shift + step)
  {
    var t := stri[charPos..];
    var c := stri[charPos - 1];
    assert stri[charPos - 1..] == [c] + t;
    NextAccumulator(bigDigit, digitval, shift, base, step);
    DigitsConcat([c], t, base);
    DigitsSnoc([], c, base);
    LastDigitIs([], c, base);
    ShlAdd(bigDigit, digitval * Pow2(shift), |out|);
    ShiftedBits(digitval, shift, |out|);
    Pow2Add(step, 32 * |out| + shift);
  }

  /** A full digit is stored. */
  lemma DigitStored(stri: string, charPos: nat, base: int, out: seq<Digit>, bigDigit: Double, shift: nat)
    requires shift >= 32 && BitsRead(stri, charPos, base, out, bigDigit, shift)
    ensures BitsRead(stri, charPos, base, out + [bigDigit % 0x1_0000_0000], bigDigit / 0x1_0000_0000, shift - 32)
  {
    ghost var v := DigitsValue(stri[charPos..], base);
    ShlOne(|out|);
    Round(out, bigDigit, v, 0);
    Pow2Of32();
    Pow2Add(32, shift - 32);
  }

  /** The number of digits for the characters of the string. */
  method DigitsNecessary(stri: string, start: nat, base: int, shift: nat) returns (result_size: nat)
    requires RadixShift(base, shift) && start < |stri|
    ensures var bits := (|stri| - start) * shift;
      bits > 0 && result_size * 32 >= bits
      && (IsDigits(stri[start..], base) ==> DigitsValue(stri[start..], base) < SignWeight(result_size))
  {
    var bits_necessary := (|stri| - start) * shift;
    MulLe(1, |stri| - start, 1, shift);
    result_size := (bits_necessary - 1) / 32 + 1;
    var digitval := CharValue(stri[start]);
    if bits_necessary % 32 == 0 {
      if digitval < base && Shr(digitval, shift - 1) % 2 == 1 {
        result_size := result_size + 1;
      }
    }
    ghost var s := stri[start..];
    if IsDigits(s, base) {
      ShiftedBases(base, shift);
      DigitsBound(s, base);
      PowOfTwo(shift, |s|);
      SignWeightIsPower(result_size);
      if bits_necessary > 32 * result_size - 1 {
        TopBitClear(s, base, shift);
      } else {
        Pow2Mono(bits_necessary, 32 * result_size - 1);
      }
    }
  }

  lemma FirstCharacter(s: string, base: int)
    requires |s| > 0
    ensures DigitsValue(s, base) == CharValue(s[0]) * Pow(base, |s| - 1) + DigitsValue(s[1..], base)
    ensures IsDigits(s, base) ==> IsDigits(s[1..], base)
  {
    assert s == [s[0]] + s[1..];
    DigitsConcat([s[0]], s[1..], base);
    DigitsSnoc([], s[0], base);
    assert [] + [s[0]] == [s[0]];
  }

  lemma BelowHalf(x: int, v: int, h: int, p: int, d: int, w: int)
    requires x == v * p + d && 0 <= v < h && 0 <= d < p && w == p * h
    ensures x < w
  {
    MulLe(v, h - 1, p, p);
    MulDistr(h, 1, p);
  }

  /** If the highest bit of the first character is clear, the value needs one
      bit less. */
  lemma TopBitClear(s: string, base: int, shift: nat)
    requires RadixShift(base, shift) && |s| > 0 && IsDigits(s, base) && Shr(CharValue(s[0]), shift - 1) % 2 == 0
    ensures |s| * shift >= 1 && DigitsValue(s, base) < Pow2(|s| * shift - 1)
  {
    var v, h, n := CharValue(s[0]), Pow2(shift - 1), |s| - 1;
    FirstCharacter(s, base);
    assert 0 <= DigitsValue(s[1..], base) < Pow(base, n) by {
      ShiftedBases(base, shift);
      DigitsBound(s[1..], base);
    }
    assert v < h by {
      ShrMeans(v, shift - 1);
      HalfOfBase(v, h);
    }
    HalfWeight(base, shift, n);
    BelowHalf(DigitsValue(s, base), v, h, Pow(base, n), DigitsValue(s[1..], base), Pow(base, n) * h);
  }

  lemma HalfWeight(base: int, shift: nat, n: nat)
    requires RadixShift(base, shift)
    ensures (n + 1) * shift >= 1 && Pow(base, n) * Pow2(shift - 1) == Pow2((n + 1) * shift - 1)
  {
    PowOfTwo(shift, n);
    MulDistr(n, 1, shift);
    MulLe(0, n, 0, shift);
    Pow2Add(shift * n, shift - 1);
  }

  lemma HalfOfBase(v: int, h: int)
    requires 0 <= v < 2 * h && (v / h) % 2 == 0
    ensures v < h
  {
    DivMod(v, h);
    FloorBound(v, h, 1);
    FloorBound(v, h, 2);
  }

  /** Adds the bits of the character before charPos to bigDigit. */
  method ReadCharacter(stri: string, charPos: nat, base: int, shift: nat, ghost out: seq<Digit>,
                       bigDigit0: Double, bit_shift: nat)
    returns (okay: bool, bigDigit: Double)
    requires RadixShift(base, shift) && 0 < charPos && bit_shift < 32
    requires BitsRead(stri, charPos, base, out, bigDigit0, bit_shift)
    ensures okay <==> CharValue(stri[charPos - 1]) < base
    ensures okay ==> BitsRead(stri, charPos - 1, base, out, bigDigit, bit_shift + shift)
  {
    bigDigit := bigDigit0;
    var digitval := CharValue(stri[charPos - 1]);
    okay := digitval < base;
    if okay {
      BitsReadNext(stri, charPos, base, out, bigDigit, bit_shift, shift, digitval);
      bigDigit := Or(bigDigit, digitval * Pow2(bit_shift));
    }
  }

  /** Stores the low digit of bigDigit if it is complete. */
  method StoreDigit(d: array<Digit>, ghost stri: string, ghost charPos: nat, ghost base: int, ghost okay: bool,
                    bigDigit0: Double, bigDigitPos0: nat, bit_shift0: nat)
    returns (bigDigit: Double, bigDigitPos: nat, bit_shift: nat)
    requires 32 * bigDigitPos0 + bit_shift0 <= 32 * d.Length && bit_shift0 < 64
    requires okay ==> BitsRead(stri, charPos, base, d[..bigDigitPos0], bigDigit0, bit_shift0)
    modifies d
    ensures bit_shift < 32 && 32 * bigDigitPos + bit_shift == 32 * bigDigitPos0 + bit_shift0
    ensures okay ==> BitsRead(stri, charPos, base, d[..bigDigitPos], bigDigit, bit_shift)
  {
    bigDigit, bigDigitPos, bit_shift := bigDigit0, bigDigitPos0, bit_shift0;
    if bit_shift >= 32 {
      ghost var low := d[..bigDigitPos];
      if okay {
        DigitStored(stri, charPos, base, low, bigDigit, bit_shift);
      }
      d[bigDigitPos] := bigDigit % 0x1_0000_0000;
      assert d[..bigDigitPos + 1] == low + [bigDigit % 0x1_0000_0000];
      bigDigitPos := bigDigitPos + 1;
      bigDigit := bigDigit / 0x1_0000_0000;
      bit_shift := bit_shift - 32;
    }
  }

  lemma BitsOfCharacter(k: nat, n: nat, shift: nat)
    requires k < n
    ensures (k + 1) * shift == k * shift + shift <= n * shift
  {
    MulDistr(k, 1, shift);
    MulLe(k + 1, n, shift, shift);
  }

  /** The loop over the characters, from the last one on. */
  method ReadBits(stri: string, start: nat, base: int, shift: nat, d: array<Digit>)
    returns (okay: bool, bigDigit: Double, bigDigitPos: nat, ghost bigDigitShift: nat)
    requires RadixShift(base, shift) && start < |stri| && d.Length * 32 >= (|stri| - start) * shift
    modifies d
    ensures okay <==> IsDigits(stri[start..], base)
    ensures okay ==> bigDigitPos <= d.Length && bigDigitShift < 32
    ensures okay ==> BitsRead(stri, start, base, d[..bigDigitPos], bigDigit, bigDigitShift)
  {
    okay, bigDigit, bigDigitPos := true, 0, 0;
    var bit_shift := 0;
    var charPos := |stri|;
    assert stri[charPos..] == [];
    while charPos > start && okay
      invariant start <= charPos <= |stri| && 0 <= bit_shift < 32 && bigDigitPos <= d.Length
      invariant 32 * bigDigitPos + bit_shift == (|stri| - charPos) * shift
      invariant okay ==> BitsRead(stri, charPos, base, d[..bigDigitPos], bigDigit, bit_shift)
      invariant !okay ==> !IsDigits(stri[start..], base)
    {
      BitsOfCharacter(|stri| - charPos, |stri| - start, shift);
      okay, bigDigit := ReadCharacter(stri, charPos, base, shift, d[..bigDigitPos], bigDigit, bit_shift);
      charPos := charPos - 1;
      assert stri[start..][charPos - start] == stri[charPos];
      bigDigit, bigDigitPos, bit_shift :=
        StoreDigit(d, stri, charPos, base, okay, bigDigit, bigDigitPos, bit_shift + shift);
    }
    bigDigitShift := bit_shift;
  }

  /** Stores what is left in bigDigit, and zeros above it. */
  method StoreRest(d: array<Digit>, bigDigit0: Double, bigDigitPos0: nat, ghost sum: int)
    requires bigDigitPos0 <= d.Length && Stands(d[..bigDigitPos0], bigDigit0, sum) && bigDigit0 <= 0xFFFF_FFFF
    requires 0 <= sum < Radix(d.Length)
    modifies d
    ensures UVal(d[..]) == sum
  {
    var bigDigit, bigDigitPos := bigDigit0, bigDigitPos0;
    while bigDigitPos < d.Length
      invariant bigDigitPos <= d.Length && 0 <= bigDigit <= 0xFFFF_FFFF
      invariant Stands(d[..bigDigitPos], bigDigit, sum)
    {
      ghost var low := d[..bigDigitPos];
      ShlOne(|low|);
      Round(low, bigDigit, sum, 0);
      d[bigDigitPos] := bigDigit % 0x1_0000_0000;
      assert d[..bigDigitPos + 1] == low + [bigDigit % 0x1_0000_0000];
      bigDigitPos := bigDigitPos + 1;
      bigDigit := bigDigit / 0x1_0000_0000;
    }
    assert d[..d.Length] == d[..];
    NoCarry(d[..], bigDigit);
  }

  method BigParseBasedPow2(stri: string, ghost base: int, shift: nat) returns (result: ParseResult)
    requires RadixShift(base, shift)
    ensures result.Parsed? <==> IsLiteral(stri, base)
    ensures result.Parsed? ==> fresh(result.value) && fresh(result.value.bigdigits) && result.value.Canonical()
    ensures result.Parsed? ==> result.value.Value() == LiteralValue(stri, base)
  {
    var negative, position := false, 0;
    if |stri| != 0 {
      if stri[0] == '-' {
        negative := true;
        position := position + 1;
      } else {
        if stri[0] == '+' {
          position := position + 1;
        }
      }
    }
    assert position == SignLength(stri);
    if position >= |stri| {
      return RangeError;
    }
    ShiftedBases(base, shift);
    var radix := Pow2(shift);
    var result_size := DigitsNecessary(stri, position, radix, shift);
    var big1 := new Big.Alloc(result_size);
    var okay, bigDigit, bigDigitPos;
    ghost var bits;
    okay, bigDigit, bigDigitPos, bits := ReadBits(stri, position, radix, shift, big1.bigdigits);
    if okay {
      ghost var v := DigitsValue(stri[position..], base);
      DigitsBound(stri[position..], base);
      Pow2Mono(bits, 32);
      Pow2Of32();
      StoreRest(big1.bigdigits, bigDigit, bigDigitPos, v);
      assert big1.Digits() == big1.bigdigits[..];
      SignAndNormalize(big1, negative);
      result := Parsed(big1);
    } else {
      result := RangeError;
    }
  }
}
