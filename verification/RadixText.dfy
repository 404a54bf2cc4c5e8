/** How many characters the printers of src/big_rtl.c write, also for the numbers
    that they do not print as they should be. */
module RadixText {
  import opened Digits
  import opened Bits
  import opened DivisionLaws
  import opened ShiftLaws
  import opened Exponentiation
  import opened PowerBounds
  import opened Numerals
  import opened PrintedText

  // ------------------------------------------------ digits read as unsigned

  lemma {:induction false} WidthIsLeast(v: int)
    requires v < 0 && Width(v) >= 2
    ensures v < -SignWeight(Width(v) - 1)
    decreases -v
  {
    if Width(v) > 2 {
      WidthIsLeast(v / 0x1_0000_0000);
    }
  }

  lemma {:induction false} WidthAtMost(v: int, bits: nat)
    requires v < 0 && -v <= Pow2(bits)
    ensures Width(v) <= bits / 32 + 1
  {
    var k := Width(v);
    if k >= 2 {
      WidthIsLeast(v);
      SignWeightIsPower(k - 1);
      ExponentLess(32 * (k - 1) - 1, bits);
    }
  }

  /** Reading a number as unsigned needs at most as many digits as there are bits for. */
  lemma {:induction false} ReadingAtMost(v: int, bits: nat)
    requires v <= 0 && -v <= Pow2(bits)
    ensures 0 <= Reading(v) < Pow2(32 * (bits / 32 + 1))
  {
    ReadingNonneg(v);
    if v < 0 {
      WidthAtMost(v, bits);
      Pow2Radix(Width(v));
      Pow2Mono(32 * Width(v), 32 * (bits / 32 + 1));
    }
  }

  /** It is less than 2 ^ 33 times the magnitude, or has one digit. */
  lemma {:induction false} ReadingFactor(v: int)
    requires v <= 0
    ensures Reading(v) < 0x1_0000_0000 || Reading(v) < 0x2_0000_0000 * -v
  {
    if v < 0 {
      var k := Width(v);
      if k == 1 {
        assert Radix(1) == 0x1_0000_0000;
      } else {
        WidthIsLeast(v);
        assert Radix(k) == 0x1_0000_0000 * Radix(k - 1);
        if k > 2 {
          assert Radix(k - 1) == 0x1_0000_0000 * Radix(k - 2);
        }
      }
    }
  }

  // ------------------------------------------------------- lengths of numerals

  lemma {:induction false} NumeralBelow(m: nat, base: int, w: nat, upperCase: bool)
    requires Base(base) && w >= 1 && m < Pow(base, w)
    ensures |Numeral(m, base, upperCase)| <= w
  {
    PaddedNumeral(m, base, w, upperCase);
  }

  lemma {:induction false} NumeralFrom(m: nat, base: int, w: nat, upperCase: bool)
    requires Base(base) && Pow(base, w) <= m
    ensures |Numeral(m, base, upperCase)| > w
  {
    var n := Numeral(m, base, upperCase);
    NumeralValue(m, base, upperCase);
    DigitsBound(n, base);
    if |n| <= w {
      PowGrows(base, |n|, w);
    }
  }

  /** A base that is at least 2 ^ h needs one digit for h bits. */
  lemma {:induction false} NumeralOfBits(m: nat, base: int, h: nat, bits: nat, upperCase: bool)
    requires Base(base) && h >= 1 && Pow2(h) <= base && bits >= 1 && m < Pow2(bits)
    ensures h * |Numeral(m, base, upperCase)| <= bits + h - 1
  {
    var w := (bits + h - 1) / h;
    DivMod(bits + h - 1, h);
    FloorBound(bits + h - 1, h, 1);
    Pow2Mono(bits, h * w);
    PowOfTwo(h, w);
    PowBaseMono(Pow2(h), base, w);
    NumeralBelow(m, base, w, upperCase);
    MulLe(|Numeral(m, base, upperCase)|, w, h, h);
  }

  // ------------------------------------------------------- lengths of the text

  /** The parts below base ^ 256 have at most p characters. */
  ghost predicate ShortLeaves(base: int, p: nat, upperCase: bool)
    requires Base(base)
  {
    forall v :: v <= 0 && -v < Pow(base, Pow2(8)) ==> |LeafText(v, base, 8, true, upperCase)| <= p
  }

  lemma {:induction false} LeafLength(v: int, base: int, w: nat, e: nat, upperCase: bool)
    requires Base(base) && v <= 0 && -v < Pow(base, w) && w == Pow2(8)
    requires 0x2_0000_0000 <= Pow(base, e)
    ensures |LeafText(v, base, 8, true, upperCase)| <= w + e
  {
    ReadingNonneg(v);
    ReadingFactor(v);
    PowAdd(base, e, w);
    PowGrows(base, 0, w);
    PowGrows(base, 0, e);
    MulLe(0x2_0000_0000, Pow(base, e), -v, Pow(base, w));
    MulLe(Pow(base, e), Pow(base, e), 1, Pow(base, w));
    LargerLeaf(-v, Pow(base, w), Pow(base, e));
    assert e + w == w + e;
    NumeralBelow(Reading(v), base, w + e, upperCase);
  }

  lemma LargerLeaf(m: int, d: int, f: int)
    requires 0 <= m < d && f > 0
    ensures f * m < f * d
  {
    MulDistr(m, d - m, f);
    MulLe(1, f, 1, d - m);
  }

  lemma {:induction false} AllLeaves(base: int, e: nat, upperCase: bool)
    requires Base(base) && 0x2_0000_0000 <= Pow(base, e)
    ensures ShortLeaves(base, 256 + e, upperCase)
  {
    assert Pow2(8) == 256;
    forall v | v <= 0 && -v < Pow(base, Pow2(8)) ensures |LeafText(v, base, 8, true, upperCase)| <= 256 + e {
      LeafLength(v, base, Pow2(8), e, upperCase);
    }
  }

  /** The same from the number of digits that a part has. */
  lemma {:induction false} LeavesOfDigits(base: int, digits: nat, p: nat, upperCase: bool)
    requires Base(base) && p >= 256 && digits >= 1
    requires Pow(base, Pow2(8)) <= Pow2(32 * digits - 1) && Pow2(32 * digits) <= Pow(base, p)
    ensures ShortLeaves(base, p, upperCase)
  {
    assert Pow2(8) == 256;
    forall v | v <= 0 && -v < Pow(base, Pow2(8)) ensures |LeafText(v, base, 8, true, upperCase)| <= p {
      ReadingAtMost(v, 32 * digits - 1);
      assert (32 * digits - 1) / 32 + 1 == digits;
      NumeralBelow(Reading(v), base, p, upperCase);
    }
  }

  lemma {:induction false} PaddedLength(v: int, base: int, exponent: nat, p: nat, upperCase: bool)
    requires Base(base) && ShortLeaves(base, p, upperCase)
    requires v <= 0 && exponent >= 8 && -v < Pow(base, Pow2(exponent))
    ensures |WrittenText(v, base, exponent, true, upperCase)| <= p * Pow2(exponent - 8)
    decreases exponent
  {
    if exponent > 8 {
      var d := Pow(base, Pow2(exponent - 1));
      HalvesFit(v, base, exponent - 1, d);
      PaddedLength(TruncDiv(v, d), base, exponent - 1, p, upperCase);
      PaddedLength(TruncRem(v, d), base, exponent - 1, p, upperCase);
      MulSwap(p, 2, Pow2(exponent - 9));
    }
  }

  lemma {:induction false} HalvesFit(v: int, base: int, exponent: nat, d: int)
    requires Base(base) && v <= 0 && d == Pow(base, Pow2(exponent)) && -v < Pow(base, Pow2(exponent + 1))
    ensures d > 0 && -d < TruncDiv(v, d) <= 0 && -d < TruncRem(v, d) <= 0
  {
    PowPositive(base, Pow2(exponent));
    TruncatedMagnitudes(v, d);
    SquareOfPower(base, exponent);
    FloorBound(-v, d, d);
  }

  /** The quotient of a step has as many bits less as the divisor has at least. */
  lemma {:induction false} QuotientBits(m: nat, d: int, bits: nat, u: nat)
    requires m <= Pow2(bits) && Pow2(u) <= d && m / d != 0
    ensures u <= bits && 0 < m / d <= Pow2(bits - u)
  {
    var q := m / d;
    FloorBound(m, d, 1);
    ExponentAtMost(u, bits);
    Pow2Add(bits - u, u);
    FloorBound(m, d, q);
    if q > Pow2(bits - u) {
      MulLe(Pow2(bits - u) + 1, q, Pow2(u), d);
      MulDistr(Pow2(bits - u), 1, Pow2(u));
    }
  }

  /** A text of 'length' characters consists of parts for which there is 'room', and before
      them of what is left of a number when its bits are used up but for 'left' of them. */
  ghost predicate Shape(length: int, left: int, room: int, leaf: int, base: int, upperCase: bool)
    requires Base(base)
  {
    && leaf <= 0 <= left && -leaf <= Pow2(left) && Reading(leaf) >= 0
    && length <= room + |Numeral(Reading(leaf), base, upperCase)|
  }

  lemma {:induction false} ShapeNext(length: int, left: int, room: int, leaf: int, base: int, upperCase: bool, low: int,
                                     more: int, whole: int)
    requires Base(base) && Shape(length, left, room, leaf, base, upperCase) && low <= more && whole == length + low
    ensures Shape(whole, left, room + more, leaf, base, upperCase)
  {
  }

  lemma {:induction false} ShapeStart(v: int, bits: nat, base: int, upperCase: bool)
    requires Base(base) && v <= 0 && -v <= Pow2(bits)
    ensures Shape(|WrittenText(v, base, 8, false, upperCase)|, bits, 0, v, base, upperCase)
  {
    ReadingNonneg(v);
  }

  lemma MoreParts(t: int, p: int, k: int, parts: int, bits: int, used: int, more: int, left: int, room: int)
    requires used == t * parts && more == p * parts && left == bits - used - t * k && room == p * k
    ensures left == bits - t * (k + parts) && room + more == p * (k + parts)
  {
    MulDistr(k, parts, t);
    MulDistr(k, parts, p);
  }

  lemma {:induction false} SplitLength(v: int, base: int, exponent: nat, p: nat, upperCase: bool, d: int, more: int)
    requires Base(base) && ShortLeaves(base, p, upperCase) && v <= 0 && exponent >= 8
    requires d == Pow(base, Pow2(exponent)) > 0 && TruncDiv(v, d) != 0 && more == p * Pow2(exponent - 8)
    ensures |WrittenText(TruncRem(v, d), base, exponent, true, upperCase)| <= more
    ensures |WrittenText(v, base, exponent + 1, false, upperCase)|
         == |WrittenText(TruncDiv(v, d), base, exponent, false, upperCase)|
            + |WrittenText(TruncRem(v, d), base, exponent, true, upperCase)|
  {
    TruncatedMagnitudes(v, d);
    PaddedLength(TruncRem(v, d), base, exponent, p, upperCase);
  }

  lemma {:induction false} QuotientFits(v: int, base: int, exponent: nat, t: nat, bits: nat, d: int, used: int)
    requires Base(base) && Pow2(t) <= Pow(base, Pow2(8)) && v <= 0 && -v <= Pow2(bits) && exponent >= 8
    requires d == Pow(base, Pow2(exponent)) > 0 && TruncDiv(v, d) != 0 && used == t * Pow2(exponent - 8)
    ensures 0 <= used <= bits && TruncDiv(v, d) <= 0 && -TruncDiv(v, d) <= Pow2(bits - used)
  {
    TruncatedMagnitudes(v, d);
    DivisorBits(base, exponent, t);
    MulLe(0, t, 0, Pow2(exponent - 8));
    QuotientBits(-v, d, bits, t * Pow2(exponent - 8));
  }

  /** There are k parts, with p characters and t bits for each. */
  lemma {:induction false} UnpaddedShape(v: int, base: int, exponent: nat, t: nat, p: nat, bits: nat, upperCase: bool)
    returns (k: nat, left: int, room: int, leaf: int)
    requires Base(base) && ShortLeaves(base, p, upperCase) && Pow2(t) <= Pow(base, Pow2(8))
    requires v <= 0 && exponent >= 8 && -v <= Pow2(bits)
    ensures Shape(|WrittenText(v, base, exponent, false, upperCase)|, left, room, leaf, base, upperCase)
    ensures left == bits - t * k && room == p * k
    decreases exponent, 0
  {
    if exponent == 8 {
      ShapeStart(v, bits, base, upperCase);
      return 0, bits, 0, v;
    }
    var d := Pow(base, Pow2(exponent - 1));
    PowPositive(base, Pow2(exponent - 1));
    if TruncDiv(v, d) == 0 {
      TruncatedMagnitudes(v, d);
      k, left, room, leaf := UnpaddedShape(v, base, exponent - 1, t, p, bits, upperCase);
    } else {
      k, left, room, leaf := SplitShape(v, base, exponent - 1, t, p, bits, upperCase, d);
    }
  }

  lemma {:induction false} SplitShape(v: int, base: int, exponent: nat, t: nat, p: nat, bits: nat, upperCase: bool,
                                      d: int)
    returns (k: nat, left: int, room: int, leaf: int)
    requires Base(base) && ShortLeaves(base, p, upperCase) && Pow2(t) <= Pow(base, Pow2(8))
    requires v <= 0 && exponent >= 8 && -v <= Pow2(bits)
    requires d == Pow(base, Pow2(exponent)) > 0 && TruncDiv(v, d) != 0
    ensures Shape(|WrittenText(v, base, exponent + 1, false, upperCase)|, left, room, leaf, base, upperCase)
    ensures left == bits - t * k && room == p * k
    decreases exponent, 1
  {
    var q, parts := TruncDiv(v, d), Pow2(exponent - 8);
    var used, more := t * parts, p * parts;
    QuotientFits(v, base, exponent, t, bits, d, used);
    SplitLength(v, base, exponent, p, upperCase, d, more);
    var k', room';
    k', left, room', leaf := UnpaddedShape(q, base, exponent, t, p, bits - used, upperCase);
    k, room := k' + parts, room' + more;
    MoreParts(t, p, k', parts, bits, used, more, left, room');
    ShapeNext(|WrittenText(q, base, exponent, false, upperCase)|, left, room', leaf, base, upperCase,
              |WrittenText(TruncRem(v, d), base, exponent, true, upperCase)|, more,
              |WrittenText(v, base, exponent + 1, false, upperCase)|);
  }

  /** The divisor of a step is a power of base ^ 256. */
  lemma {:induction false} DivisorBits(base: int, exponent: nat, t: nat)
    requires exponent >= 8 && Pow2(t) <= Pow(base, Pow2(8))
    ensures Pow2(t * Pow2(exponent - 8)) <= Pow(base, Pow2(exponent))
  {
    PowerAtLeast(base, Pow2(8), t, Pow2(exponent - 8));
    Pow2Add(8, exponent - 8);
  }

  // ------------------------------------------------- the bases with enough room

  /** Parts that are not longer than their bits, and the text of -2 ^ (32 n - 1). */
  lemma {:induction false} PartsFit(length: int, n: nat, used: int, room: int, leaf: int, base: int, h: nat,
                                    upperCase: bool)
    requires Base(base) && n > 0 && h >= 1 && Pow2(h) <= base && used >= 0
    requires Shape(length, 32 * n - 1 - used, room, leaf, base, upperCase) && h * room <= 32 * (used / 32)
    ensures h * length <= 32 * n - 1 + h
  {
    var left := 32 * n - 1 - used;
    ReadingAtMost(leaf, left);
    DigitsLeft(n, used);
    NumeralOfBits(Reading(leaf), base, h, 32 * (left / 32 + 1), upperCase);
    var first := |Numeral(Reading(leaf), base, upperCase)|;
    MulLe0(length, room + first, h);
    MulDistr(room, first, h);
  }

  lemma DigitsLeft(n: int, x: int)
    requires 0 <= x <= 32 * n - 1
    ensures (32 * n - 1 - x) / 32 + 1 == n - x / 32 >= 1
  {
  }

  lemma PartsBalance(h: int, p: int, w: int, k: int)
    requires k >= 0 && h * p <= 32 * w
    ensures h * (p * k) <= 32 * ((32 * w * k) / 32)
  {
    MulAssoc(h, p, k);
    MulLe0(h * p, 32 * w, k);
    MulAssoc(32, w, k);
  }

  lemma {:induction false} EnoughRoom(n: nat, base: int, exponent: nat, h: nat, w: nat, p: nat, upperCase: bool)
    requires Base(base) && ShortLeaves(base, p, upperCase) && n > 0 && exponent >= 8 && h >= 1 && Pow2(h) <= base
    requires Pow2(32 * w) <= Pow(base, Pow2(8)) && h * p <= 32 * w
    ensures h * |WrittenText(-SignWeight(n), base, exponent, false, upperCase)| <= 32 * n - 1 + h
  {
    SignWeightIsPower(n);
    var k, left, room, leaf := UnpaddedShape(-SignWeight(n), base, exponent, 32 * w, p, 32 * n - 1, upperCase);
    PartsBalance(h, p, w, k);
    MulLe(0, 32 * w, 0, k);
    PartsFit(|WrittenText(-SignWeight(n), base, exponent, false, upperCase)|, n, 32 * n - 1 - left, room, leaf, base, h,
             upperCase);
  }

  /** The bases whose digits are estimated too short for the numbers that are not printed. */
  predicate TightBase(base: int) {
    base == 17 || base == 33 || base == 34 || base == 35
  }

  lemma {:induction false} AtLeast256(base: int, a: nat, c: nat, k: nat, bits: nat)
    requires Pow2(c) <= Pow(base, a) && a * k == Pow2(8) && bits <= c * k
    ensures Pow2(bits) <= Pow(base, Pow2(8))
  {
    AtLeastPower(base, a, c, k, bits, Pow2(8));
  }

  lemma {:induction false} AtLeastPower(base: int, a: nat, c: nat, k: nat, bits: nat, p: nat)
    requires Pow2(c) <= Pow(base, a) && a * k == p && bits <= c * k
    ensures Pow2(bits) <= Pow(base, p)
  {
    PowerAtLeast(base, a, c, k);
    Pow2Mono(bits, c * k);
  }

  lemma {:induction false} AtLeastSum(base: int, a: nat, c: nat, k: nat, a': nat, c': nat, bits: nat, p: nat)
    requires Pow2(c) <= Pow(base, a) && Pow2(c') <= Pow(base, a') && a * k + a' == p && bits <= c * k + c'
    ensures Pow2(bits) <= Pow(base, p)
  {
    PowerAtLeast(base, a, c, k);
    ProductAtLeast(base, a * k, c * k, a', c');
    Pow2Mono(bits, c * k + c');
  }

  lemma {:induction false} AtMost256(base: int, a: nat, c: nat, k: nat, bits: nat)
    requires 0 <= Pow(base, a) <= Pow2(c) && a * k == Pow2(8) && c * k <= bits
    ensures 0 <= Pow(base, Pow2(8)) <= Pow2(bits)
  {
    PowerAtMost(base, a, c, k);
    Pow2Mono(c * k, bits);
  }

  /** Each part of the text has p characters at most, and the base at least w digits for it. */
  ghost predicate Roomy(base: int, h: nat, w: nat, p: nat, upperCase: bool)
    requires Base(base)
  {
    && ShortLeaves(base, p, upperCase) && Pow2(32 * w) <= Pow(base, Pow2(8))
    && h >= 1 && Pow2(h) <= base < Pow2(h + 1) && h * p <= 32 * w
  }

  lemma {:induction false} Base3(base: int, upperCase: bool)
    requires base == 3
    ensures Roomy(base, 1, 9, 277, upperCase)
  {
    assert Pow2(8) == 256 && Pow2(1) == 2 && Pow2(2) == 4 && Pow2(3) == 8;
    assert Pow(base, 10) == 59049;
    Doubled(base, 10, 59049);
    AllLeaves(base, 21, upperCase);
    assert Pow(base, 2) == 9;
    AtLeast256(base, 2, 3, 128, 288);
  }

  lemma {:induction false} Bases5To7(base: int, upperCase: bool)
    requires 5 <= base <= 7
    ensures Roomy(base, 2, 17, 271, upperCase)
  {
    assert Pow2(8) == 256 && Pow2(2) == 4 && Pow2(3) == 8 && Pow2(9) == 512;
    assert Pow(5, 15) == 30517578125;
    PowBaseMono(5, base, 15);
    AllLeaves(base, 15, upperCase);
    assert Pow(5, 4) == 625;
    PowBaseMono(5, base, 4);
    AtLeast256(base, 4, 9, 64, 544);
  }

  lemma {:induction false} Bases10To15(base: int, upperCase: bool)
    requires 10 <= base <= 15
    ensures Roomy(base, 3, 26, 267, upperCase)
  {
    assert Pow2(8) == 256 && Pow2(3) == 8 && Pow2(4) == 16 && Pow2(13) == 8192;
    assert Pow(10, 11) == 100000000000;
    PowBaseMono(10, base, 11);
    AllLeaves(base, 11, upperCase);
    assert Pow(10, 4) == 10000;
    PowBaseMono(10, base, 4);
    AtLeast256(base, 4, 13, 64, 832);
  }

  lemma {:induction false} Bases18To31(base: int, upperCase: bool)
    requires 18 <= base <= 31
    ensures Roomy(base, 4, 33, 264, upperCase)
  {
    assert Pow2(8) == 256 && Pow2(4) == 16 && Pow2(5) == 32;
    Pow2Of32();
    assert Pow2(33) == 0x2_0000_0000;
    assert Pow(18, 8) == 11019960576;
    PowBaseMono(18, base, 8);
    AllLeaves(base, 8, upperCase);
    AtLeast256(base, 8, 33, 32, 1056);
  }

  lemma {:induction false} Base9(base: int, digits: nat, p: nat, upperCase: bool)
    requires base == 9 && digits == 26 && p == 264
    ensures Roomy(base, 3, 25, p, upperCase)
  {
    assert Pow2(3) == 8 && Pow2(4) == 16;
    Base9Bounds(base, digits, p);
    LeavesOfDigits(base, digits, p, upperCase);
  }

  lemma {:induction false} Base9Bounds(base: int, digits: nat, p: nat)
    requires base == 9 && digits == 26 && p == 264
    ensures Pow2(32 * (digits - 1)) <= Pow(base, Pow2(8)) <= Pow2(32 * digits - 1)
    ensures Pow2(32 * digits) <= Pow(base, p)
  {
    assert Pow2(8) == 256;
    Base9Powers(base);
    AtLeast256(base, 8, 25, 32, 32 * (digits - 1));
    AtMost256(base, 16, 51, 16, 32 * digits - 1);
    AtLeastPower(base, 6, 19, 44, 32 * digits, p);
  }

  lemma {:induction false} Base9Powers(base: int)
    requires base == 9
    ensures Pow2(25) <= Pow(base, 8) && 0 <= Pow(base, 16) <= Pow2(51) && Pow2(19) <= Pow(base, 6)
  {
    SmallPowersOf2();
    Pow2Add(32, 19);
    assert Pow(base, 3) == 729 && Pow(base, 4) == 6561;
    Doubled(base, 3, 729);
    Doubled(base, 4, 6561);
    Doubled(base, 8, 43046721);
  }

  lemma {:induction false} Base36(base: int, digits: nat, p: nat, upperCase: bool)
    requires base == 36 && digits == 42 && p == 262
    ensures Roomy(base, 5, 41, p, upperCase)
  {
    assert Pow2(8) == 256 && Pow2(5) == 32 && Pow2(6) == 64;
    Base36AtLeast(base, digits - 1);
    Base36AtMost(base, 32 * digits - 1);
    Base36Leaf(base, digits, p);
    LeavesOfDigits(base, digits, p, upperCase);
  }

  lemma {:induction false} Base36AtLeast(base: int, digits: nat)
    requires base == 36 && digits == 41
    ensures Pow2(32 * digits) <= Pow(base, Pow2(8))
  {
    assert Pow2(8) == 256;
    Base36Powers(base);
    AtLeast256(base, 8, 41, 32, 32 * digits);
  }

  lemma {:induction false} Base36AtMost(base: int, bits: nat)
    requires base == 36 && bits == 1343
    ensures 0 <= Pow(base, Pow2(8)) <= Pow2(bits)
  {
    assert Pow2(8) == 256;
    Base36Powers(base);
    AtMost256(base, 16, 83, 16, bits);
  }

  lemma {:induction false} Base36Leaf(base: int, digits: nat, p: nat)
    requires base == 36 && digits == 42 && p == 262
    ensures Pow2(32 * digits) <= Pow(base, p)
  {
    Base36Powers(base);
    AtLeastSum(base, 12, 62, 21, 10, 51, 32 * digits, p);
  }

  lemma {:induction false} Base36Powers(base: int)
    requires base == 36
    ensures Pow2(41) <= Pow(base, 8) && 0 <= Pow(base, 16) <= Pow2(83)
    ensures Pow2(62) <= Pow(base, 12) && Pow2(51) <= Pow(base, 10)
  {
    SmallPowersOf2();
    Pow2Add(32, 9);
    Pow2Add(32, 19);
    Pow2Add(32, 30);
    Pow2Add(41, 41);
    assert Pow(base, 4) == 1679616;
    PowAdd(base, 4, 4);
    PowAdd(base, 8, 4);
    PowAdd(base, 8, 2);
    assert Pow(base, 2) == 1296;
    Doubled(base, 8, 2821109907456);
  }

  /** In all the other bases there is room for the text of -2 ^ (32 n - 1). */
  lemma {:induction false} RoomInBase(n: nat, base: int, exponent: nat, h: nat, upperCase: bool)
    requires Base(base) && !PowerOfTwoBase(base) && !TightBase(base) && n > 0 && exponent >= 8
    requires Pow2(h) <= base < Pow2(h + 1)
    ensures h * |WrittenText(-SignWeight(n), base, exponent, false, upperCase)| <= 32 * n - 1 + h
  {
    if base == 3 {
      Base3(base, upperCase);
      RoomyBase(n, base, exponent, h, 1, 9, 277, upperCase);
    } else if base <= 7 {
      Bases5To7(base, upperCase);
      RoomyBase(n, base, exponent, h, 2, 17, 271, upperCase);
    } else if base == 9 {
      Base9(base, 26, 264, upperCase);
      RoomyBase(n, base, exponent, h, 3, 25, 264, upperCase);
    } else if base <= 15 {
      Bases10To15(base, upperCase);
      RoomyBase(n, base, exponent, h, 3, 26, 267, upperCase);
    } else if base <= 31 {
      Bases18To31(base, upperCase);
      RoomyBase(n, base, exponent, h, 4, 33, 264, upperCase);
    } else {
      Base36(base, 42, 262, upperCase);
      RoomyBase(n, base, exponent, h, 5, 41, 262, upperCase);
    }
  }

  lemma {:induction false} RoomyBase(n: nat, base: int, exponent: nat, h: nat, h': nat, w: nat, p: nat, upperCase: bool)
    requires Base(base) && n > 0 && exponent >= 8 && Pow2(h) <= base < Pow2(h + 1)
    requires Roomy(base, h', w, p, upperCase)
    ensures h * |WrittenText(-SignWeight(n), base, exponent, false, upperCase)| <= 32 * n - 1 + h
  {
    SameLog(base, h, h');
    EnoughRoom(n, base, exponent, h, w, p, upperCase);
  }

  lemma {:induction false} SameLog(base: int, h: nat, h': nat)
    requires Pow2(h) <= base < Pow2(h + 1) && Pow2(h') <= base < Pow2(h' + 1)
    ensures h == h'
  {
    ExponentLess(h, h' + 1);
    ExponentLess(h', h + 1);
  }
}
