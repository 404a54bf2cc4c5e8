/** Whether what bigRadix2To36 (src/big_rtl.c) writes stays within its buffer. */
module RadixRoom {
  import opened Digits
  import opened Bits
  import opened ShiftLaws
  import opened Exponentiation
  import opened PowerBounds
  import opened Numerals
  import opened PrintedText
  import opened PrintLimit
  import opened BigPrint
  import opened RadixText
  import opened RadixParts
  import opened LargePowers

  // ------------------------------------------------------- texts that are too long

  lemma {:induction false} ReadingFrom(m: int, w: nat)
    requires m > 0 && w >= 1 && (w == 1 || m > SignWeight(w - 1))
    ensures Reading(-m) >= Radix(w) - m
  {
    WidthFits(-m);
    if Width(-m) < w {
      RadixMono(Width(-m) - 1, w - 2);
    } else {
      RadixMono(w, Width(-m));
    }
  }

  lemma {:induction false} LeafFrom(v: int, base: int, p: nat, zeroPad: bool, upperCase: bool)
    requires Base(base) && Pow(base, p) <= Reading(v)
    ensures |LeafText(v, base, 8, zeroPad, upperCase)| > p
  {
    ReadingNonneg(v);
    NumeralFrom(Reading(v), base, p, upperCase);
  }

  /** The text of -2 ^ (32 n - 1) if it is split once. */
  lemma {:induction false} SplitOnce(n: nat, base: int, exponent: nat, d: int, q: int, r: int, upperCase: bool)
    requires Base(base) && n > 0 && exponent == 9 && d == Pow(base, Pow2(exponent - 1))
    requires SignWeight(n) == q * d + r && 0 <= r < d && q > 0
    ensures |WrittenText(-SignWeight(n), base, exponent, false, upperCase)|
         == |LeafText(-q, base, 8, false, upperCase)| + |LeafText(-r, base, 8, true, upperCase)|
  {
    TruncatedMagnitudes(-SignWeight(n), d);
    assert SignWeight(n) == d * q + r;
    RemainderUnique(SignWeight(n), d, q, r);
  }

  lemma {:induction false} TooLong(n: nat, base: int, exponent: nat, h: nat, d: int, q: int, r: int, c: nat, p: nat,
                                   upperCase: bool)
    requires Base(base) && n > 0 && exponent == 9 && d == Pow(base, Pow2(exponent - 1))
    requires SignWeight(n) == q * d + r && 0 <= r < d && q > 0
    requires Pow(base, c) <= Reading(-q) && Pow(base, p) <= Reading(-r) && h * (c + p + 2) > 32 * n - 1 + h
    ensures h * |WrittenText(-SignWeight(n), base, exponent, false, upperCase)| > 32 * n - 1 + h
  {
    SplitOnce(n, base, exponent, d, q, r, upperCase);
    LeafFrom(-q, base, c, false, upperCase);
    LeafFrom(-r, base, p, true, upperCase);
    TwoLengths(h, c, p, |LeafText(-q, base, 8, false, upperCase)|, |LeafText(-r, base, 8, true, upperCase)|,
               |WrittenText(-SignWeight(n), base, exponent, false, upperCase)|, 32 * n - 1 + h);
  }

  lemma TwoLengths(h: nat, c: int, p: int, first: int, second: int, whole: int, bound: int)
    requires c < first && p < second && whole == first + second && h * (c + p + 2) > bound
    ensures h * whole > bound
  {
    MulLe0(c + p + 2, whole, h);
  }

  // --------------------------------------------------- 2 ^ (32 n - 1) by 17 ^ 256

  lemma NextRemainder(x: int, q: int, d: int, r: int, c: int)
    requires x == q * d + r
    ensures 0x1_0000_0000 * x == (0x1_0000_0000 * q + c) * d + Next(d, c, r)
  {
    MulDistr(0x1_0000_0000 * q, c, d);
    MulAssoc(0x1_0000_0000, q, d);
  }

  lemma {:induction false} RemainderAfter(d: int, low: int, c: seq<int>, r: seq<int>, first: nat, q0: int, i: nat)
    returns (q: int)
    requires Remainders(d, low, c, r) && i <= |c| && first > 0 && SignWeight(first) == q0 * d + r[0]
    ensures SignWeight(first + i) == q * d + r[i]
  {
    q := q0;
    if i > 0 {
      q := RemainderAfter(d, low, c, r, first, q0, i - 1);
      assert Next(d, c[i - 1], r[i - 1]) == r[i];
      NextRemainder(SignWeight(first + i - 1), q, d, r[i - 1], c[i - 1]);
      q := 0x1_0000_0000 * q + c[i - 1];
    }
  }

  /** m is 211 and first is 33. */
  lemma {:induction false} LowestBy17(base: int, w: nat, m: nat, first: nat, n: nat) returns (q: int, r: int)
    requires base == 17 && w == 256 && m == 211 && first == 33 && first <= n <= first + 16
    ensures SignWeight(n) == q * Pow(base, w) + r && Pow2(5 * m - 32) < r < Pow(base, w)
  {
    var c, rs := RemaindersBy17(base, w, m);
    SignWeightIsPower(first);
    assert 32 * first - 1 == 5 * m;
    q := RemainderAfter(Pow(base, w), Pow2(5 * m - 32), c, rs, first, 390, n - first);
    r := rs[n - first];
  }

  /** The quotient has n - 32 digits, and is below the eighth part of what they can hold. */
  lemma {:induction false} QuotientBy17(n: nat, m: nat, d: int, q: int, r: int)
    requires n >= 33 && m == 211 && Pow2(5 * m - 9) <= d <= Pow2(5 * m)
    requires SignWeight(n) == q * d + r && 0 <= r < d
    ensures 0 < q <= Pow2(32 * (n - 32) - 3) && (n > 33 ==> q > SignWeight(n - 33))
  {
    SignWeightIsPower(n);
    Pow2Mono(5 * m, 32 * n - 1);
    assert SignWeight(n) == d * q + r;
    RemainderUnique(SignWeight(n), d, q, r);
    FloorBound(SignWeight(n), d, 1);
    QuotientBits(SignWeight(n), d, 32 * n - 1, 5 * m - 9);
    Pow2Mono(32 * n - 1 - (5 * m - 9), 32 * (n - 32) - 3);
    if n > 33 {
      LargeQuotient17(n, m, d, q, r);
    }
  }

  lemma {:induction false} LargeQuotient17(n: nat, m: nat, d: int, q: int, r: int)
    requires n > 33 && m == 211 && 0 < d <= Pow2(5 * m) && SignWeight(n) == q * d + r && 0 <= r < d
    ensures q > SignWeight(n - 33)
  {
    SignWeightIsPower(n);
    SignWeightIsPower(n - 33);
    var s, p := SignWeight(n - 33), Pow2(5 * m);
    assert 4 * (s * p) == 2 * SignWeight(n) by {
      Pow2Add(32 * (n - 33) - 1, 5 * m);
      assert 32 * (n - 33) - 1 + 5 * m == 32 * n - 2;
    }
    assert 2 * p <= SignWeight(n) by {
      Pow2Mono(5 * m + 1, 32 * n - 1);
    }
    QuotientAbove(SignWeight(n), q, d, r, s, p);
  }

  lemma QuotientAbove(x: int, q: int, d: int, r: int, s: int, p: int)
    requires x == q * d + r && 0 <= r < d <= p && s >= 0 && 4 * (s * p) == 2 * x && 2 * p <= x
    ensures q > s
  {
    MulLe(d, p, s, s);
    if q <= s {
      MulLe0(q, s, d);
    }
  }

  /** So it is read as at least seven eighths of that. */
  lemma {:induction false} QuotientRead(n: nat, q: int)
    requires n >= 33 && 0 < q <= Pow2(32 * (n - 32) - 3) && (n > 33 ==> q > SignWeight(n - 33))
    ensures Reading(-q) >= 7 * Pow2(32 * (n - 32) - 3)
  {
    var j := n - 32;
    ReadingFrom(q, j);
    Pow2Radix(j);
    assert Pow2(3) == 8;
    Pow2Add(3, 32 * j - 3);
  }

  /** 17 ^ (8 j - 3) <= 7 * 2 ^ (32 j - 3) */
  lemma {:induction false} CharactersOf17(base: int, j: nat)
    requires base == 17 && 1 <= j <= 17
    ensures 0 <= Pow(base, 8 * j - 3) <= 7 * Pow2(32 * j - 3)
    decreases 17 - j
  {
    if j == 17 {
      Power133(base, 8 * j - 3, 32 * j - 3);
    } else {
      CharactersOf17(base, j + 1);
      assert Pow(17, 8) == 6975757441;
      PowAdd(base, 8, 8 * j - 3);
      Pow2Of32();
      Pow2Add(32, 32 * j - 3);
      PowPositive(base, 8 * j - 3);
      CancelFactor(Pow(base, 8 * j - 3), 6975757441, 7 * Pow2(32 * j - 3), 0x1_0000_0000);
    }
  }

  lemma CancelFactor(x: int, a: int, y: int, b: int)
    requires 0 <= x && 0 < b <= a && a * x <= b * y
    ensures x <= y
  {
    MulLe(b, a, x, x);
    if x > y {
      MulDistr(y, x - y, b);
      MulLe(1, b, 1, x - y);
    }
  }

  /** In base 17 the text is too long for 33 to 49 digits. */
  lemma {:induction false} TooLong17(base: int, n: nat, exponent: nat, upperCase: bool)
    requires base == 17 && 33 <= n <= 49 && exponent == 9
    ensures 4 * |WrittenText(-SignWeight(n), base, exponent, false, upperCase)| > 32 * n + 3
  {
    assert Pow2(8) == 256;
    var m, w := 211, Pow2(8);
    var d := Pow(base, w);
    var q, r := LowestBy17(base, w, m, 33, n);
    QuotientIsRead17(n, w, m, q, r);
    CharactersOf17(base, n - 32);
    RemainderRead17(base, w, m, 33, r);
    TooLong(n, base, exponent, 4, d, q, r, 8 * (n - 32) - 3, w + 2, upperCase);
  }

  /** The remainder is read as a number of 33 digits. */
  lemma {:induction false} RemainderRead17(base: int, w: nat, m: nat, digits: nat, r: int)
    requires base == 17 && w == 256 && m == 211 && digits == 33 && Pow2(5 * m - 32) < r < Pow(base, w)
    ensures Reading(-r) >= Pow(base, w + 2)
  {
    SizeOf17(base, w, m);
    RemainderRead(r, 5 * m, digits);
    PowAdd(base, 2, w);
    assert Pow(17, 2) == 289;
  }

  lemma {:induction false} RemainderRead(r: int, bits: nat, digits: nat)
    requires digits >= 2 && bits == 32 * digits - 1 && Pow2(bits - 32) < r
    ensures Reading(-r) >= 2 * Pow2(bits) - r
  {
    SignWeightIsPower(digits - 1);
    ReadingFrom(r, digits);
    Pow2Radix(digits);
  }

  // --------------------------------------------------- 2 ^ (32 n - 1) by 34 ^ 256

  lemma {:induction false} PowerOf34(e: nat, w: nat)
    requires e == 34
    ensures Pow(e, w) == Pow2(w) * Pow(17, w)
  {
    PowProduct(2, 17, w);
    assert Pow2(1) == 2;
    PowOfTwo(1, w);
  }

  lemma Factored(x: int, f: int, y: int, q: int, d: int, r: int)
    requires x == f * y && y == q * d + r
    ensures x == q * (f * d) + f * r
  {
    MulSwap(q, f, d);
    MulDistr(q * d, r, f);
  }

  /** The quotient is that of the number with 8 digits less by 17 ^ 256. */
  lemma {:induction false} LowestBy34(base: int, w: nat, m: nat, first: nat, n: nat) returns (q: int, r: int)
    requires base == 34 && w == 256 && m == 211 && first == 33 && first + 8 <= n <= first + 24
    ensures SignWeight(n) == q * Pow(base, w) + r && Pow2(5 * m - 32 + w) < r < Pow(base, w)
    ensures Reading(-q) >= 7 * Pow2(32 * (n - 40) - 3) && q > 0
  {
    var r17;
    q, r17 := LowestBy17(17, w, m, first, n - 8);
    QuotientIsRead17(n - 8, w, m, q, r17);
    PowerOf34(base, w);
    r := Pow2(w) * r17;
    EightDigitsMore(n, w);
    Factored(SignWeight(n), Pow2(w), SignWeight(n - 8), q, Pow(17, w), r17);
    RemainderTimes(w, 5 * m - 32, r17, Pow(17, w));
  }

  lemma {:induction false} QuotientIsRead17(n: nat, w: nat, m: nat, q: int, r: int)
    requires n >= 33 && w == 256 && m == 211 && SignWeight(n) == q * Pow(17, w) + r && 0 <= r < Pow(17, w)
    ensures Reading(-q) >= 7 * Pow2(32 * (n - 32) - 3) && q > 0
  {
    SizeOf17(17, w, m);
    PowPositive(17, w);
    QuotientBy17(n, m, Pow(17, w), q, r);
    QuotientRead(n, q);
  }

  lemma {:induction false} EightDigitsMore(n: nat, w: nat)
    requires n > 8 && w == 256
    ensures SignWeight(n) == Pow2(w) * SignWeight(n - 8)
  {
    SignWeightIsPower(n);
    SignWeightIsPower(n - 8);
    Pow2Add(w, 32 * (n - 8) - 1);
  }

  lemma {:induction false} RemainderTimes(w: nat, low: nat, r: int, d: int)
    requires Pow2(low) < r < d
    ensures Pow2(low + w) < Pow2(w) * r < Pow2(w) * d
  {
    Pow2Add(w, low);
    LargerLeaf(r, d, Pow2(w));
    LargerLeaf(Pow2(low), r, Pow2(w));
  }

  /** The remainder is read as a number of 41 digits. */
  lemma {:induction false} RemainderRead34(base: int, w: nat, m: nat, digits: nat, r: int)
    requires base == 34 && w == 256 && m == 211 && digits == 41 && Pow2(5 * m - 32 + w) < r < Pow(base, w)
    ensures Reading(-r) >= Pow(base, w + 1)
  {
    RemainderRead(r, 5 * m + w, digits);
    SizeOf17(17, w, m);
    PowerOf34(base, w);
    Pow2Add(w, 5 * m);
    MulLe0(35 * Pow(17, w), 2 * Pow2(5 * m), Pow2(w));
    MulSwap(Pow2(w), 35, Pow(17, w));
    MulSwap(Pow2(w), 2, Pow2(5 * m));
    PowAdd(base, 1, w);
  }

  /** Powers of 34 that are below 7 * 2 ^ (56 a + y). */
  lemma {:induction false} BoundOf34(base: int, a: nat, e: nat, x: int, y: nat, c: nat, bits: nat)
    requires base == 34 && Pow(base, e) == x && 0 <= x <= 7 * Pow2(y) && c == 11 * a + e && bits == 56 * a + y
    ensures 0 <= Pow(base, c) <= 7 * Pow2(bits)
  {
    ElevenOf34(base);
    PowerAtMost(base, 11, 56, a);
    PowAdd(base, 11 * a, e);
    Pow2Add(56 * a, y);
    MulLe(Pow(base, 11 * a), Pow2(56 * a), x, 7 * Pow2(y));
    MulSwap(Pow2(56 * a), 7, Pow2(y));
  }

  lemma {:induction false} ElevenOf34(base: int)
    requires base == 34
    ensures Pow2(55) <= Pow(base, 11) == 70188843638032384 <= Pow2(56)
  {
    SmallPowersOf2();
    Pow2Add(25, 30);
    assert Pow2(56) == 2 * Pow2(55);
    assert Pow(34, 5) == 45435424;
    Doubled(base, 5, 45435424);
  }

  /** The most characters that the quotient can have without making the text too long. */
  function MostOf34(j: nat): nat
    requires j >= 1
  {
    (32 * j - 6) / 5
  }

  // ---------------------------------------------------- characters in base 34

  lemma {:induction false} PowersOf34(base: int)
    requires base == 34
    ensures Pow(base, 0) == 1 && Pow(base, 1) == 34 && Pow(base, 2) == 1156 && Pow(base, 3) == 39304
    ensures Pow(base, 4) == 1336336 && Pow(base, 5) == 45435424 && Pow(base, 6) == 1544804416
    ensures Pow(base, 7) == 52523350144 && Pow(base, 8) == 1785793904896
    ensures Pow(base, 9) == 60716992766464 && Pow(base, 10) == 2064377754059776
  {
    assert Pow(base, 2) == 34 * 34;
    assert Pow(base, 3) == 34 * 1156;
    assert Pow(base, 4) == 34 * 39304;
    Doubled(base, 2, 1156);
    Doubled(base, 3, 39304);
    Doubled(base, 4, 1336336);
    Doubled(base, 5, 45435424);
  }

  lemma {:induction false} CharactersOf34At1(base: int, j: nat, c: nat, bits: nat)
    requires base == 34 && (j == 1 || j == 2 || j == 3) && c == MostOf34(j) && bits == 32 * j - 3
    ensures 0 <= Pow(base, c) <= 7 * Pow2(bits)
  {
    PowersOf34(base);
    SmallPowersOf2();
    assert Pow2(5) == 32;
    Pow2Add(13, 16);
    Pow2Add(8, 8);
    assert Pow2(8) == 256;
    Pow2Add(32, 5);
    if j == 1 {
      BoundOf34(base, 0, 5, 45435424, 29, c, bits);
    } else if j == 2 {
      BoundOf34(base, 1, 0, 1, 5, c, bits);
    } else {
      BoundOf34(base, 1, 7, 52523350144, 37, c, bits);
    }
  }

  lemma {:induction false} CharactersOf34At4(base: int, j: nat, c: nat, bits: nat)
    requires base == 34 && (j == 4 || j == 5 || j == 6) && c == MostOf34(j) && bits == 32 * j - 3
    ensures 0 <= Pow(base, c) <= 7 * Pow2(bits)
  {
    PowersOf34(base);
    SmallPowersOf2();
    assert Pow2(5) == 32;
    Pow2Add(8, 13);
    assert Pow2(8) == 256;
    Pow2Add(32, 13);
    if j == 4 {
      BoundOf34(base, 2, 2, 1156, 13, c, bits);
    } else if j == 5 {
      BoundOf34(base, 2, 8, 1785793904896, 45, c, bits);
    } else {
      BoundOf34(base, 3, 4, 1336336, 21, c, bits);
    }
  }

  lemma {:induction false} CharactersOf34At7(base: int, j: nat, c: nat, bits: nat)
    requires base == 34 && (j == 7 || j == 8) && c == MostOf34(j) && bits == 32 * j - 3
    ensures 0 <= Pow(base, c) <= 7 * Pow2(bits)
  {
    PowersOf34(base);
    SmallPowersOf2();
    assert Pow2(5) == 32;
    Pow2Add(13, 16);
    Pow2Add(8, 8);
    assert Pow2(8) == 256;
    Pow2Add(32, 21);
    if j == 7 {
      BoundOf34(base, 3, 10, 2064377754059776, 53, c, bits);
    } else {
      BoundOf34(base, 4, 6, 1544804416, 29, c, bits);
    }
  }

  lemma {:induction false} CharactersOf34At9(base: int, j: nat, c: nat, bits: nat)
    requires base == 34 && (j == 9 || j == 10 || j == 11) && c == MostOf34(j) && bits == 32 * j - 3
    ensures 0 <= Pow(base, c) <= 7 * Pow2(bits)
  {
    PowersOf34(base);
    SmallPowersOf2();
    assert Pow2(5) == 32;
    Pow2Add(32, 5);
    if j == 9 {
      BoundOf34(base, 5, 1, 34, 5, c, bits);
    } else if j == 10 {
      BoundOf34(base, 5, 7, 52523350144, 37, c, bits);
    } else {
      BoundOf34(base, 6, 3, 39304, 13, c, bits);
    }
  }

  lemma {:induction false} CharactersOf34At12(base: int, j: nat, c: nat, bits: nat)
    requires base == 34 && (j == 12 || j == 15) && c == MostOf34(j) && bits == 32 * j - 3
    ensures 0 <= Pow(base, c) <= 7 * Pow2(bits)
  {
    PowersOf34(base);
    SmallPowersOf2();
    assert Pow2(5) == 32;
    Pow2Add(13, 16);
    Pow2Add(8, 8);
    assert Pow2(8) == 256;
    Pow2Add(32, 13);
    if j == 12 {
      BoundOf34(base, 6, 9, 60716992766464, 45, c, bits);
    } else {
      BoundOf34(base, 8, 6, 1544804416, 29, c, bits);
    }
  }

  lemma {:induction false} CharactersOf34At14(base: int, j: nat, e: nat, k: nat)
    requires base == 34 && j == 14 && e == 88 && k == 357
    ensures 0 <= Pow(base, e) <= 7 * Pow2(32 * j - 3)
  {
    PowerOf34(base, e);
    Power88(17, e, k);
    Pow2Add(e, k);
    assert e + k == 32 * j - 3;
    SevenTimes(Pow(base, e), Pow2(e), Pow(17, e), Pow2(k), Pow2(32 * j - 3));
  }

  lemma SevenTimes(x: int, f: int, y: int, z: int, p: int)
    requires x == f * y && 0 <= y <= 7 * z && f >= 0 && p == f * z
    ensures 0 <= x <= 7 * p
  {
    MulLe0(y, 7 * z, f);
    MulLe0(0, y, f);
    MulSwap(f, 7, z);
  }

  /** 34 to the power of that many is what the quotient is read as, or less. */
  lemma {:induction false} CharactersOf34(base: int, j: nat)
    requires base == 34 && 1 <= j <= 15 && j != 13
    ensures 0 <= Pow(base, MostOf34(j)) <= 7 * Pow2(32 * j - 3)
  {
    if j <= 3 {
      CharactersOf34At1(base, j, MostOf34(j), 32 * j - 3);
    } else if j <= 6 {
      CharactersOf34At4(base, j, MostOf34(j), 32 * j - 3);
    } else if j <= 8 {
      CharactersOf34At7(base, j, MostOf34(j), 32 * j - 3);
    } else if j <= 11 {
      CharactersOf34At9(base, j, MostOf34(j), 32 * j - 3);
    } else if j == 14 {
      CharactersOf34At14(base, j, MostOf34(j), 357);
    } else {
      CharactersOf34At12(base, j, MostOf34(j), 32 * j - 3);
    }
  }

  /** In base 34 the text is too long for 41 to 55 digits, except for 53. */
  lemma {:induction false} TooLong34(base: int, n: nat, exponent: nat, upperCase: bool)
    requires base == 34 && 41 <= n <= 55 && n != 53 && exponent == 9
    ensures 5 * |WrittenText(-SignWeight(n), base, exponent, false, upperCase)| > 32 * n + 4
  {
    assert Pow2(8) == 256;
    var m, w := 211, Pow2(8);
    var q, r := LowestBy34(base, w, m, 33, n);
    CharactersOf34(base, n - 40);
    RemainderRead34(base, w, m, 41, r);
    PowPositive(2, 0);
    TooLong(n, base, exponent, 5, Pow(base, w), q, r, MostOf34(n - 40), w + 1, upperCase);
  }

  // ------------------------------------------------------------ bases 33 and 35

  /** In base 33 the text of -2 ^ 1311 is too long. */
  lemma {:induction false} TooLong33(base: int, n: nat, exponent: nat, upperCase: bool)
    requires base == 33 && n == 41 && exponent == 9
    ensures 5 * |WrittenText(-SignWeight(n), base, exponent, false, upperCase)| > 32 * n + 4
  {
    assert Pow2(8) == 256;
    var m, w := 211, Pow2(8);
    var d, q := Pow(base, w), 814246;
    RemainderBy33(base, w, m);
    SignWeightIsPower(n);
    assert 32 * n - 1 == 5 * m + 256;
    var r := SignWeight(n) - q * d;
    RemainderRead(r, 5 * m + 256, n);
    FirstDigitRead(q);
    assert Pow(33, 6) == 1291467969;
    TooLong(n, base, exponent, 5, d, q, r, 6, w, upperCase);
  }

  lemma {:induction false} FirstDigitRead(q: int)
    requires 0 < q <= 0x4000_0000
    ensures Reading(-q) >= 0xC000_0000
  {
    ReadingFrom(q, 1);
    assert Radix(1) == 0x1_0000_0000;
  }

  lemma {:induction false} RemainderRead35(base: int, w: nat, m: nat, digits: nat, r: int)
    requires base == 35 && w == 256 && m == 211 && digits == 42 && Pow2(5 * m + 256) < r < Pow(base, w)
    ensures Reading(-r) >= Pow(base, w + 6)
  {
    RemainderBy35(base, w, m);
    RemainderRead(r, 5 * m + 288, digits);
    assert Pow(35, 6) == 1838265625;
    PowAdd(base, 6, w);
  }

  /** In base 35 that of -2 ^ 1343 is too long. */
  lemma {:induction false} TooLong35(base: int, n: nat, exponent: nat, upperCase: bool)
    requires base == 35 && n == 42 && exponent == 9
    ensures 5 * |WrittenText(-SignWeight(n), base, exponent, false, upperCase)| > 32 * n + 4
  {
    assert Pow2(8) == 256;
    var m, w := 211, Pow2(8);
    var d, q := Pow(base, w), 1004303145;
    RemainderBy35(base, w, m);
    SignWeightIsPower(n);
    assert 32 * n - 1 == 5 * m + 288;
    var r := SignWeight(n) - q * d;
    RemainderRead35(base, w, m, n, r);
    FirstDigitRead(q);
    assert Pow(35, 6) == 1838265625;
    TooLong(n, base, exponent, 5, d, q, r, 6, w + 6, upperCase);
  }

  // -------------------------------------- how long the parts are in these bases

  /** A part of one digit less is read as a number below base ^ 256. */
  lemma {:induction false} PartIs(v: int, base: int, w: nat, digits: nat, t: nat, e: nat, upperCase: bool)
    requires Base(base) && w == Pow2(8) == 256 && digits >= 2 && t == 32 * digits - 33 && e >= 1
    requires v <= 0 && -v < Pow(base, w) <= Pow2(32 * digits - 1) && Pow2(32 * (digits - 1)) <= Pow(base, w)
    requires Pow(base, w + e - 1) <= 2 * Pow2(32 * digits - 1) - Pow(base, w)
    requires 2 * Pow2(32 * digits - 1) <= Pow(base, w + e)
    ensures |LeafText(v, base, 8, true, upperCase)| == PartLength(-v, t, e)
  {
    ReadingNonneg(v);
    if -v > Pow2(t) {
      RemainderRead(-v, 32 * digits - 1, digits);
      NumeralFrom(Reading(v), base, w + e - 1, upperCase);
      ReadingAtMost(v, 32 * digits - 1);
      assert (32 * digits - 1) / 32 + 1 == digits;
      NumeralBelow(Reading(v), base, w + e, upperCase);
    } else {
      ReadingAtMost(v, t);
      assert t / 32 + 1 == digits - 1;
      NumeralBelow(Reading(v), base, w, upperCase);
    }
  }

  lemma {:induction false} AllParts(base: int, w: nat, digits: nat, t: nat, e: nat, upperCase: bool)
    requires Base(base) && w == Pow2(8) == 256 && digits >= 2 && t == 32 * digits - 33 && e >= 1
    requires Pow(base, w) <= Pow2(32 * digits - 1) && Pow2(32 * (digits - 1)) <= Pow(base, w)
    requires Pow(base, w + e - 1) <= 2 * Pow2(32 * digits - 1) - Pow(base, w)
    requires 2 * Pow2(32 * digits - 1) <= Pow(base, w + e)
    ensures PartLengths(base, t, e, upperCase)
  {
    forall v | v <= 0 && -v < Pow(base, Pow2(8))
      ensures |LeafText(v, base, 8, true, upperCase)| == PartLength(-v, t, e)
    {
      PartIs(v, base, w, digits, t, e, upperCase);
    }
  }

  /** The parts that are padded to 256 characters are those up to 2 to this power. */
  function NarrowBits(base: int): nat {
    if base == 33 then 1279 else 1311
  }

  /** The others have so many characters more. */
  function CharactersMore(base: int): nat {
    if base == 33 then 5 else 7
  }

  lemma {:induction false} Parts33(base: int, w: nat, m: nat, digits: nat, e: nat, upperCase: bool)
    requires base == 33 && w == Pow2(8) == 256 && m == 211 && digits == 41 && e == 5
    ensures PartLengths(base, 32 * digits - 33, e, upperCase)
  {
    RemainderBy33(base, w, m);
    Pow2Of31(5 * m + 225);
    assert Pow(33, 4) == 1185921 && Pow(33, 5) == 39135393;
    PowAdd(base, e - 1, w);
    PowAdd(base, e, w);
    AllParts(base, w, digits, 32 * digits - 33, e, upperCase);
  }

  lemma {:induction false} Parts35(base: int, w: nat, m: nat, digits: nat, e: nat, upperCase: bool)
    requires base == 35 && w == Pow2(8) == 256 && m == 211 && digits == 42 && e == 7
    ensures PartLengths(base, 32 * digits - 33, e, upperCase)
  {
    RemainderBy35(base, w, m);
    Pow2Of31(5 * m + 257);
    assert Pow(35, 6) == 1838265625 && Pow(35, 7) == 64339296875;
    PowAdd(base, e - 1, w);
    PowAdd(base, e, w);
    AllParts(base, w, digits, 32 * digits - 33, e, upperCase);
  }

  lemma Pow2Of31(n: nat)
    ensures Pow2(n + 31) == 0x8000_0000 * Pow2(n) > 0
  {
    Pow2Of32();
    Pow2Add(31, n);
  }

  lemma {:induction false} PartsOfTightBase(base: int, upperCase: bool)
    requires base == 33 || base == 35
    ensures PartLengths(base, NarrowBits(base), CharactersMore(base), upperCase)
  {
    assert Pow2(8) == 256;
    if base == 33 {
      Parts33(base, Pow2(8), 211, 41, 5, upperCase);
    } else {
      Parts35(base, Pow2(8), 211, 42, 7, upperCase);
    }
  }

  // -------------------------------------------------------- texts that do fit

  /** One part, and not more than c characters before it. */
  lemma {:induction false} OnePartFits(length: int, left: nat, p: int, leaf: int, base: int, digits: nat, c: nat,
                                       upperCase: bool)
    requires Base(base) && c >= 1 && Shape(length, left, p, leaf, base, upperCase)
    requires digits == left / 32 + 1 && Pow2(32 * digits) <= Pow(base, c)
    ensures length <= p + c
  {
    ReadingAtMost(leaf, left);
    NumeralBelow(Reading(leaf), base, c, upperCase);
  }

  /** k parts are not longer than their bits. */
  ghost predicate Balanced(h: nat, t: nat, p: nat, k: nat) {
    h * (p * k) <= 32 * ((t * k) / 32)
  }

  /** If that holds for all but a single part, and a single part has at most c characters before it. */
  lemma {:induction false} FitsBits(n: nat, base: int, exponent: nat, h: nat, t: nat, p: nat, digits: nat, c: nat,
                                    upperCase: bool)
    requires Base(base) && n > 0 && exponent >= 8 && h >= 1 && Pow2(h) <= base
    requires ShortLeaves(base, p, upperCase) && Pow2(t) <= Pow(base, Pow2(8))
    requires forall k: nat :: k != 1 ==> Balanced(h, t, p, k)
    requires t <= 32 * n - 1 ==> c >= 1 && digits == (32 * n - 1 - t) / 32 + 1 && Pow2(32 * digits) <= Pow(base, c)
                                 && h * (p + c) <= 32 * n - 1 + h
    ensures h * |WrittenText(-SignWeight(n), base, exponent, false, upperCase)| <= 32 * n - 1 + h
  {
    SignWeightIsPower(n);
    var length := |WrittenText(-SignWeight(n), base, exponent, false, upperCase)|;
    var k, left, room, leaf := UnpaddedShape(-SignWeight(n), base, exponent, t, p, 32 * n - 1, upperCase);
    if k == 1 {
      assert left == 32 * n - 1 - t && room == p;
      OnePartFits(length, left, p, leaf, base, digits, c, upperCase);
      ScaledBound(h, length, p + c, 32 * n - 1 + h);
    } else {
      BalancedParts(h, t, p, k, 32 * n - 1, left, room);
      PartsFit(length, n, 32 * n - 1 - left, room, leaf, base, h, upperCase);
    }
  }

  lemma ScaledBound(h: nat, length: int, most: int, bound: int)
    requires length <= most && h * most <= bound
    ensures h * length <= bound
  {
    MulLe0(length, most, h);
  }

  lemma BalancedParts(h: nat, t: nat, p: nat, k: nat, bits: int, left: int, room: int)
    requires Balanced(h, t, p, k) && left == bits - t * k && room == p * k
    ensures 0 <= bits - left && h * room <= 32 * ((bits - left) / 32)
  {
    MulLe(0, t, 0, k);
  }

  lemma {:induction false} TwentyThree(base: int)
    requires base == 17
    ensures Pow2(94) <= Pow(base, 23) && Pow2(49) <= Pow(base, 12) && Pow2(28) <= Pow(base, 7)
        && Pow2(12) <= Pow(base, 3)
  {
    assert Pow(17, 3) == 4913 && Pow(17, 4) == 83521 && Pow(17, 7) == 410338673 && Pow(17, 8) == 6975757441;
    assert Pow2(11) == 2048;
    Pow2Doubled(11, 2048);
    Pow2Doubled(23, 0x80_0000);
    Pow2Doubled(47, 0x8000_0000_0000);
    Pow2Add(47, 2);
    assert Pow2(2) == 4 && Pow2(12) == 4096;
    Pow2Doubled(14, 0x4000);
    Pow2Add(12, 2);
    PowAdd(base, 4, 8);
    Doubled(base, 8, 6975757441);
    PowAdd(base, 16, 7);
  }

  lemma {:induction false} ShortLeaves17(base: int, m: nat, digits: nat, p: nat, upperCase: bool)
    requires base == 17 && m == 211 && digits == 33 && p == 259
    ensures ShortLeaves(base, p, upperCase) && Pow2(5 * m - 9) <= Pow(base, Pow2(8))
  {
    assert Pow2(8) == 256;
    SizeOf17(base, Pow2(8), m);
    PowPositive(base, Pow2(8));
    LeafOf17(base, digits, p);
    LeavesOfDigits(base, digits, p, upperCase);
  }

  lemma {:induction false} LeafOf17(base: int, digits: nat, p: nat)
    requires base == 17 && digits == 33 && p == 259
    ensures Pow2(32 * digits) <= Pow(base, p)
  {
    TwentyThree(base);
    AtLeastSum(base, 12, 49, 21, 7, 28, 32 * digits, p);
  }

  /** 17 ^ (8 j - 3) >= 2 ^ (32 j) */
  lemma {:induction false} EnoughOf17(base: int, j: nat)
    requires base == 17 && j >= 18
    ensures Pow2(32 * j) <= Pow(base, 8 * j - 3)
  {
    if j == 18 {
      TwentyThree(base);
      AtLeastSum(base, 23, 94, 6, 3, 12, 32 * j, 8 * j - 3);
    } else {
      EnoughOf17(base, j - 1);
      EightOf17(base);
      ProductAtLeast(base, 8, 32, 8 * (j - 1) - 3, 32 * (j - 1));
    }
  }

  lemma {:induction false} EightOf17(base: int)
    requires base == 17
    ensures Pow2(32) <= Pow(base, 8)
  {
    assert Pow(17, 8) == 6975757441;
    Pow2Of32();
  }

  lemma {:induction false} Balance17(t: nat, p: nat)
    requires t == 1046 && p == 259
    ensures forall k: nat :: k != 1 ==> Balanced(4, t, p, k)
  {
    forall k: nat | k != 1 ensures Balanced(4, t, p, k) {
      assert t * k == 1046 * k && p * k == 259 * k;
    }
  }

  /** In base 17 the text fits for less than 33 and for more than 49 digits. */
  lemma {:induction false} Fits17(base: int, n: nat, exponent: nat, upperCase: bool)
    requires base == 17 && n > 0 && exponent >= 8 && !(33 <= n <= 49)
    ensures 4 * |WrittenText(-SignWeight(n), base, exponent, false, upperCase)| <= 32 * n - 1 + 4
  {
    assert Pow2(4) == 16;
    ShortLeaves17(base, 211, 33, 259, upperCase);
    Balance17(1046, 259);
    if n >= 50 {
      EnoughOf17(base, n - 32);
      FitsBits(n, base, exponent, 4, 1046, 259, n - 32, 8 * (n - 32) - 3, upperCase);
    } else {
      FitsBits(n, base, exponent, 4, 1046, 259, 0, 0, upperCase);
    }
  }

  lemma {:induction false} TwentyThreeOf34(base: int)
    requires base == 34
    ensures Pow2(117) <= Pow(base, 23)
  {
    PowerOf34(base, 23);
    TwentyThree(17);
    Pow2Add(23, 94);
    MulLe(Pow2(23), Pow2(23), Pow2(94), Pow(17, 23));
  }

  lemma {:induction false} ShortLeaves34(base: int, w: nat, m: nat, digits: nat, p: nat, upperCase: bool)
    requires base == 34 && w == Pow2(8) && m == 211 && digits == 41 && p == 258
    ensures ShortLeaves(base, p, upperCase) && Pow2(5 * m - 9 + w) <= Pow(base, w)
  {
    assert Pow2(8) == 256;
    SizeOf34(base, w, m);
    LeafOf34(base, digits, p);
    LeavesOfDigits(base, digits, p, upperCase);
  }

  lemma {:induction false} SizeOf34(base: int, w: nat, m: nat)
    requires base == 34 && w == 256 && m == 211
    ensures Pow2(5 * m - 9 + w) <= Pow(base, w) <= Pow2(5 * m + w)
  {
    SizeOf17(17, w, m);
    PowPositive(17, w);
    PowerOf34(base, w);
    Pow2Add(w, 5 * m - 9);
    Pow2Add(w, 5 * m);
    MulLe(Pow2(w), Pow2(w), Pow2(5 * m - 9), Pow(17, w));
    MulLe(Pow2(w), Pow2(w), Pow(17, w), Pow2(5 * m));
  }

  lemma {:induction false} LeafOf34(base: int, digits: nat, p: nat)
    requires base == 34 && digits == 41 && p == 258
    ensures Pow2(32 * digits) <= Pow(base, p)
  {
    FivesOf34(base);
    AtLeastSum(base, 23, 117, 11, 5, 25, 32 * digits, p);
  }

  lemma {:induction false} FivesOf34(base: int)
    requires base == 34
    ensures Pow2(117) <= Pow(base, 23) && Pow2(25) <= Pow(base, 5) && Pow2(55) <= Pow(base, 11)
    ensures Pow2(45) <= Pow(base, 9) && Pow2(66) <= Pow(base, 13) && Pow2(76) <= Pow(base, 15)
  {
    TwentyThreeOf34(base);
    ElevenOf34(base);
    PowersOf34(base);
    SmallPowersOf2();
    Pow2Add(32, 13);
    assert Pow2(11) == 2048 && Pow2(12) == 4096 && Pow2(1) == 2;
    Pow2Doubled(16, 0x1_0000);
    Pow2Add(13, 3);
    assert Pow2(3) == 8;
    Pow2Doubled(33, 0x2_0000_0000);
    Pow2Add(66, 10);
    assert Pow2(10) == 1024;
    PowAdd(base, 11, 2);
    PowAdd(base, 11, 4);
  }

  lemma {:induction false} FiveDigitsMore(base: int, j: nat, c: nat, e: nat)
    requires base == 34 && e == 32 && Pow2(32 * j) <= Pow(base, c)
    ensures Pow2(32 * (j + 5)) <= Pow(base, c + e)
  {
    PowBaseMono(32, base, e);
    assert Pow2(5) == 32;
    PowOfTwo(5, e);
    ProductAtLeast(base, e, 5 * e, c, 32 * j);
  }

  lemma {:induction false} EnoughStart34(base: int, j: nat, c: nat)
    requires base == 34 && (j == 13 || 16 <= j <= 20) && c == MostOf34(j)
    requires Pow2(117) <= Pow(base, 23) && Pow2(25) <= Pow(base, 5) && Pow2(55) <= Pow(base, 11)
    requires Pow2(45) <= Pow(base, 9) && Pow2(66) <= Pow(base, 13) && Pow2(76) <= Pow(base, 15)
    ensures Pow2(32 * j) <= Pow(base, c)
  {
    if j == 13 {
      AtLeastSum(base, 23, 117, 3, 13, 66, 32 * j, c);
    } else if j == 16 {
      AtLeastSum(base, 23, 117, 4, 9, 45, 32 * j, c);
    } else if j == 17 {
      AtLeastSum(base, 23, 117, 4, 15, 76, 32 * j, c);
    } else if j == 18 {
      PowerAtLeast(base, 11, 55, 2);
      AtLeastSum(base, 23, 117, 4, 22, 110, 32 * j, c);
    } else if j == 19 {
      AtLeastSum(base, 23, 117, 5, 5, 25, 32 * j, c);
    } else {
      AtLeastSum(base, 23, 117, 5, 11, 55, 32 * j, c);
    }
  }

  /** 34 to the power of so many is at least 2 ^ (32 j). */
  lemma {:induction false} EnoughOf34(base: int, j: nat, c: nat)
    requires base == 34 && (j == 13 || j >= 16) && c == MostOf34(j)
    ensures Pow2(32 * j) <= Pow(base, c)
    decreases j
  {
    if j >= 21 {
      EnoughOf34(base, j - 5, c - 32);
      FiveDigitsMore(base, j - 5, c - 32, 32);
    } else {
      FivesOf34(base);
      EnoughStart34(base, j, c);
    }
  }

  lemma {:induction false} Balance34(t: nat, p: nat)
    requires t == 1302 && p == 258
    ensures forall k: nat :: k != 1 ==> Balanced(5, t, p, k)
  {
    forall k: nat | k != 1 ensures Balanced(5, t, p, k) {
      assert t * k == 1302 * k && p * k == 258 * k;
    }
  }

  lemma {:induction false} Fits34By(base: int, n: nat, exponent: nat, t: nat, p: nat, upperCase: bool)
    requires base == 34 && n > 0 && exponent >= 8 && (41 <= n <= 55 ==> n == 53) && Pow2(5) <= base
    requires t == 1302 && p == 258 && ShortLeaves(base, p, upperCase) && Pow2(t) <= Pow(base, Pow2(8))
    ensures 5 * |WrittenText(-SignWeight(n), base, exponent, false, upperCase)| <= 32 * n - 1 + 5
  {
    Balance34(t, p);
    if n >= 41 {
      EnoughOf34(base, n - 40, MostOf34(n - 40));
      FitsBits(n, base, exponent, 5, t, p, n - 40, MostOf34(n - 40), upperCase);
    } else {
      FitsBits(n, base, exponent, 5, t, p, 0, 0, upperCase);
    }
  }

  /** In base 34 the text fits for less than 41 and for more than 55 digits, and for 53. */
  lemma {:induction false} Fits34(base: int, n: nat, exponent: nat, upperCase: bool)
    requires base == 34 && n > 0 && exponent >= 8 && (41 <= n <= 55 ==> n == 53)
    ensures 5 * |WrittenText(-SignWeight(n), base, exponent, false, upperCase)| <= 32 * n - 1 + 5
  {
    assert Pow2(8) == 256 && Pow2(5) == 32;
    ShortLeaves34(base, Pow2(8), 211, 41, 258, upperCase);
    Fits34By(base, n, exponent, 1302, 258, upperCase);
  }

  lemma {:induction false} Length17(base: int, n: nat, exponent: nat, upperCase: bool)
    requires base == 17 && n > 0 && exponent >= 8 && (33 <= n <= 49 ==> exponent == 9)
    ensures 4 * |WrittenText(-SignWeight(n), base, exponent, false, upperCase)| <= 32 * n - 1 + 4
            <==> !(33 <= n <= 49)
  {
    if 33 <= n <= 49 {
      TooLong17(base, n, exponent, upperCase);
    } else {
      Fits17(base, n, exponent, upperCase);
    }
  }

  lemma {:induction false} Length34(base: int, n: nat, exponent: nat, upperCase: bool)
    requires base == 34 && n > 0 && exponent >= 8 && (41 <= n <= 55 ==> exponent == 9)
    ensures 5 * |WrittenText(-SignWeight(n), base, exponent, false, upperCase)| <= 32 * n - 1 + 5
            <==> !(41 <= n <= 55) || n == 53
  {
    if 41 <= n <= 55 && n != 53 {
      TooLong34(base, n, exponent, upperCase);
    } else {
      Fits34(base, n, exponent, upperCase);
    }
  }

  // --------------------------------------------------------------- the buffer

  /** result_size in bigRadix2To36. */
  function RadixSize(size: nat, base: int, negative: bool): nat
    requires size > 0 && Base(base)
  {
    BitBelowBase(base);
    (size * 32 - 1) / HighestBit(base) + (if negative then 1 else 0) + 1
  }

  /** The buffer is large enough for what is written. */
  ghost predicate RadixFits(x: int, size: nat, base: int, upperCase: bool)
    requires size > 0 && Base(base)
  {
    |MagnitudeText(x, size, base, upperCase, RadixSize(size, base, x < 0))| + |SignOf(x)|
        <= RadixSize(size, base, x < 0)
  }

  /** The exponent with which the recursion starts for -2 ^ (32 size - 1). */
  function FirstExponent(size: nat, base: int): nat
    requires size > 0 && Base(base)
  {
    HighestBit(RadixSize(size, base, true)) + 1
  }

  lemma {:induction false} LengthFits(length: int, bits: int, h: int)
    requires h >= 1 && bits >= 0
    ensures length + 1 <= bits / h + 2 <==> h * length <= bits + h
  {
    DivMod(bits, h);
    if length - 1 <= bits / h {
      MulLe0(length - 1, bits / h, h);
    } else {
      MulLe0(bits / h + 1, length - 1, h);
    }
    MulDistr(length, -1, h);
    MulDistr(bits / h, 1, h);
  }

  lemma {:induction false} LowestFits(size: nat, base: int, upperCase: bool)
    requires size > 0 && Base(base)
    ensures var h := HighestBit(base);
      && h >= 1 && Pow2(h) <= base < Pow2(h + 1)
      && (RadixFits(-SignWeight(size), size, base, upperCase) <==>
          h * |WrittenText(-SignWeight(size), base, FirstExponent(size, base), false, upperCase)| <= 32 * size - 1 + h)
  {
    BitBelowBase(base);
    HighestBitRange(base);
    LengthFits(|WrittenText(-SignWeight(size), base, FirstExponent(size, base), false, upperCase)|, size * 32 - 1,
               HighestBit(base));
  }

  lemma QuotientBetween(bits: int, h: int, low: int, high: int)
    requires h >= 1 && low * h <= bits <= high * h
    ensures low <= bits / h <= high
  {
    DivMod(bits, h);
    if bits / h < low {
      MulLe0(bits / h + 1, low, h);
    } else if bits / h > high {
      MulLe0(high + 1, bits / h, h);
    }
    MulDistr(bits / h, 1, h);
    MulDistr(high, 1, h);
  }

  lemma {:induction false} OneStep(size: nat, base: int, h: nat)
    requires size > 0 && Base(base) && h == HighestBit(base) && h >= 1
    requires 254 * h <= size * 32 - 1 <= 509 * h
    ensures FirstExponent(size, base) == 9
  {
    assert Pow2(8) == 256 && Pow2(9) == 512;
    QuotientBetween(size * 32 - 1, h, 254, 509);
    HighestBitRange(RadixSize(size, base, true));
    SameLog(RadixSize(size, base, true), HighestBit(RadixSize(size, base, true)), 8);
  }

  lemma {:induction false} LowestFitsBy(size: nat, base: int, h: nat, upperCase: bool)
    requires size > 0 && Base(base) && Pow2(h) <= base < Pow2(h + 1)
    ensures HighestBit(base) == h
    ensures RadixFits(-SignWeight(size), size, base, upperCase) <==>
            h * |WrittenText(-SignWeight(size), base, FirstExponent(size, base), false, upperCase)| <= 32 * size - 1 + h
  {
    HighestBitRange(base);
    SameLog(base, h, HighestBit(base));
    LowestFits(size, base, upperCase);
  }

  /** The characters for -2 ^ (32 size - 1) in base 33 or 35: 256 for each narrow part of the magnitude in radix
      base ^ 256, some more for each wide one, and those of the first part. */
  ghost function LengthByParts(size: nat, base: int, upperCase: bool): int
    requires size > 0 && (base == 33 || base == 35)
  {
    PowGrows(base, 1, Pow2(8));
    TextLength(SignWeight(size), base, Pow(base, Pow2(8)), NarrowBits(base), CharactersMore(base), upperCase)
  }

  lemma {:induction false} LowestLength(size: nat, base: int, exponent: nat, upperCase: bool)
    requires (base == 33 || base == 35) && size > 0 && exponent >= 8
    requires SignWeight(size) < Pow(base, Pow2(exponent))
    ensures |WrittenText(-SignWeight(size), base, exponent, false, upperCase)| == LengthByParts(size, base, upperCase)
  {
    PartsOfTightBase(base, upperCase);
    PowGrows(base, 1, Pow2(8));
    LengthOfText(SignWeight(size), base, exponent, Pow(base, Pow2(8)), NarrowBits(base), CharactersMore(base),
                 upperCase);
  }

  lemma {:induction false} InBufferByParts(size: nat, base: int, upperCase: bool)
    requires (base == 33 || base == 35) && size > 0 && FirstExponent(size, base) >= 8
    requires SignWeight(size) < Pow(base, Pow2(FirstExponent(size, base)))
    ensures RadixFits(-SignWeight(size), size, base, upperCase) <==>
            5 * LengthByParts(size, base, upperCase) <= 32 * size + 4
  {
    assert Pow2(5) == 32 && Pow2(6) == 64;
    LowestFitsBy(size, base, 5, upperCase);
    LowestLength(size, base, FirstExponent(size, base), upperCase);
  }

  /** The sizes for which the text of -2 ^ (32 size - 1) is in the buffer. In the bases 33 and 35 that depends on
      how many of its parts are wide. */
  ghost predicate LowestInBuffer(size: nat, base: int, upperCase: bool)
    requires size > 0 && Base(base)
  {
    if base == 17 then !(33 <= size <= 49)
    else if base == 34 then !(41 <= size <= 55) || size == 53
    else if base == 33 || base == 35 then 5 * LengthByParts(size, base, upperCase) <= 32 * size + 4
    else true
  }

  lemma {:induction false} InBuffer17(size: nat, base: int, upperCase: bool)
    requires base == 17 && size > 0 && FirstExponent(size, base) >= 8
    ensures RadixFits(-SignWeight(size), size, base, upperCase) <==> !(33 <= size <= 49)
  {
    assert Pow2(4) == 16 && Pow2(5) == 32;
    LowestFitsBy(size, base, 4, upperCase);
    if 33 <= size <= 49 {
      OneStep(size, base, 4);
    }
    Length17(base, size, FirstExponent(size, base), upperCase);
  }

  lemma {:induction false} InBuffer34(size: nat, base: int, upperCase: bool)
    requires base == 34 && size > 0 && FirstExponent(size, base) >= 8
    ensures RadixFits(-SignWeight(size), size, base, upperCase) <==> !(41 <= size <= 55) || size == 53
  {
    assert Pow2(5) == 32 && Pow2(6) == 64;
    LowestFitsBy(size, base, 5, upperCase);
    if 41 <= size <= 55 {
      OneStep(size, base, 5);
    }
    Length34(base, size, FirstExponent(size, base), upperCase);
  }

  /** -2 ^ 1311 in base 33, and -2 ^ 1343 in base 35. */
  lemma {:induction false} NotInBuffer(size: nat, base: int, upperCase: bool)
    requires (base == 33 && size == 41) || (base == 35 && size == 42)
    ensures !RadixFits(-SignWeight(size), size, base, upperCase)
  {
    assert Pow2(5) == 32 && Pow2(6) == 64;
    LowestFitsBy(size, base, 5, upperCase);
    OneStep(size, base, 5);
    if base == 33 {
      TooLong33(base, size, FirstExponent(size, base), upperCase);
    } else {
      TooLong35(base, size, FirstExponent(size, base), upperCase);
    }
  }

  /** The text of -2 ^ (32 size - 1), if the recursion can split it. */
  lemma {:induction false} LowestFitsExactly(size: nat, base: int, upperCase: bool)
    requires Base(base) && !PowerOfTwoBase(base) && size > 0 && FirstExponent(size, base) >= 8
    requires SignWeight(size) < Pow(base, Pow2(FirstExponent(size, base)))
    ensures RadixFits(-SignWeight(size), size, base, upperCase) <==> LowestInBuffer(size, base, upperCase)
  {
    if base == 17 {
      InBuffer17(size, base, upperCase);
    } else if base == 34 {
      InBuffer34(size, base, upperCase);
    } else if base == 33 || base == 35 {
      InBufferByParts(size, base, upperCase);
    } else {
      LowestFits(size, base, upperCase);
      RoomInBase(size, base, FirstExponent(size, base), HighestBit(base), upperCase);
    }
  }
}
