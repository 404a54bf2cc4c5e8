/** For which numbers the recursive printer of src/big_rtl.c writes the numeral.
    The magnitude of -2 ^ (32 n - 1) has the sign bit set, so that it is divided as
    a negative number. */
module PrintLimit {
  import opened Digits
  import opened Bits
  import opened DivisionLaws
  import opened ShiftLaws
  import opened Exponentiation
  import opened Numerals
  import opened PrintedText

  // ------------------------------------------------------ divisors of 2 ^ j

  lemma ParityOfProduct(b: int, x: int)
    requires b % 2 == 1
    ensures (b * x) % 2 == x % 2
    ensures x % 2 == 0 ==> b * x == 2 * (b * (x / 2))
  {
    MulSwap(b, 2, x / 2);
    var c := b / 2;
    MulDistr(2 * c, 1, x);
    MulAssoc(2, c, x);
  }

  /** An odd number above one does not divide a power of two. */
  lemma {:induction false} OddIsNoDivisor(b: int, x: int, j: nat)
    requires b % 2 == 1 && b > 1 && x > 0
    ensures b * x != Pow2(j)
    decreases j
  {
    MulLe(2, b, 1, x);
    ParityOfProduct(b, x);
    if j > 0 && x % 2 == 0 {
      OddIsNoDivisor(b, x / 2, j - 1);
    }
  }

  /** The divisors of a power of two are powers of two. */
  lemma {:induction false} TwoPowerDivisor(b: int, x: int, j: nat) returns (k: nat)
    requires b >= 1 && x > 0 && b * x == Pow2(j)
    ensures b == Pow2(k)
    decreases j
  {
    if b == 1 {
      return 0;
    }
    if b % 2 == 1 {
      OddIsNoDivisor(b, x, j);
      assert false;
    }
    MulAssoc(2, b / 2, x);
    if j == 0 {
      MulLe(2, b, 1, x);
      assert false;
    }
    k := TwoPowerDivisor(b / 2, x, j - 1);
    k := k + 1;
  }

  lemma BaseDivides(base: int, x: int, j: nat)
    requires Base(base) && x > 0 && base * x == Pow2(j)
    ensures PowerOfTwoBase(base)
  {
    var k := TwoPowerDivisor(base, x, j);
    SmallPower(k);
    assert Pow2(0) == 1 && Pow2(1) == 2 && Pow2(2) == 4 && Pow2(3) == 8 && Pow2(4) == 16 && Pow2(5) == 32;
  }

  lemma SmallPower(k: nat)
    requires Pow2(k) <= 36
    ensures k <= 5
  {
    assert Pow2(6) == 64;
    if k >= 6 {
      Pow2Mono(6, k);
    }
  }

  /** An odd divisor of 2 ^ c * y divides y. */
  lemma {:induction false} CancelPowerOfTwo(p: int, t: int, c: nat, y: int) returns (t': int)
    requires p % 2 == 1 && p * t == Pow2(c) * y
    ensures p * t' == y
    decreases c
  {
    if c == 0 {
      return t;
    }
    ParityOfProduct(p, t);
    MulAssoc(2, Pow2(c - 1), y);
    t' := CancelPowerOfTwo(p, t / 2, c - 1, y);
  }

  // ----------------------------------------------------- geometric sums

  /** 1 + t + ... + t ^ (y - 1) */
  ghost function GeoSum(t: int, y: nat): int {
    if y == 0 then 0 else 1 + t * GeoSum(t, y - 1)
  }

  lemma {:induction false} GeoSumMeans(t: int, y: nat)
    ensures (t - 1) * GeoSum(t, y) == Pow(t, y) - 1
  {
    if y > 0 {
      GeoSumMeans(t, y - 1);
      GeoStep(t, GeoSum(t, y - 1), Pow(t, y - 1));
    }
  }

  lemma GeoStep(t: int, g: int, p: int)
    requires (t - 1) * g == p - 1
    ensures (t - 1) * (1 + t * g) == t * p - 1
  {
    MulDistr(1, t * g, t - 1);
    MulAssoc(t, t - 1, g);
    MulSwap(t - 1, t, g);
    MulDistr(p, 1, t);
  }

  lemma {:induction false} GeoSumAdd(t: int, a: nat, b: nat)
    ensures GeoSum(t, a + b) == GeoSum(t, a) + Pow(t, a) * GeoSum(t, b)
  {
    if a > 0 {
      GeoSumAdd(t, a - 1, b);
      MulDistr(GeoSum(t, a - 1), Pow(t, a - 1) * GeoSum(t, b), t);
      MulAssoc(t, Pow(t, a - 1), GeoSum(t, b));
    }
  }

  lemma {:induction false} GeoSumProduct(t: int, a: nat, z: nat)
    ensures GeoSum(t, a * z) == GeoSum(t, a) * GeoSum(Pow(t, a), z)
  {
    if z > 0 {
      GeoSumProduct(t, a, z - 1);
      MulDistr(z - 1, 1, a);
      MulLe(0, a, 0, z - 1);
      GeoSumAdd(t, a, a * (z - 1));
      var g, h, p := GeoSum(t, a), GeoSum(Pow(t, a), z - 1), Pow(t, a);
      MulDistr(1, p * h, g);
      MulSwap(g, p, h);
    }
  }

  /** 0 + 1 + ... + (y - 1) */
  ghost function Triangle(y: nat): int {
    if y == 0 then 0 else Triangle(y - 1) + (y - 1)
  }

  lemma {:induction false} TriangleMeans(y: nat)
    ensures 2 * Triangle(y) == y * (y - 1)
  {
    if y > 0 {
      TriangleMeans(y - 1);
      MulDistr(y - 1, 1, y - 2);
      MulDistr(y - 2, 1, y);
      MulDistr(y, 1, y - 1);
    }
  }

  /** A geometric sum modulo p and modulo p * p, for t = 1 + p * u. */
  lemma {:induction false} GeoSumModulo(p: int, u: int, y: nat) returns (k: int)
    ensures GeoSum(1 + p * u, y) == y + p * k
  {
    if y == 0 {
      return 0;
    }
    var k' := GeoSumModulo(p, u, y - 1);
    var g := GeoSum(1 + p * u, y - 1);
    MulDistr(1, p * u, g);
    MulAssoc(p, u, g);
    MulDistr(k', u * g, p);
    return k' + u * g;
  }

  lemma {:induction false} GeoSumSquare(p: int, u: int, y: nat) returns (e: int)
    ensures GeoSum(1 + p * u, y) == y + p * (u * Triangle(y) + p * e)
  {
    if y == 0 {
      return 0;
    }
    var e' := GeoSumSquare(p, u, y - 1);
    e := e' + u * (u * Triangle(y - 1) + p * e');
    SquareStep(p, u, y - 1, Triangle(y - 1), e');
  }

  lemma SquareStep(p: int, u: int, y: int, tri: int, e: int)
    ensures var x := u * tri + p * e;
      1 + (1 + p * u) * (y + p * x) == (y + 1) + p * (u * (tri + y) + p * (e + u * x))
  {
    var x := u * tri + p * e;
    MulDistr(1, p * u, y + p * x);
    MulAssoc(p, u, y + p * x);
    MulDistr(y, p * x, u);
    MulSwap(u, p, x);
    MulDistr(tri, y, u);
    MulDistr(e, u * x, p);
    MulDistr(u * tri + p * e, u * y + p * (u * x), p);
  }

  // ------------------------------------------------- powers of p that divide

  /** A factor that is 1 modulo p takes nothing away from a power of p. */
  lemma {:induction false} Cancel(p: int, a: nat, k: int, g: int, c: int) returns (c': int)
    requires p > 0 && (1 + p * k) * g == Pow(p, a) * c
    ensures g == Pow(p, a) * c'
  {
    if a == 0 {
      return g;
    }
    var g' := Pow(p, a - 1) * c - k * g;
    CancelStep(p, Pow(p, a - 1), k, g, c, g');
    c' := Cancel(p, a - 1, k, g', c);
    MulAssoc(p, Pow(p, a - 1), c');
  }

  lemma CancelStep(p: int, q: int, k: int, g: int, c: int, g': int)
    requires p > 0 && (1 + p * k) * g == (p * q) * c && g' == q * c - k * g
    ensures g == p * g' && (1 + p * k) * g' == q * c
  {
    MulDistr(1, p * k, g);
    MulAssoc(p, k, g);
    MulAssoc(p, q, c);
    MulDistr(q * c, k * g, p);
    MulDistr(1, p * k, g');
    MulAssoc(k, p, g');
  }

  /** t ^ p is 1 modulo p if t is. */
  lemma PowerIsOne(p: int, u: int, y: nat) returns (u': int)
    ensures Pow(1 + p * u, y) == 1 + p * u'
  {
    GeoSumMeans(1 + p * u, y);
    u' := u * GeoSum(1 + p * u, y);
    MulAssoc(p, u, GeoSum(1 + p * u, y));
  }

  /** For an odd p and t = 1 + p * u, the powers of p that divide
      1 + t + ... + t ^ (y - 1) divide y. */
  lemma {:induction false} Lift(p: int, u: int, y: nat, a: nat, c: int) returns (w: int)
    requires p >= 3 && p % 2 == 1 && GeoSum(1 + p * u, y) == Pow(p, a) * c
    ensures y == Pow(p, a) * w
    decreases a
  {
    if a == 0 {
      return y;
    }
    var k := GeoSumModulo(p, u, y);
    var z := Pow(p, a - 1) * c - k;
    MulAssoc(p, Pow(p, a - 1), c);
    MulDistr(Pow(p, a - 1) * c, k, p);
    Multiple(y, p, z);
    var k2 := SumOfP(p, u);
    var u2 := PowerIsOne(p, u, p);
    GeoSumProduct(1 + p * u, p, z);
    var g := GeoSum(1 + p * u2, z);
    DividedByP(p, 1 + p * k2, g, Pow(p, a - 1) * c);
    var c2 := Cancel(p, a - 1, k2, g, c);
    w := Lift(p, u2, z, a - 1, c2);
    MulAssoc(p, Pow(p, a - 1), w);
  }

  lemma Multiple(y: int, p: int, z: int)
    requires y >= 0 && p > 0 && y == p * z
    ensures z >= 0
  {
    if z < 0 {
      MulLe(1, -z, p, p);
      MulNeg(p, z);
    }
  }

  lemma DividedByP(p: int, f: int, g: int, x: int)
    requires p > 0 && (p * f) * g == p * x
    ensures f * g == x
  {
    MulAssoc(p, f, g);
    MulDistr(f * g, x, p);
    SmallMultiple(f * g - x, p);
  }

  lemma SumOfP(p: int, u: int) returns (k: int)
    requires p >= 3 && p % 2 == 1
    ensures GeoSum(1 + p * u, p) == p * (1 + p * k)
  {
    var e := GeoSumSquare(p, u, p);
    var h := (p - 1) / 2;
    TriangleMeans(p);
    MulSwap(p, 2, h);
    MulSwap(u, p, h);
    k := u * h + e;
    MulDistr(u * h, e, p);
    MulDistr(1, p * k, p);
  }

  // ------------------------------------------------------- odd primes of a base

  /** An odd prime that divides the base. */
  function OddPrime(base: int): (p: int)
    requires Base(base) && !PowerOfTwoBase(base)
    ensures 3 <= p <= 31 && p % 2 == 1 && base % p == 0
  {
    if base % 3 == 0 then 3 else if base % 5 == 0 then 5 else if base % 7 == 0 then 7
    else if base % 11 == 0 then 11 else if base % 13 == 0 then 13 else if base % 17 == 0 then 17
    else if base % 19 == 0 then 19 else if base % 23 == 0 then 23 else if base % 29 == 0 then 29 else 31
  }

  predicate TableEntry(p: int) {
    p in {3, 5, 7, 11, 13, 17, 19, 23, 29, 31}
  }

  /** 2 ^ (p - 1) is 1 modulo p, but not modulo p * p. */
  lemma PowerOfPrime(p: int) returns (u: int, u': int, k: int)
    requires TableEntry(p)
    ensures Pow2(p - 1) == 1 + p * u && u * u' == 1 + p * k
  {
    assert Pow2(10) == 1024;
    Pow2Add(10, 6);
    assert Pow2(6) == 64;
    Pow2Add(10, 8);
    assert Pow2(8) == 256;
    Pow2Add(10, 12);
    Pow2Add(10, 2);
    assert Pow2(2) == 4;
    Pow2Add(18, 10);
    Pow2Add(20, 10);
    Pow2Add(10, 10);
    match p
    case 3 => u, u', k := 1, 1, 0;
    case 5 => u, u', k := 3, 2, 1;
    case 7 => u, u', k := 9, 4, 5;
    case 11 => u, u', k := 93, 9, 76;
    case 13 => u, u', k := 315, 9, 218;
    case 17 => u, u', k := 3855, 4, 907;
    case 19 => u, u', k := 13797, 13, 9440;
    case 23 => u, u', k := 182361, 19, 150646;
    case 29 => u, u', k := 9256395, 1, 319186;
    case 31 => u, u', k := 34636833, 26, 29050247;
  }

  lemma PowersCommute(x: nat, y: nat)
    ensures Pow(Pow2(x), y) == Pow(Pow2(y), x)
  {
    PowOfTwo(x, y);
    PowOfTwo(y, x);
    MulAssoc(x, y, 1);
  }

  /** If a high power of p divides 2 ^ x - 1, then x is large. */
  lemma ExponentIsLarge(p: int, n: nat, x: nat, z: int)
    requires TableEntry(p) && x > 0 && Pow(p, n + 1) * z == Pow2(x) - 1
    ensures x >= Pow(p, n) > 0
  {
    var u, u', k := PowerOfPrime(p);
    var z' := PowerIsOne(Pow(p, n + 1), z, p - 1);
    PowersCommute(x, p - 1);
    GeoSumMeans(Pow2(p - 1), x);
    var g, q := GeoSum(1 + p * u, x), Pow(p, n);
    MulAssoc(p, q, z');
    DividedByP(p, u, g, q * z');
    Inverse(u, u', p, k, g, q, z');
    var c := Cancel(p, n, k, g, z' * u');
    var w := Lift(p, u, x, n, c);
    PowPositive(p, n);
    AtLeastOne(x, q, w);
  }

  lemma Inverse(u: int, u': int, p: int, k: int, g: int, q: int, z: int)
    requires u * u' == 1 + p * k && u * g == q * z
    ensures (1 + p * k) * g == q * (z * u')
  {
    MulSwap(u', u, g);
    MulAssoc(u, u', g);
    MulAssoc(q, z, u');
  }

  lemma AtLeastOne(x: int, q: int, w: int)
    requires x > 0 && q > 0 && x == q * w
    ensures x >= q
  {
    if w <= 0 {
      MulLe0(w, 0, q);
    } else {
      MulLe(1, w, q, q);
    }
  }

  lemma {:induction false} PowProduct(a: int, b: int, e: nat)
    ensures Pow(a * b, e) == Pow(a, e) * Pow(b, e)
  {
    if e > 0 {
      PowProduct(a, b, e - 1);
      FourFactors(a, b, Pow(a, e - 1), Pow(b, e - 1));
    }
  }

  lemma FourFactors(a: int, b: int, c: int, d: int)
    ensures (a * b) * (c * d) == (a * c) * (b * d)
  {
    MulAssoc(a, b, c * d);
    MulSwap(b, c, d);
    MulAssoc(a, c, b * d);
  }

  lemma {:induction false} OddPower(p: int, e: nat)
    requires p % 2 == 1
    ensures Pow(p, e) % 2 == 1
  {
    if e > 0 {
      OddPower(p, e - 1);
      ParityOfProduct(p, Pow(p, e - 1));
    }
  }

  /** 2 ^ j and 2 ^ c do not differ by a multiple of base ^ (n + 1), unless j is large. */
  lemma {:induction false} DifferenceOfPowers(base: int, n: nat, j: nat, c: nat, q: int)
    requires Base(base) && !PowerOfTwoBase(base) && c < j && Pow2(j) == Pow(base, n + 1) * q + Pow2(c)
    ensures j >= Pow2(n)
  {
    var p := OddPrime(base);
    var e := base / p;
    DivMod(base, p);
    PowProduct(p, e, n + 1);
    var x := j - c;
    Pow2Add(c, x);
    DifferenceFactors(Pow2(c), Pow2(x), Pow(p, n + 1), Pow(e, n + 1), q);
    OddPower(p, n + 1);
    var z := CancelPowerOfTwo(Pow(p, n + 1), Pow(e, n + 1) * q, c, Pow2(x) - 1);
    ExponentIsLarge(p, n, x, z);
    TwoIsLess(p, n);
  }

  lemma DifferenceFactors(c: int, x: int, p: int, e: int, q: int)
    requires c * x == (p * e) * q + c
    ensures p * (e * q) == c * (x - 1)
  {
    MulAssoc(p, e, q);
    MulDistr(x, 1, c);
  }

  lemma TwoIsLess(p: int, n: nat)
    requires p >= 2
    ensures Pow2(n) <= Pow(p, n)
  {
    PowBaseMono(2, p, n);
    PowOfTwo(1, n);
    assert Pow2(1) == 2;
  }

  // ------------------------------------------------------------ the limit

  /** memSizeType: the size of a number. */
  const MAX_MEMSIZETYPE: nat := 0xFFFF_FFFF_FFFF_FFFF

  lemma {:induction false} WidthOfLowest(n: nat)
    requires n > 0
    ensures Width(-SignWeight(n)) == n && Reading(-SignWeight(n)) == SignWeight(n)
  {
    if n > 1 {
      WidthOfLowest(n - 1);
      RadixMono(1, n - 1);
      assert Radix(1) == 0x1_0000_0000;
    }
  }

  lemma NotMultiple(j: nat, base: int, e: nat, q: int)
    requires Base(base) && !PowerOfTwoBase(base) && q > 0
    ensures Pow2(j) != Pow(base, e + 1) * q
  {
    PowPositive(base, e);
    MulLe(1, Pow(base, e), 1, q);
    MulAssoc(base, Pow(base, e), q);
    if Pow2(j) == base * (Pow(base, e) * q) {
      BaseDivides(base, Pow(base, e) * q, j);
    }
  }

  lemma SizeBound(n: nat)
    requires n <= MAX_MEMSIZETYPE
    ensures 32 * n < Pow2(255)
  {
    Pow2Of32();
    Pow2Add(32, 32);
    Pow2Add(64, 5);
    assert Pow2(5) == 32;
    Pow2Mono(69, 255);
  }

  /** The part of 2 ^ (32 n - 1) below base ^ 256 is not its own magnitude. */
  lemma NotOwnMagnitude(n: nat, base: int, b: int)
    requires Base(base) && !PowerOfTwoBase(base) && 0 < n <= MAX_MEMSIZETYPE
    requires b == Pow(base, 256) > 0 && SignWeight(n) >= b
    ensures Reading(-(SignWeight(n) % b)) != SignWeight(n) % b
  {
    var j, m := 32 * n - 1, SignWeight(n);
    var q, w := m / b, m % b;
    SignWeightIsPower(n);
    DivMod(m, b);
    FloorBound(m, b, 1);
    if w == 0 {
      NotMultiple(j, base, 255, q);
    } else if Reading(-w) == w {
      var k := Width(-w);
      ReadingOfNegative(-w);
      SignWeightIsPower(k);
      if 32 * k - 1 >= j {
        Pow2Mono(j, 32 * k - 1);
        assert false;
      }
      DifferenceOfPowers(base, 255, j, 32 * k - 1, q);
      SizeBound(n);
    }
  }

  /** If its text stands for m, then the part of m below base ^ 256 is its own magnitude. */
  lemma {:induction false} WrittenAsMagnitude(m: int, base: int, exponent: nat, upperCase: bool, b: int)
    requires Base(base) && m > 0 && b == Pow(base, 256) > 0 && b <= m < Pow(base, Pow2(exponent))
    requires DigitsValue(WrittenText(-m, base, exponent, false, upperCase), base) == m
    ensures Reading(-(m % b)) == m % b
  {
    LargeExponent(m, base, exponent);
    LowestPart(-m, base, exponent, false, upperCase, b);
  }

  /** The magnitude m of the lowest number of n digits, if it is at least b = base ^ 256: its text stands for
      a larger number. */
  lemma {:induction false} LowestIsLarger(n: nat, m: int, base: int, exponent: nat, upperCase: bool, b: int)
    requires Base(base) && !PowerOfTwoBase(base) && 0 < n <= MAX_MEMSIZETYPE && m == SignWeight(n)
    requires b == Pow(base, 256) > 0 && b <= m < Pow(base, Pow2(exponent))
    ensures var t := WrittenText(-m, base, exponent, false, upperCase);
      IsDigits(t, base) && DigitsValue(t, base) > m
  {
    NotOwnMagnitude(n, base, b);
    WrittenIsLarge(-m, base, exponent, false, upperCase);
    if DigitsValue(WrittenText(-m, base, exponent, false, upperCase), base) == m {
      WrittenAsMagnitude(m, base, exponent, upperCase, b);
    }
  }

  /** The magnitude of the lowest number of n digits is written as its numeral
      exactly if it is below base ^ 256. Otherwise it is written as a larger number. */
  lemma TextOfLowest(n: nat, base: int, exponent: nat, upperCase: bool)
    requires Base(base) && !PowerOfTwoBase(base) && 0 < n <= MAX_MEMSIZETYPE
    requires SignWeight(n) < Pow(base, Pow2(exponent))
    ensures var t := WrittenText(-SignWeight(n), base, exponent, false, upperCase);
      if SignWeight(n) < Pow(base, 256) then t == Numeral(SignWeight(n), base, upperCase)
      else IsDigits(t, base) && DigitsValue(t, base) > SignWeight(n)
  {
    if SignWeight(n) < Pow(base, 256) {
      WidthOfLowest(n);
      TextOfSmall(-SignWeight(n), base, exponent, upperCase);
    } else {
      PowPositive(base, 256);
      LowestIsLarger(n, SignWeight(n), base, exponent, upperCase, Pow(base, 256));
    }
  }

  lemma LargeExponent(m: int, base: int, exponent: nat)
    requires Base(base) && Pow(base, 256) <= m < Pow(base, Pow2(exponent))
    ensures exponent >= 8
  {
    if exponent < 8 {
      assert Pow2(8) == 256;
      Pow2Mono(exponent, 8);
      PowGrows(base, Pow2(exponent), 256);
    }
  }

  /** The numbers that are printed: all but those of the form -2 ^ (32 n - 1) that
      are not above -base ^ 256. */
  ghost predicate Printable(x: int, size: nat, base: int)
    requires size > 0
  {
    x != -SignWeight(size) || SignWeight(size) < Pow(base, 256)
  }

  /** The copy of the magnitude, read as a signed number. */
  ghost function MagnitudeValue(x: int, size: nat): int
    requires size > 0
  {
    if x == -SignWeight(size) then x else Abs(x)
  }

  /** The text of the magnitude is its numeral exactly if the number is printable.
      Otherwise it is the text of a larger number. */
  lemma {:induction false} WrittenIffPrintable(x: int, size: nat, base: int, exponent: nat, upperCase: bool)
    requires Base(base) && !PowerOfTwoBase(base) && 0 < size <= MAX_MEMSIZETYPE
    requires Abs(x) < Pow(base, Pow2(exponent))
    ensures var t := WrittenText(MagnitudeValue(x, size), base, exponent, false, upperCase);
      && IsDigits(t, base) && DigitsValue(t, base) >= Abs(x)
      && (t == Numeral(Abs(x), base, upperCase) <==> Printable(x, size, base))
      && (DigitsValue(t, base) == Abs(x) <==> Printable(x, size, base))
  {
    NumeralValue(Abs(x), base, upperCase);
    if x == -SignWeight(size) {
      TextOfLowest(size, base, exponent, upperCase);
    } else {
      TextOfNonnegative(Abs(x), base, exponent, false, upperCase);
    }
  }
}
