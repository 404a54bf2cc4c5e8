/** Powers of two, and the bit operations of src/big_rtl.c on numbers whose bits
    do not overlap. */
module Bits {
  import opened Digits

  function Pow2(n: nat): (r: int)
    ensures r > 0
  {
    if n == 0 then 1 else 2 * Pow2(n - 1)
  }

  lemma {:induction false} Pow2Add(m: nat, n: nat)
    ensures Pow2(m + n) == Pow2(m) * Pow2(n)
  {
    if m > 0 {
      Pow2Add(m - 1, n);
      MulAssoc(2, Pow2(m - 1), Pow2(n));
    }
  }

  lemma {:induction false} Pow2Mono(m: nat, n: nat)
    requires m <= n
    ensures Pow2(m) <= Pow2(n)
  {
    if m < n {
      Pow2Mono(m, n - 1);
    }
  }

  lemma Pow2Of32()
    ensures Pow2(32) == 0x1_0000_0000 && Pow2(31) == 0x8000_0000
  {
    assert Pow2(8) == 0x100;
    Pow2Add(8, 8);
    Pow2Add(16, 16);
  }

  lemma {:induction false} Pow2Radix(n: nat)
    ensures Pow2(32 * n) == Radix(n)
  {
    if n > 0 {
      Pow2Radix(n - 1);
      Pow2Add(32, 32 * (n - 1));
      Pow2Of32();
    }
  }

  lemma SignWeightIsPower(n: nat)
    requires n > 0
    ensures SignWeight(n) == Pow2(32 * n - 1)
  {
    Pow2Radix(n - 1);
    Pow2Add(32 * (n - 1), 31);
    Pow2Of32();
  }

  /** x >> n */
  function Shr(x: nat, n: nat): (r: nat)
    ensures r <= x
  {
    if n == 0 then x else Shr(x / 2, n - 1)
  }

  lemma {:induction false} ShrMeans(x: nat, n: nat)
    ensures Shr(x, n) == x / Pow2(n) && x == Shr(x, n) * Pow2(n) + x % Pow2(n)
  {
    DivMod(x, Pow2(n));
    if n > 0 {
      ShrMeans(x / 2, n - 1);
      var p, h := Pow2(n - 1), x / 2;
      DivMod(h, p);
      MulSwap(2, h / p, p);
      RemainderUnique(x, 2 * p, h / p, 2 * (h % p) + x % 2);
    }
  }

  /** (d << n) & MASK */
  function ShlDigit(d: Digit, n: nat): Digit
    decreases n
  {
    if n == 0 then d else ShlDigit(2 * d % 0x1_0000_0000, n - 1)
  }

  lemma {:induction false} ShlDigitMeans(d: Digit, n: nat)
    ensures ShlDigit(d, n) == d * Pow2(n) % 0x1_0000_0000
    decreases n
  {
    if n > 0 {
      ShlDigitMeans(2 * d % 0x1_0000_0000, n - 1);
      DoubledModulo(d, Pow2(n - 1));
    }
  }

  lemma DoubledModulo(d: int, p: int)
    ensures (2 * d % 0x1_0000_0000) * p % 0x1_0000_0000 == d * (2 * p) % 0x1_0000_0000
  {
    ModuloFactor(2 * d, p);
    assert (2 * d) * p == d * (2 * p) by {
      MulAssoc(2, d, p);
      MulSwap(d, 2, p);
    }
  }

  lemma ModuloFactor(a: int, b: int)
    ensures (a % 0x1_0000_0000) * b % 0x1_0000_0000 == a * b % 0x1_0000_0000
  {
    var r, k := a % 0x1_0000_0000, a / 0x1_0000_0000;
    var q := (r * b) / 0x1_0000_0000;
    MulDistr(r, 0x1_0000_0000 * k, b);
    MulAssoc(0x1_0000_0000, k, b);
    RemainderUnique(a * b, 0x1_0000_0000, q + k * b, (r * b) % 0x1_0000_0000);
  }

  /** Bitwise or of nonnegative numbers. */
  function Or(x: nat, y: nat): nat {
    if x == 0 then y
    else (if x % 2 == 1 || y % 2 == 1 then 1 else 0) + 2 * Or(x / 2, y / 2)
  }

  /** Numbers without common bits: or is addition. */
  lemma {:induction false} OrDisjoint(x: nat, y: nat, k: nat)
    requires x < Pow2(k)
    ensures Or(x, y * Pow2(k)) == x + y * Pow2(k)
  {
    if x > 0 {
      var p := Pow2(k - 1);
      MulSwap(y, 2, p);
      assert y * Pow2(k) == 2 * (y * p);
      OrDisjoint(x / 2, y, k - 1);
    }
  }

  /** Bitwise and of nonnegative numbers. */
  function And(x: nat, y: nat): nat {
    if x == 0 || y == 0 then 0
    else (if x % 2 == 1 && y % 2 == 1 then 1 else 0) + 2 * And(x / 2, y / 2)
  }

  lemma OddMask(x: nat, m: nat)
    ensures And(x, 2 * m + 1) == x % 2 + 2 * And(x / 2, m)
  {
    assert (2 * m + 1) / 2 == m && (2 * m + 1) % 2 == 1;
  }

  lemma EvenMask(x: nat, m: nat)
    ensures And(x, 2 * m) == 2 * And(x / 2, m)
  {
    assert (2 * m) / 2 == m && (2 * m) % 2 == 0;
  }

  lemma HalfModulo(x: nat, p: int)
    requires p > 0
    ensures x % (2 * p) == 2 * ((x / 2) % p) + x % 2
  {
    var h := x / 2;
    DivMod(h, p);
    MulSwap(2, h / p, p);
    RemainderUnique(x, 2 * p, h / p, 2 * (h % p) + x % 2);
  }

  lemma {:induction false} NextLowMask(x: nat, m: nat)
    requires And(x / 2, m) == (x / 2) % (m + 1)
    ensures And(x, 2 * m + 1) == x % (2 * (m + 1))
  {
    HalfModulo(x, m + 1);
    OddMask(x, m);
  }

  /** x & (2 ^ n - 1) */
  lemma {:induction false} AndLowMask(x: nat, n: nat)
    ensures And(x, Pow2(n) - 1) == x % Pow2(n)
  {
    if n == 0 {
      RemainderUnique(x, 1, x, 0);
      assert And(x, 0) == 0;
    } else {
      AndLowMask(x / 2, n - 1);
      NextLowMask(x, Pow2(n - 1) - 1);
    }
  }

  /** A mask of the bits j..w clears the lowest j bits of a number of w bits. */
  lemma {:induction false} AndHighMask(x: nat, j: nat, w: nat)
    requires j <= w && x < Pow2(w)
    ensures Pow2(j) <= Pow2(w) && And(x, Pow2(w) - Pow2(j)) == x - x % Pow2(j)
  {
    Pow2Mono(j, w);
    if j == w {
      RemainderUnique(x, Pow2(j), 0, x);
    } else if j == 0 {
      AndLowMask(x, w);
      RemainderUnique(x, Pow2(w), 0, x);
      RemainderUnique(x, 1, x, 0);
    } else {
      AndHighMask(x / 2, j - 1, w - 1);
      var p, m := Pow2(j - 1), Pow2(w - 1) - Pow2(j - 1);
      assert Pow2(j) == 2 * p && Pow2(w) - Pow2(j) == 2 * m;
      HalfModulo(x, p);
      EvenMask(x, m);
    }
  }

  /** The position of the highest bit that is set, or -1 for zero. */
  function MostSignificantBit(d: Digit): (r: int)
    ensures d == 0 ==> r == -1
    ensures d > 0 ==> 0 <= r <= 31 && Pow2(r) <= d < Pow2(r + 1)
  {
    HighestBitRange(d);
    HighestBit(d)
  }

  function HighestBit(d: nat): (r: int)
    ensures r >= -1
  {
    if d == 0 then -1 else 1 + HighestBit(d / 2)
  }

  lemma {:induction false} HighestBitRange(d: nat)
    ensures d > 0 ==> HighestBit(d) >= 0 && Pow2(HighestBit(d)) <= d < Pow2(HighestBit(d) + 1)
    ensures d <= 0xFFFF_FFFF ==> HighestBit(d) <= 31
  {
    if d > 0 {
      HighestBitRange(d / 2);
      if HighestBit(d) > 31 && d <= 0xFFFF_FFFF {
        Pow2Mono(32, HighestBit(d));
        Pow2Of32();
      }
    }
  }
}
