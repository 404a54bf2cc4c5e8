/** Powers of a base between powers of two. */
module PowerBounds {
  import opened Digits
  import opened Bits
  import opened Exponentiation

  lemma Pow2Less(m: nat, n: nat)
    requires m < n
    ensures Pow2(m) < Pow2(n)
  {
    Pow2Mono(m, n - 1);
  }

  lemma ExponentLess(m: nat, n: nat)
    requires Pow2(m) < Pow2(n)
    ensures m < n
  {
    if m >= n {
      Pow2Mono(n, m);
    }
  }

  lemma ExponentAtMost(m: nat, n: nat)
    requires Pow2(m) <= Pow2(n)
    ensures m <= n
  {
    if m > n {
      Pow2Less(n, m);
    }
  }

  lemma {:induction false} PowerAtLeast(b: int, a: nat, c: nat, k: nat)
    requires Pow2(c) <= Pow(b, a)
    ensures Pow2(c * k) <= Pow(b, a * k)
  {
    PowPower(b, a, k);
    PowOfTwo(c, k);
    PowBaseMono(Pow2(c), Pow(b, a), k);
  }

  lemma {:induction false} PowerAtMost(b: int, a: nat, c: nat, k: nat)
    requires 0 <= Pow(b, a) <= Pow2(c)
    ensures 0 <= Pow(b, a * k) <= Pow2(c * k)
  {
    PowPower(b, a, k);
    PowOfTwo(c, k);
    PowBaseMono(Pow(b, a), Pow2(c), k);
  }

  lemma {:induction false} ProductAtLeast(b: int, m: nat, c: nat, n: nat, d: nat)
    requires Pow2(c) <= Pow(b, m) && Pow2(d) <= Pow(b, n)
    ensures Pow2(c + d) <= Pow(b, m + n)
  {
    PowAdd(b, m, n);
    Pow2Add(c, d);
    MulLe(Pow2(c), Pow(b, m), Pow2(d), Pow(b, n));
  }

  lemma {:induction false} SmallPowersOf2()
    ensures Pow2(9) == 512 && Pow2(13) == 8192 && Pow2(19) == 524288
    ensures Pow2(25) == 33554432 && Pow2(30) == 0x4000_0000 && Pow2(32) == 0x1_0000_0000
  {
    assert Pow2(6) == 64 && Pow2(7) == 128 && Pow2(9) == 512;
    Pow2Add(6, 7);
    Pow2Add(6, 13);
    Pow2Add(6, 19);
    Pow2Add(6, 7);
    Pow2Add(6, 9);
    Pow2Add(15, 15);
    Pow2Of32();
  }

  lemma Doubled(base: int, n: nat, v: int)
    requires Pow(base, n) == v
    ensures Pow(base, 2 * n) == v * v && Pow(base, 2 * n + 1) == base * (v * v)
  {
    PowAdd(base, n, n);
  }
}
