/** Remainders of powers of two by 256th powers. The numbers are too large to be
    found by the verifier, so they are built up from their factors. */
module LargePowers {
  import opened Bits
  import opened Exponentiation
  import opened PowerBounds

  lemma {:induction false} PowerOf64(base: int, v8: int, v16: int, v32: int, v64: int)
    requires Pow(base, 8) == v8 && v8 * v8 == v16 && v16 * v16 == v32 && v32 * v32 == v64
    ensures Pow(base, 64) == v64
  {
    Doubled(base, 8, v8);
    Doubled(base, 16, v16);
    Doubled(base, 32, v32);
  }

  lemma {:induction false} PowerOf256(base: int, v64: int, w: nat) returns (v128: int, v192: int)
    requires Pow(base, 64) == v64 && w == 256
    ensures v128 == v64 * v64 && v192 == v64 * v128 && Pow(base, w) == v64 * v192
  {
    v128, v192 := v64 * v64, v64 * (v64 * v64);
    PowAdd(base, 64, 64);
    PowAdd(base, 64, 128);
    PowAdd(base, 64, 192);
  }

  /** 17 ^ 256, from 17 ^ 64. */
  lemma {:induction false} PowerOf17(base: int, w: nat) returns (v128: int, v192: int)
    requires base == 17 && w == 256
    ensures v128
         == 5607005320601059253161325667991103602003892399764752527847859167616581809464321
          * 5607005320601059253161325667991103602003892399764752527847859167616581809464321
    ensures v192
         == 5607005320601059253161325667991103602003892399764752527847859167616581809464321
          * v128
    ensures Pow(base, w)
         == 5607005320601059253161325667991103602003892399764752527847859167616581809464321
          * v192
  {
    PowerOf64(base, 6975757441, 48661191875666868481, 2367911594760467245844106297320951247361,
              5607005320601059253161325667991103602003892399764752527847859167616581809464321);
    v128, v192 := PowerOf256(
      base, 5607005320601059253161325667991103602003892399764752527847859167616581809464321, w);
  }

  /** 33 ^ 256, from 33 ^ 64. */
  lemma {:induction false} PowerOf33(base: int, w: nat) returns (v128: int, v192: int)
    requires base == 33 && w == 256
    ensures v128
         == 15307072958184811420872246488959899899488864500972168001373202692974419469010486491951430830622721
          * 15307072958184811420872246488959899899488864500972168001373202692974419469010486491951430830622721
    ensures v192
         == 15307072958184811420872246488959899899488864500972168001373202692974419469010486491951430830622721
          * v128
    ensures Pow(base, w)
         == 15307072958184811420872246488959899899488864500972168001373202692974419469010486491951430830622721
          * v192
  {
    PowerOf64(base, 1406408618241, 1977985201462558877934081, 3912425457204879631503516058626198046646581314561,
              15307072958184811420872246488959899899488864500972168001373202692974419469010486491951430830622721);
    v128, v192 := PowerOf256(
      base, 15307072958184811420872246488959899899488864500972168001373202692974419469010486491951430830622721, w);
  }

  /** 35 ^ 256, from 35 ^ 64. */
  lemma {:induction false} PowerOf35(base: int, w: nat) returns (v128: int, v192: int)
    requires base == 35 && w == 256
    ensures v128
         == 661233485303375668149836762254674220999159684294975425898101273336493477472686208784580230712890625
          * 661233485303375668149836762254674220999159684294975425898101273336493477472686208784580230712890625
    ensures v192
         == 661233485303375668149836762254674220999159684294975425898101273336493477472686208784580230712890625
          * v128
    ensures Pow(base, w)
         == 661233485303375668149836762254674220999159684294975425898101273336493477472686208784580230712890625
          * v192
  {
    PowerOf64(base, 2251875390625, 5070942774902496337890625, 25714460626335829643190354132093489170074462890625,
              661233485303375668149836762254674220999159684294975425898101273336493477472686208784580230712890625);
    v128, v192 := PowerOf256(
      base, 661233485303375668149836762254674220999159684294975425898101273336493477472686208784580230712890625, w);
  }

  lemma Pow2Doubled(n: nat, v: int)
    requires Pow2(n) == v
    ensures Pow2(2 * n) == v * v && Pow2(2 * n + 1) == 2 * (v * v)
  {
    Pow2Add(n, n);
  }

  lemma {:induction false} Pow2Of211(n: nat)
    requires n == 211
    ensures Pow2(n) == 0x80000000000000000000000000000000000000000000000000000
  {
    assert Pow2(6) == 64;
    Pow2Doubled(6, 64);
    Pow2Doubled(13, 0x2000);
    Pow2Doubled(26, 0x400_0000);
    Pow2Doubled(52, 0x10_0000_0000_0000);
    Pow2Doubled(105, 0x200000000000000000000000000);
  }

  /** 2 ^ 1055, in five factors. */
  lemma {:induction false} Pow2Of1055(n: nat) returns (v2: int, v3: int, v4: int)
    requires n == 211
    ensures v2
         == 0x80000000000000000000000000000000000000000000000000000
          * 0x80000000000000000000000000000000000000000000000000000
    ensures v3 == 0x80000000000000000000000000000000000000000000000000000 * v2
    ensures v4 == 0x80000000000000000000000000000000000000000000000000000 * v3
    ensures Pow2(2 * n) == v2
    ensures Pow2(5 * n) == 0x80000000000000000000000000000000000000000000000000000 * v4
  {
    Pow2Of211(n);
    Pow2Add(n, n);
    Pow2Add(n, 2 * n);
    Pow2Add(n, 3 * n);
    Pow2Add(n, 4 * n);
    v2, v3, v4 := Pow2(2 * n), Pow2(3 * n), Pow2(4 * n);
  }

  /** What the next digit makes of a remainder. */
  ghost predicate Remainders(d: int, low: int, c: seq<int>, r: seq<int>) {
    && |r| == |c| + 1
    && (forall i :: 0 <= i < |c| ==> Next(d, c[i], r[i]) == r[i + 1])
    && (forall i :: 0 <= i < |r| ==> low < r[i] < d)
  }

  ghost function Next(d: int, c: int, r: int): int {
    0x1_0000_0000 * r - c * d
  }

  /** The remainders of 2 ^ 1055, 2 ^ 1087 and so on by 17 ^ 256. None of them is below 2 ^ 1023. */
  lemma {:induction false} RemaindersBy17(base: int, w: nat, n: nat) returns (c: seq<int>, r: seq<int>)
    requires base == 17 && w == 256 && n == 211
    ensures |c| == 16 && r != [] && r[0] == Pow2(5 * n) - 390 * Pow(base, w)
    ensures Remainders(Pow(base, w), Pow2(5 * n - 32), c, r)
  {
    var v128, v192 := PowerOf17(base, w);
    var v2, v3, v4 := Pow2Of1055(n);
    var d, low := Pow(base, w), Pow2(5 * n - 32);
    assert 0x1_0000_0000 * low == Pow2(5 * n) by {
      Pow2Of32();
      Pow2Add(32, 5 * n - 32);
    }
    var r0 := Pow2(5 * n) - 390 * d;
    var r1 := 0x1_0000_0000 * r0 - 2535701356 * d;
    var r2 := 0x1_0000_0000 * r1 - 689195274 * d;
    var r3 := 0x1_0000_0000 * r2 - 3878678701 * d;
    var r4 := 0x1_0000_0000 * r3 - 3006025816 * d;
    var r5 := 0x1_0000_0000 * r4 - 1111831189 * d;
    var r6 := 0x1_0000_0000 * r5 - 543894726 * d;
    var r7 := 0x1_0000_0000 * r6 - 261896561 * d;
    var r8 := 0x1_0000_0000 * r7 - 1579737373 * d;
    var r9 := 0x1_0000_0000 * r8 - 3008474583 * d;
    var r10 := 0x1_0000_0000 * r9 - 1532889162 * d;
    var r11 := 0x1_0000_0000 * r10 - 180448066 * d;
    var r12 := 0x1_0000_0000 * r11 - 1905609277 * d;
    var r13 := 0x1_0000_0000 * r12 - 53030276 * d;
    var r14 := 0x1_0000_0000 * r13 - 3054373298 * d;
    var r15 := 0x1_0000_0000 * r14 - 1062005803 * d;
    var r16 := 0x1_0000_0000 * r15 - 428591687 * d;
    c := [2535701356, 689195274, 3878678701, 3006025816, 1111831189, 543894726, 261896561, 1579737373,
          3008474583, 1532889162, 180448066, 1905609277, 53030276, 3054373298, 1062005803, 428591687];
    r := [r0, r1, r2, r3, r4, r5, r6, r7, r8, r9, r10, r11, r12, r13, r14, r15, r16];
  }

  /** 17 ^ 256 has 1047 bits. */
  lemma {:induction false} SizeOf17(base: int, w: nat, n: nat)
    requires base == 17 && w == 256 && n == 211
    ensures 290 * Pow(base, w) <= 2 * Pow2(5 * n) && Pow2(5 * n - 9) <= Pow(base, w)
  {
    var v128, v192 := PowerOf17(base, w);
    var v2, v3, v4 := Pow2Of1055(n);
    Pow2Add(9, 5 * n - 9);
    assert Pow2(9) == 512;
  }

  lemma {:induction false} Pow2Of541(k: nat)
    requires k == 541
    ensures Pow2(k)
         == 0x800000000000000000000000000000
          * Pow2(k - 119)
    ensures Pow2(k - 119)
         == 0x80000000000000000000000000000000000000000000000000000
          * 0x80000000000000000000000000000000000000000000000000000
  {
    assert Pow2(7) == 128;
    Pow2Doubled(7, 128);
    Pow2Doubled(14, 0x4000);
    Pow2Doubled(29, 0x20000000);
    Pow2Doubled(59, 0x800000000000000);
    Pow2Add(119, k - 119);
    Pow2Of211(211);
    Pow2Add(211, 211);
  }

  lemma {:induction false} Pow2Of357(k: nat)
    requires k == 357
    ensures Pow2(k)
         == 0x4000000000000000000000000000000000000
          * 0x80000000000000000000000000000000000000000000000000000
  {
    assert Pow2(9) == 512;
    Pow2Doubled(9, 512);
    Pow2Doubled(18, 0x40000);
    Pow2Doubled(36, 0x1000000000);
    Pow2Doubled(73, 0x2000000000000000000);
    Pow2Of211(211);
    Pow2Add(146, 211);
  }

  /** 8 * 17 ^ 133 <= 7 * 2 ^ 544 */
  lemma {:induction false} Power133(base: int, e: nat, k: nat)
    requires base == 17 && e == 133 && k == 541
    ensures 0 <= Pow(base, e) <= 7 * Pow2(k)
  {
    PowerOf64(base, 6975757441, 48661191875666868481, 2367911594760467245844106297320951247361,
              5607005320601059253161325667991103602003892399764752527847859167616581809464321);
    PowAdd(base, 64, 64);
    assert Pow(base, 5) == 1419857;
    PowAdd(base, 5, 128);
    Pow2Of541(k);
  }

  /** 8 * 17 ^ 88 <= 7 * 2 ^ 360 */
  lemma {:induction false} Power88(base: int, e: nat, k: nat)
    requires base == 17 && e == 88 && k == 357
    ensures 0 <= Pow(base, e) <= 7 * Pow2(k)
  {
    PowerOf64(base, 6975757441, 48661191875666868481, 2367911594760467245844106297320951247361,
              5607005320601059253161325667991103602003892399764752527847859167616581809464321);
    PowAdd(base, 8, 16);
    Doubled(base, 8, 6975757441);
    PowAdd(base, 24, 64);
    Pow2Of357(k);
  }

  lemma {:induction false} Pow2Of1311(n: nat)
    requires n == 211
    ensures Pow2(5 * n + 256)
         == 0x10000000000000000000000000000000000000000000000000000000000000000
          * Pow2(5 * n)
  {
    assert Pow2(8) == 256;
    Pow2Doubled(8, 256);
    Pow2Doubled(16, 0x10000);
    Pow2Doubled(32, 0x100000000);
    Pow2Doubled(64, 0x10000000000000000);
    Pow2Doubled(128, 0x100000000000000000000000000000000);
    Pow2Add(256, 5 * n);
  }

  /** The remainder of 2 ^ 1311 by 33 ^ 256 is above 2 ^ 1279. */
  lemma {:induction false} RemainderBy33(base: int, w: nat, n: nat)
    requires base == 33 && w == 256 && n == 211
    ensures Pow2(5 * n + 224) < Pow2(5 * n + 256) - 814246 * Pow(base, w) < Pow(base, w) <= Pow2(5 * n + 256)
  {
    var v128, v192 := PowerOf33(base, w);
    var v2, v3, v4 := Pow2Of1055(n);
    Pow2Of1311(n);
    Pow2Of32();
    Pow2Add(32, 5 * n + 224);
  }

  /** The remainder of 2 ^ 1343 by 35 ^ 256 is above 2 ^ 1311, and 35 ^ 262 below 2 ^ 1344. */
  lemma {:induction false} RemainderBy35(base: int, w: nat, n: nat)
    requires base == 35 && w == 256 && n == 211
    ensures Pow2(5 * n + 256) < Pow2(5 * n + 288) - 1004303145 * Pow(base, w) < Pow(base, w)
    ensures 1838265626 * Pow(base, w) <= 2 * Pow2(5 * n + 288)
  {
    var v128, v192 := PowerOf35(base, w);
    var v2, v3, v4 := Pow2Of1055(n);
    Pow2Of1311(n);
    Pow2Of32();
    Pow2Add(32, 5 * n + 256);
  }
}
