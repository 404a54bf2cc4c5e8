/** Knuth's Algorithm D (The Art of Computer Programming, volume 2, section
    4.3.1) on unsigned numbers, as src/big_rtl.c realises it. */
module LongDivision {
  import opened Digits
  import opened Carries
  import opened BigRecord
  import opened DivisionLaws

  // -------------------------------------------------- multiply and subtract

  /** s - m * v over i digits, without the part of the product that is still in
      the multiplication carry, and shifted up to be nonnegative. */
  ghost function DividendLeft(s: seq<Digit>, k: nat, v: seq<Digit>, m: Digit, i: nat, multCarry: int): int
    requires k + i <= |s| && i <= |v|
  {
    UVal(s[k..k + i]) - m * UVal(v[..i]) + Shl(multCarry, i) + Radix(i)
  }

  lemma DividendLeftNext(s: seq<Digit>, k: nat, v: seq<Digit>, m: Digit, i: nat, multCarry: int, lo: int, hi: int)
    requires k + i < |s| && i < |v|
    requires multCarry + v[i] * m == lo + 0x1_0000_0000 * hi
    ensures DividendLeft(s, k, v, m, i + 1, hi)
         == DividendLeft(s, k, v, m, i, multCarry) + Shl(s[k + i] as int + (0xFFFF_FFFF - lo), i)
  {
    UValExtend(s, k, k + i);
    MulPrefix(m, v, i);
    ShlCarry(multCarry, v[i] * m, lo, hi, i);
    ShlAdd(s[k + i], 0xFFFF_FFFF - lo, i);
    ShlAdd(0xFFFF_FFFF, lo, i);
    ShlMask(i);
  }

  /** The digit-by-digit part of uBigMultSub. */
  method MultSubDigits(d: array<Digit>, k: nat, v: array<Digit>, n: nat, m: Digit)
    returns (multCarry: Double, sbtrCarry: Double)
    requires d != v && n <= v.Length && k + n <= d.Length
    modifies d
    ensures multCarry <= 0xFFFF_FFFF && sbtrCarry <= 1 && OnlyChanged(d, k, k + n)
    ensures Stands(d[k..k + n], sbtrCarry - 1 - multCarry, old(UVal(d[k..k + n])) - m * UVal(v[..n]))
  {
    ghost var s, w := d[..], v[..n];
    var pos := 0;
    multCarry, sbtrCarry := 0, 1;
    while pos < n
      invariant 0 <= pos <= n && multCarry <= 0xFFFF_FFFF && sbtrCarry <= 1
      invariant OnlyChanged(d, k, k + pos)
      invariant Stands(d[k..k + pos], sbtrCarry, DividendLeft(s, k, w, m, pos, multCarry))
    {
      ghost var before := multCarry;
      DigitProduct(v[pos], m);
      multCarry := multCarry + v[pos] * m;
      DividendLeftNext(s, k, w, m, pos, before, multCarry % 0x1_0000_0000, multCarry / 0x1_0000_0000);
      sbtrCarry := Put(d, k, k + pos, sbtrCarry + d[k + pos] + (0xFFFF_FFFF - multCarry % 0x1_0000_0000),
                       sbtrCarry, s[k + pos] as int + (0xFFFF_FFFF - multCarry % 0x1_0000_0000),
                       DividendLeft(s, k, w, m, pos, before));
      multCarry := multCarry / 0x1_0000_0000;
      pos := pos + 1;
    }
    assert w[..n] == w;
    RestDone(sbtrCarry, multCarry, n);
  }

  lemma RestDone(sbtrCarry: int, multCarry: int, n: nat)
    ensures Shl(sbtrCarry - 1 - multCarry, n) == Shl(sbtrCarry, n) - Radix(n) - Shl(multCarry, n)
  {
    ShlAdd(sbtrCarry, 1 + multCarry, n);
    ShlAdd(1, multCarry, n);
    ShlOne(n);
  }

  /** The part of uBigMultSub that subtracts the last multiplication carry. */
  method MultSubCarry(d: array<Digit>, from: nat, hi: nat, multCarryIn: Double, sbtrCarryIn: Double)
    returns (pos: nat, sbtrCarry: Double)
    requires from < hi <= d.Length && multCarryIn <= 0xFFFF_FFFF && sbtrCarryIn <= 1
    modifies d
    ensures from <= pos <= hi && sbtrCarry <= 1 && OnlyChanged(d, from, pos)
    ensures Stands(d[from..pos], sbtrCarry - 1, UVal(old(d[..])[from..pos]) + (sbtrCarryIn - 1 - multCarryIn))
  {
    ghost var s := d[..];
    var multCarry;
    pos, multCarry, sbtrCarry := from, multCarryIn, sbtrCarryIn;
    while multCarry != 0 && pos < hi
      invariant from <= pos <= hi && multCarry <= 0xFFFF_FFFF && sbtrCarry <= 1
      invariant multCarry != 0 ==> pos == from && multCarry == multCarryIn && sbtrCarry == sbtrCarryIn
      invariant OnlyChanged(d, from, pos)
      invariant multCarry == 0
          ==> Stands(d[from..pos], sbtrCarry - 1, UVal(s[from..pos]) + (sbtrCarryIn - 1 - multCarryIn))
    {
      var acc: Double := sbtrCarry + d[pos] + (0xFFFF_FFFF - multCarry % 0x1_0000_0000);
      d[pos] := acc % 0x1_0000_0000;
      multCarry := multCarry / 0x1_0000_0000;
      sbtrCarry := acc / 0x1_0000_0000;
      assert d[from..pos + 1] == [d[pos]] && s[from..pos + 1] == [s[pos]];
      pos := pos + 1;
    }
  }

  /** Subtracts multiplier * big2 from big1 at digit pos1. The result is 1 when
      the difference is nonnegative and 0 when it wrapped around. */
  method UBigMultSub(big1: Big, big2: Big, multiplier: Digit, pos1: nat) returns (noBorrow: Digit)
    requires big1.Valid() && big2.Valid() && big1.bigdigits != big2.bigdigits
    requires pos1 + big2.size < big1.size
    modifies big1.bigdigits
    ensures noBorrow <= 1 && OnlyChanged(big1.bigdigits, pos1, big1.size)
    ensures Stands(big1.bigdigits[pos1..big1.size], noBorrow - 1,
                   old(UVal(big1.bigdigits[pos1..big1.size])) - multiplier * big2.Unsigned())
  {
    var d, from, hi := big1.bigdigits, pos1 + big2.size, big1.size;
    ghost var s, delta := d[..], - (multiplier * big2.Unsigned());
    var multCarry, sbtrCarry := MultSubDigits(d, pos1, big2.bigdigits, big2.size, multiplier);
    ghost var s1, carry1 := d[..], sbtrCarry as int - 1 - multCarry as int;
    var pos;
    pos, sbtrCarry := MultSubCarry(d, from, hi, multCarry, sbtrCarry);
    ghost var s2, carry2 := d[..], sbtrCarry as int - 1;
    assert s1[from..pos] == s[from..pos];
    assert s2[pos1..from] == s1[pos1..from] && s2[pos..hi] == s[pos..hi];
    RegionsJoin(s2, s, pos1, from, pos, carry1, delta, carry2);
    sbtrCarry := PropagateBorrow(d, pos, hi, sbtrCarry);
    assert d[pos1..pos] == s2[pos1..pos];
    RegionsJoin(d[..], s, pos1, pos, hi, carry2, delta, sbtrCarry as int - 1);
    return sbtrCarry;
  }

  /** Adds big2 to big1 at digit pos1. The source ignores the final carry. */
  method UBigAddTo(big1: Big, big2: Big, pos1: nat) returns (ghost carry: int)
    requires big1.Valid() && big2.Valid() && big1.bigdigits != big2.bigdigits
    requires pos1 + big2.size <= big1.size
    modifies big1.bigdigits
    ensures 0 <= carry <= 1 && OnlyChanged(big1.bigdigits, pos1, big1.size)
    ensures Stands(big1.bigdigits[pos1..big1.size], carry,
                   old(UVal(big1.bigdigits[pos1..big1.size])) + big2.Unsigned())
  {
    var d, from, hi := big1.bigdigits, pos1 + big2.size, big1.size;
    ghost var s := d[..];
    var c := AddTo(d, pos1, big2.bigdigits, big2.size);
    ghost var s1, carry1 := d[..], c as int;
    assert s1[from..hi] == s[from..hi];
    c := AddSign(d, d, from, hi, c, 0);
    assert d[pos1..from] == s1[pos1..from];
    RegionsJoin(d[..], s, pos1, from, hi, carry1, big2.Unsigned(), c);
    carry := c;
  }

  // ------------------------------------------------------------ trial digit

  /** The value of two digits, and of three. */
  function Two(high: Digit, low: Digit): (r: Double) {
    MulLe(high, 0xFFFF_FFFF, 0x1_0000_0000, 0x1_0000_0000);
    high * 0x1_0000_0000 + low
  }

  /** The loop test compares the quotient digit with the three-by-two quotient. */
  lemma TestMeans(q: Digit, v1: Digit, v0: Digit, t: Double, u0: Digit)
    ensures q * Two(v1, v0) - (t * 0x1_0000_0000 + u0) == v0 * q - ((t - q * v1) * 0x1_0000_0000 + u0)
  {
    MulDistr(v1 * 0x1_0000_0000, v0, q);
    MulAssoc(q, v1, 0x1_0000_0000);
  }

  lemma FirstDigit(u2: Digit, u1: Digit, u0: Digit, v1: Digit, v0: Digit, q: int, r: int)
    requires u2 < v1 && q >= 0 && Two(u2, u1) == q * v1 + r && 0 <= r < v1
    ensures q <= 0xFFFF_FFFF && q * v1 <= Two(u2, u1)
    ensures Two(u2, u1) * 0x1_0000_0000 + u0 < (q + 1) * Two(v1, v0)
  {
    if q > 0xFFFF_FFFF {
      MulLe(0x1_0000_0000, q, v1, v1);
      assert false;
    }
    MulDistr(q, 1, v1);
    assert Two(u2, u1) + 1 <= (q + 1) * v1;
    MulAssoc(q + 1, v1, 0x1_0000_0000);
    MulDistr(v1 * 0x1_0000_0000, v0, q + 1);
    MulLe(0, v0, 0, q + 1);
  }

  /** The first digit is at most 2 too large, because the top bit of v1 is set. */
  lemma TwoCorrections(q: int, v1: Digit, v0: Digit, t: Double)
    requires IsNegative(v1) && 2 <= q <= 0xFFFF_FFFF && q * v1 <= t
    ensures (q - 2) * Two(v1, v0) <= t * 0x1_0000_0000
  {
    MulDistr(v1 * 0x1_0000_0000, v0, q - 2);
    MulLe(v0, 0x1_0000_0000, q - 2, q - 2);
    MulDistr(q, 2, v1);
    MulAssoc(q - 2, v1, 0x1_0000_0000);
  }

  ghost function Three(high: Digit, middle: Digit, low: Digit): int {
    Two(high, middle) as int * 0x1_0000_0000 + low
  }

  /** The quotient digit computed from the three top digits of the dividend and
      the two top digits of the divisor: the floor of their quotient, or the
      largest digit if that is smaller. Two corrections suffice. */
  method TrialDigit(u2: Digit, u1: Digit, u0: Digit, v1: Digit, v0: Digit)
    returns (quotientdigit: Digit, ghost corrections: nat)
    requires IsNegative(v1) && u2 <= v1
    ensures quotientdigit * Two(v1, v0) as int <= Three(u2, u1, u0)
    ensures quotientdigit == 0xFFFF_FFFF || Three(u2, u1, u0) < (quotientdigit + 1) * Two(v1, v0) as int
    ensures corrections <= 2
  {
    var twodigits: Double := Two(u2, u1);
    if u2 == v1 {
      quotientdigit := 0xFFFF_FFFF;
      MulLe(quotientdigit, 0x1_0000_0000, v1, v1);
    } else {
      DivMod(twodigits, v1);
      FirstDigit(u2, u1, u0, v1, v0, twodigits / v1, twodigits % v1);
      quotientdigit := twodigits / v1;
    }
    ghost var first := quotientdigit;
    ghost var three, two := Three(u2, u1, u0), Two(v1, v0) as int;
    var remainder: Double := twodigits - quotientdigit * v1;
    corrections := 0;
    while remainder <= 0xFFFF_FFFF && v0 * quotientdigit > remainder * 0x1_0000_0000 + u0
      invariant remainder as int == twodigits as int - quotientdigit * v1
      invariant first - quotientdigit == corrections <= 2 && first * v1 <= twodigits
      invariant quotientdigit == 0xFFFF_FFFF || three < (quotientdigit + 1) * two
      decreases quotientdigit
    {
      TestMeans(quotientdigit, v1, v0, twodigits, u0);
      if corrections == 2 {
        TwoCorrections(first, v1, v0, twodigits);
        assert false;
      }
      MulLe(quotientdigit - 1, quotientdigit, v1, v1);
      quotientdigit := quotientdigit - 1;
      remainder := twodigits - quotientdigit * v1;
      corrections := corrections + 1;
    }
    TestMeans(quotientdigit, v1, v0, twodigits, u0);
    TestEnds(remainder, v0, quotientdigit);
  }

  lemma TestEnds(remainder: Double, v0: Digit, q: Digit)
    ensures remainder > 0xFFFF_FFFF ==> v0 * q < remainder * 0x1_0000_0000
  {
    MulLe(v0, 0xFFFF_FFFF, q, 0xFFFF_FFFF);
  }

  // --------------------------------------------------- one quotient digit

  /** Three top digits of the window against two top digits of the divisor: the
      trial digit is the true quotient digit or one more. P is the weight of
      the digits that were not looked at. */
  lemma TrialIsClose(three: int, two: int, q: int, P: int, wlow: int, vlow: int, W: int, V: int)
    requires P > 0 && 0 <= wlow < P && 0 <= vlow < P && two >= 0xFFFF_FFFF && 0 <= q <= 0xFFFF_FFFF
    requires W == three * P + wlow && V == two * P + vlow && 0 <= W < 0x1_0000_0000 * V
    requires q * two <= three && (q == 0xFFFF_FFFF || three < (q + 1) * two)
    ensures W < (q + 1) * V
    ensures q > 0 ==> (q - 1) * V <= W
  {
    assert q * (two * P) <= W by {
      MulLe0(q * two, three, P);
      MulAssoc(q, two, P);
    }
    if q > 0 {
      MulDistr(two * P, vlow, q - 1);
      MulDistr(q, 1, two * P);
      MulLe(q - 1, two, vlow, P);
    }
    if q < 0xFFFF_FFFF {
      MulDistr(two * P, vlow, q + 1);
      MulLe(0, vlow, 0, q + 1);
      MulLe0(three + 1, (q + 1) * two, P);
      MulDistr(three, 1, P);
      MulAssoc(q + 1, two, P);
    }
  }

  /** The digits of s from k on have the value top. */
  ghost predicate TopOf(s: seq<Digit>, k: nat, top: int)
    requires k <= |s|
  {
    UVal(s) == top * Radix(k) + UVal(s[..k]) && 0 <= UVal(s[..k]) < Radix(k)
  }

  lemma TopDigits(s: seq<Digit>, k: nat)
    requires k <= |s|
    ensures TopOf(s, k, UVal(s[k..]))
  {
    UValSplit(s, k);
    ShlRadix(UVal(s[k..]), k);
    UValBound(s[..k]);
  }

  lemma TwoDigits(t: seq<Digit>)
    requires |t| == 2
    ensures UVal(t) == Two(t[1], t[0])
  {
    assert t[1..] == [t[1]] && UVal([t[1]]) == t[1];
  }

  lemma ThreeDigits(t: seq<Digit>)
    requires |t| == 3
    ensures UVal(t) == Two(t[2], t[1]) * 0x1_0000_0000 + t[0]
  {
    TwoDigits(t[1..]);
  }

  /** When the digits above k are less than the divisor, only n + 1 of the digits
      from k on can differ from zero. */
  lemma Window(u: seq<Digit>, v: seq<Digit>)
    requires |u| > |v| && UVal(u[1..]) < UVal(v)
    ensures UVal(u) == UVal(u[..|v| + 1]) < 0x1_0000_0000 * UVal(v)
    ensures UVal(u[..|v| + 1][1..]) < UVal(v)
  {
    UValBound(v);
    UValSmall(u[1..], |v|);
    assert u[..|v| + 1][1..] == u[1..][..|v|];
  }

  /** The top digit of the window cannot exceed the top digit of the divisor. */
  lemma WindowTop(w: seq<Digit>, v: seq<Digit>)
    requires |w| == |v| + 1 > 1 && UVal(w[1..]) < UVal(v)
    ensures w[|v|] <= v[|v| - 1]
  {
    var n := |v|;
    if w[n] > v[n - 1] {
      UValPrefix(v, n - 1);
      UValPrefix(w[1..], n - 1);
      assert v[..n] == v && w[1..][..n] == w[1..];
      UValBound(v[..n - 1]);
      ShlMono(v[n - 1] as int + 1, w[n], n - 1);
      ShlAdd(v[n - 1], 1, n - 1);
      ShlOne(n - 1);
      assert false;
    }
  }

  /** The trial digit for the quotient of u by v, when the digits of u above
      the lowest one are less than v. */
  lemma TrialMeans(u: seq<Digit>, v: seq<Digit>, q: Digit, three: int, two: int)
    requires |u| > |v| >= 2 && UVal(u[1..]) < UVal(v) && two >= 0xFFFF_FFFF
    requires TopOf(u[..|v| + 1], |v| - 2, three) && TopOf(v, |v| - 2, two)
    requires q * two <= three && (q == 0xFFFF_FFFF || three < (q + 1) * two)
    ensures UVal(u) < (q + 1) * UVal(v)
    ensures q > 0 ==> (q - 1) * UVal(v) <= UVal(u)
  {
    var n := |v|;
    var w := u[..n + 1];
    Window(u, v);
    TrialIsClose(three, two, q, Radix(n - 2), UVal(w[..n - 2]), UVal(v[..n - 2]), UVal(w), UVal(v));
  }

  // ------------------------------------------------------- the whole loop

  /** Subtracting a multiple of the divisor that is at most one too large, and
      adding the divisor back if it was. */
  lemma AddBack(W: int, V: int, q: int, d1: int, noBorrow: int, d2: int, carry: int, n: nat)
    requires 0 <= d1 < Radix(n) && 0 <= d2 < Radix(n) && 0 <= noBorrow <= 1 && 0 <= carry <= 1
    requires 0 <= W && 0 < V <= Radix(n) && W < (q + 1) * V && (q > 0 ==> (q - 1) * V <= W) && q >= 0
    requires d1 + Shl(noBorrow - 1, n) == W - q * V
    ensures noBorrow == 1 ==> 0 <= d1 < V && W == q * V + d1
    ensures noBorrow == 0 && d2 + Shl(carry, n) == d1 + V ==> q > 0 && 0 <= d2 < V && W == (q - 1) * V + d2
  {
    ShlOne(n);
    ShlRadix(-1, n);
    MulDistr(q, 1, V);
    if noBorrow == 0 {
      if q == 0 {
        assert false;
      }
      if d2 + Shl(carry, n) == d1 + V {
        assert carry == 1;
      }
    }
  }

  /** The quotient digit of the window from digit k on: the true one, or one more. */
  method WindowDigit(dividend: Big, divisor: Big, k: nat) returns (quotientdigit: Digit)
    requires dividend.Valid() && divisor.Valid()
    requires divisor.size >= 2 && divisor.Negative() && k + divisor.size < dividend.size
    requires UVal(dividend.bigdigits[k + 1..dividend.size]) < divisor.Unsigned()
    ensures UVal(dividend.bigdigits[k..dividend.size]) < (quotientdigit + 1) * divisor.Unsigned()
    ensures quotientdigit > 0
        ==> (quotientdigit - 1) * divisor.Unsigned() <= UVal(dividend.bigdigits[k..dividend.size])
  {
    var d, v, n := dividend.bigdigits, divisor.bigdigits, divisor.size;
    ghost var u, w := d[k..dividend.size], divisor.Digits();
    assert u[1..] == d[k + 1..dividend.size];
    Window(u, w);
    WindowTop(u[..n + 1], w);
    var pos1 := k + n;
    ghost var corrections;
    quotientdigit, corrections := TrialDigit(d[pos1], d[pos1 - 1], d[pos1 - 2], v[n - 1], v[n - 2]);
    TopThree(u[..n + 1], n - 2);
    TopTwo(w, n - 2);
    TrialMeans(u, w, quotientdigit, Three(u[n], u[n - 1], u[n - 2]), Two(w[n - 1], w[n - 2]));
  }

  lemma TopThree(w: seq<Digit>, k: nat)
    requires |w| == k + 3
    ensures TopOf(w, k, Three(w[k + 2], w[k + 1], w[k]))
  {
    TopDigits(w, k);
    ThreeDigits(w[k..]);
  }

  lemma TopTwo(w: seq<Digit>, k: nat)
    requires |w| == k + 2
    ensures TopOf(w, k, Two(w[k + 1], w[k]))
  {
    TopDigits(w, k);
    TwoDigits(w[k..]);
  }

  /** Subtracts the multiple of the divisor, and adds the divisor back if the digit
      was one too large. */
  method SubtractMultiple(dividend: Big, divisor: Big, q: Digit, k: nat) returns (quotientdigit: Digit)
    requires dividend.Valid() && divisor.Valid() && dividend.bigdigits != divisor.bigdigits
    requires k + divisor.size < dividend.size && 0 < divisor.Unsigned() <= Radix(dividend.size - k)
    requires UVal(dividend.bigdigits[k..dividend.size]) < (q + 1) * divisor.Unsigned()
    requires q > 0 ==> (q - 1) * divisor.Unsigned() <= UVal(dividend.bigdigits[k..dividend.size])
    modifies dividend.bigdigits
    ensures OnlyChanged(dividend.bigdigits, k, dividend.size)
    ensures UVal(dividend.bigdigits[k..dividend.size]) < divisor.Unsigned()
    ensures old(UVal(dividend.bigdigits[k..dividend.size]))
         == quotientdigit * divisor.Unsigned() + UVal(dividend.bigdigits[k..dividend.size])
  {
    var d, hi := dividend.bigdigits, dividend.size;
    ghost var W, V := UVal(d[k..hi]), divisor.Unsigned();
    quotientdigit := q;
    var sbtrCarry := UBigMultSub(dividend, divisor, quotientdigit, k);
    ghost var d1, carry := d[k..hi], 0;
    UValBound(d1);
    if sbtrCarry == 0 {
      carry := UBigAddTo(dividend, divisor, k);
      UValBound(d[k..hi]);
      AddBack(W, V, q, UVal(d1), 0, UVal(d[k..hi]), carry, hi - k);
      quotientdigit := quotientdigit - 1;
    } else {
      AddBack(W, V, q, UVal(d1), 1, 0, 0, hi - k);
    }
  }

  /** One round of the loops of uBigDiv and uBigRem, at the digits from k on. */
  method DivStep(dividend: Big, divisor: Big, k: nat) returns (quotientdigit: Digit)
    requires dividend.Valid() && divisor.Valid() && dividend.bigdigits != divisor.bigdigits
    requires divisor.size >= 2 && divisor.Negative() && k + divisor.size < dividend.size
    requires UVal(dividend.bigdigits[k + 1..dividend.size]) < divisor.Unsigned()
    modifies dividend.bigdigits
    ensures OnlyChanged(dividend.bigdigits, k, dividend.size)
    ensures UVal(dividend.bigdigits[k..dividend.size]) < divisor.Unsigned()
    ensures old(UVal(dividend.bigdigits[k..dividend.size]))
         == quotientdigit * divisor.Unsigned() + UVal(dividend.bigdigits[k..dividend.size])
  {
    UValBound(divisor.Digits());
    RadixMono(divisor.size, dividend.size - k);
    var q := WindowDigit(dividend, divisor, k);
    quotientdigit := SubtractMultiple(dividend, divisor, q, k);
  }

  /** Fewer in the top digit is fewer altogether. */
  lemma TopBelow(u: seq<Digit>, v: seq<Digit>)
    requires |u| == |v| > 0 && u[|u| - 1] < v[|v| - 1]
    ensures UVal(u) < UVal(v)
  {
    var n := |u| - 1;
    UValPrefix(u, n);
    UValPrefix(v, n);
    assert u[..n + 1] == u && v[..n + 1] == v;
    UValBound(u[..n]);
    ShlMono(u[n] as int + 1, v[n], n);
    ShlAdd(u[n], 1, n);
    ShlOne(n);
  }

  /** The equation that a round of the division keeps. */
  lemma QuotientNext(W: int, X: int, V: int, digit: int, quotient: int, k: nat)
    requires W == digit * V + X
    ensures Shl(W, k) + Shl(V * quotient, k + 1) == Shl(X, k) + Shl(V * (digit + 0x1_0000_0000 * quotient), k)
  {
    ShlAdd(digit * V, X, k);
    ShlStep(V * quotient, k);
    MulDistr(digit, 0x1_0000_0000 * quotient, V);
    MulSwap(V, 0x1_0000_0000, quotient);
    ShlAdd(digit * V, 0x1_0000_0000 * (V * quotient), k);
  }

  /** What is left of the dividend, and the quotient digits found so far. */
  ghost predicate Divided(dividend: seq<Digit>, rest: seq<Digit>, V: int, quotient: seq<Digit>, k: nat)
    requires k <= |rest|
  {
    && UVal(dividend) == UVal(rest) + Shl(V * UVal(quotient), k)
    && UVal(rest[k..]) < V
  }

  lemma DividedNext(dividend: seq<Digit>, rest: seq<Digit>, V: int, quotient: seq<Digit>, k: nat,
                    rest': seq<Digit>, digit: Digit)
    requires k < |rest| == |rest'| && Divided(dividend, rest, V, quotient, k + 1)
    requires rest'[..k] == rest[..k] && UVal(rest'[k..]) < V
    requires UVal(rest[k..]) == digit * V + UVal(rest'[k..])
    ensures Divided(dividend, rest', V, [digit] + quotient, k)
  {
    UValSplit(rest, k);
    UValSplit(rest', k);
    QuotientNext(UVal(rest[k..]), UVal(rest'[k..]), V, digit, UVal(quotient), k);
    assert ([digit] + quotient)[1..] == quotient;
  }

  lemma DividedStart(dividend: seq<Digit>, v: seq<Digit>)
    requires |dividend| >= |v| > 0 && dividend[|dividend| - 1] < v[|v| - 1]
    ensures Divided(dividend, dividend, UVal(v), [], |dividend| - |v|)
  {
    var m := |dividend| - |v|;
    TopBelow(dividend[m..], v);
    ShlOne(m);
  }

  /** Knuth's precondition: the divisor has its top bit set, and the top digit of
      the dividend is below the top digit of the divisor. */
  ghost predicate ReadyToDivide(dividend: Big, divisor: Big)
    reads dividend, dividend.bigdigits, divisor, divisor.bigdigits
  {
    && dividend.Valid() && divisor.Valid() && dividend.bigdigits != divisor.bigdigits
    && dividend.size >= divisor.size >= 2 && divisor.Negative()
    && dividend.bigdigits[dividend.size - 1] < divisor.bigdigits[divisor.size - 1]
  }

  /** One round, with the equation that the loops keep. */
  method DivRound(dividend: Big, divisor: Big, k: nat, ghost s: seq<Digit>, ghost found: seq<Digit>)
    returns (quotientdigit: Digit)
    requires dividend.Valid() && divisor.Valid() && dividend.bigdigits != divisor.bigdigits
    requires divisor.size >= 2 && divisor.Negative() && k + divisor.size < dividend.size
    requires Divided(s, dividend.Digits(), divisor.Unsigned(), found, k + 1)
    modifies dividend.bigdigits
    ensures OnlyChanged(dividend.bigdigits, 0, dividend.size)
    ensures Divided(s, dividend.Digits(), divisor.Unsigned(), [quotientdigit] + found, k)
  {
    ghost var d, hi, rest := dividend.bigdigits, dividend.size, dividend.Digits();
    assert rest[k + 1..] == d[k + 1..hi] && rest[k..] == d[k..hi];
    quotientdigit := DivStep(dividend, divisor, k);
    ghost var rest' := dividend.Digits();
    assert rest'[k..] == d[k..hi] && rest'[..k] == rest[..k];
    DividedNext(s, rest, divisor.Unsigned(), found, k, rest', quotientdigit);
  }

  lemma DividedEnd(s: seq<Digit>, rest: seq<Digit>, V: int, quotient: seq<Digit>)
    requires Divided(s, rest, V, quotient, 0)
    ensures IsDivision(UVal(s), V, UVal(quotient), UVal(rest))
  {
    assert rest[0..] == rest;
  }

  /** Divides dividend by divisor. The remainder is left in the dividend. */
  method UBigDiv(dividend: Big, divisor: Big, quotient: Big)
    requires ReadyToDivide(dividend, divisor)
    requires quotient.bigdigits != dividend.bigdigits && quotient.bigdigits != divisor.bigdigits
    requires quotient.bigdigits.Length >= dividend.size - divisor.size
    modifies dividend.bigdigits, quotient.bigdigits
    ensures OnlyChanged(dividend.bigdigits, 0, dividend.size)
    ensures OnlyChanged(quotient.bigdigits, 0, dividend.size - divisor.size)
    ensures IsDivision(old(dividend.Unsigned()), divisor.Unsigned(),
                       UVal(quotient.bigdigits[..dividend.size - divisor.size]), dividend.Unsigned())
  {
    var q, n := quotient.bigdigits, divisor.size;
    ghost var s, m := dividend.Digits(), dividend.size - n;
    var pos1 := dividend.size - 1;
    DividedStart(s, divisor.Digits());
    ghost var found: seq<Digit> := [];
    while pos1 >= n
      invariant n - 1 <= pos1 < dividend.size
      invariant OnlyChanged(dividend.bigdigits, 0, dividend.size) && OnlyChanged(q, 0, m)
      invariant found == q[pos1 + 1 - n..m]
      invariant Divided(s, dividend.Digits(), divisor.Unsigned(), found, pos1 + 1 - n)
      decreases pos1
    {
      var quotientdigit := DivRound(dividend, divisor, pos1 - n, s, found);
      q[pos1 - n] := quotientdigit;
      found := [quotientdigit] + found;
      pos1 := pos1 - 1;
    }
    assert found == q[..m];
    DividedEnd(s, dividend.Digits(), divisor.Unsigned(), found);
  }

  /** The remainder of dividing dividend by divisor, left in the dividend. */
  method UBigRem(dividend: Big, divisor: Big) returns (ghost q: int)
    requires ReadyToDivide(dividend, divisor)
    modifies dividend.bigdigits
    ensures OnlyChanged(dividend.bigdigits, 0, dividend.size)
    ensures IsDivision(old(dividend.Unsigned()), divisor.Unsigned(), q, dividend.Unsigned())
  {
    var n := divisor.size;
    ghost var s, found: seq<Digit> := dividend.Digits(), [];
    var pos1 := dividend.size - 1;
    DividedStart(s, divisor.Digits());
    while pos1 >= n
      invariant n - 1 <= pos1 < dividend.size
      invariant OnlyChanged(dividend.bigdigits, 0, dividend.size)
      invariant Divided(s, dividend.Digits(), divisor.Unsigned(), found, pos1 + 1 - n)
      decreases pos1
    {
      ghost var quotientdigit := DivRound(dividend, divisor, pos1 - n, s, found);
      found := [quotientdigit] + found;
      pos1 := pos1 - 1;
    }
    DividedEnd(s, dividend.Digits(), divisor.Unsigned(), found);
    q := UVal(found);
  }
}
