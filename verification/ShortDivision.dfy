/** Loops of src/big_rtl.c that run from the top digit down: division by one
    digit, and shifts by less than a digit. */
module ShortDivision {
  import opened Digits
  import opened Carries
  import opened Bits
  import opened BigRecord

  /** s divided by d: the quotient digits q and the remainder carry. */
  ghost predicate ShortDivided(s: seq<Digit>, d: int, q: seq<Digit>, carry: int) {
    UVal(s) == d * UVal(q) + carry && 0 <= carry < d
  }

  lemma ShortDividedNext(s: seq<Digit>, d: Digit, q: seq<Digit>, carry: int, a: Digit)
    requires ShortDivided(s, d, q, carry)
    ensures var x := carry * 0x1_0000_0000 + a;
      && 0 <= x / d <= 0xFFFF_FFFF && 0 <= x % d < d
      && ShortDivided([a] + s, d, [x / d] + q, x % d)
  {
    var x := carry * 0x1_0000_0000 + a;
    DivMod(x, d);
    var digit, carry' := x / d, x % d;
    if digit > 0xFFFF_FFFF {
      MulLe(0x1_0000_0000, digit, d, d);
      assert false;
    }
    assert ([a] + s)[1..] == s && ([digit] + q)[1..] == q;
    MulDistr(digit, 0x1_0000_0000 * UVal(q), d);
    MulSwap(d, 0x1_0000_0000, UVal(q));
  }

  /** r = a / d over n digits; r and a may be one buffer. The result is the
      remainder. */
  method DivideDigits(r: array<Digit>, a: array<Digit>, n: nat, d: Digit) returns (remainder: Digit)
    requires 0 < n <= r.Length && n <= a.Length && d > 0
    modifies r
    ensures OnlyChanged(r, 0, n)
    ensures ShortDivided(old(a[..n]), d, r[..n], remainder)
    ensures old(UVal(a[..n])) == d * UVal(r[..n]) + remainder && remainder < d
  {
    ghost var s := a[..n];
    var pos := n;
    var carry: Double := 0;
    assert s[n..] == [] && r[n..n] == [];
    while pos > 0
      invariant 0 <= pos <= n && carry < d
      invariant OnlyChanged(r, pos, n)
      invariant r != a ==> a[..n] == s
      invariant ShortDivided(s[pos..], d, r[pos..n], carry)
    {
      pos := pos - 1;
      assert a[pos] == s[pos];
      ghost var found := r[pos + 1..n];
      ShortDividedNext(s[pos + 1..], d, found, carry, s[pos]);
      carry := carry * 0x1_0000_0000 + a[pos];
      r[pos] := carry / d;
      carry := carry % d;
      assert s[pos..] == [s[pos]] + s[pos + 1..];
      assert r[pos + 1..n] == found;
      assert r[pos..n] == [r[pos]] + r[pos + 1..n];
    }
    assert s[0..] == s && r[0..n] == r[..n];
    return carry;
  }

  /** The same loop without a quotient (uBigRem1). */
  method RemainderDigits(a: array<Digit>, n: nat, d: Digit) returns (remainder: Digit)
    requires 0 < n <= a.Length && d > 0
    ensures remainder == UVal(a[..n]) % d
  {
    ghost var s, q: seq<Digit> := a[..n], [];
    var pos := n;
    var carry: Double := 0;
    assert s[n..] == [];
    while pos > 0
      invariant 0 <= pos <= n && carry < d
      invariant ShortDivided(s[pos..], d, q, carry)
    {
      pos := pos - 1;
      ShortDividedNext(s[pos + 1..], d, q, carry, s[pos]);
      carry := carry * 0x1_0000_0000 + a[pos];
      q := [carry / d] + q;
      carry := carry % d;
      assert s[pos..] == [s[pos]] + s[pos + 1..];
    }
    assert s[0..] == s;
    RemainderUnique(UVal(s), d, UVal(q), carry);
    return carry;
  }

  // ------------------------------------------------------------------ shifts

  /** carry |= digit << lshift, where the carry has less than lshift bits. */
  lemma ShiftedDigit(carry: Double, digit: Digit, p: int)
    requires 0 < p <= 0x8000_0000 && carry < p
    ensures var acc := carry + digit * p;
      && 0 <= acc <= 0xFFFF_FFFF_FFFF_FFFF && acc / 0x1_0000_0000 < p
  {
    MulLe(digit, 0xFFFF_FFFF, p, p);
    MulLe(digit, 0xFFFF_FFFF, p, 0x8000_0000);
  }

  lemma TimesPrefix(s: seq<Digit>, p: int, i: nat)
    requires i < |s|
    ensures UVal(s[..i + 1]) * p == UVal(s[..i]) * p + Shl(s[i] * p, i)
  {
    UValPrefix(s, i);
    MulDistr(UVal(s[..i]), Shl(s[i], i), p);
    ShlMul(p, s[i], i);
  }

  /** carry | digit << lshift */
  function ShiftAccumulator(carry: Double, digit: Digit, lshift: nat): (acc: Double)
    requires 0 < lshift < 32 && carry < Pow2(lshift)
    ensures acc == carry + digit * Pow2(lshift) && acc / 0x1_0000_0000 < Pow2(lshift)
  {
    Pow2Mono(lshift, 31);
    Pow2Of32();
    ShiftedDigit(carry, digit, Pow2(lshift));
    OrDisjoint(carry, digit, lshift);
    Or(carry, digit * Pow2(lshift))
  }

  /** The digits below pos have been shifted left. */
  ghost predicate ShiftedUpTo(s: seq<Digit>, out: seq<Digit>, carry: int, pos: nat, lshift: nat) {
    pos <= |s| && 0 <= carry < Pow2(lshift) && Stands(out, carry, UVal(s[..pos]) * Pow2(lshift))
  }

  /** One round of the left shift. */
  method ShiftLeftAt(d: array<Digit>, pos: nat, carry0: Double, lshift: nat, ghost s: seq<Digit>)
    returns (carry: Double)
    requires pos < d.Length && pos < |s| && d[pos] == s[pos] && 0 < lshift < 32
    requires ShiftedUpTo(s, d[0..pos], carry0, pos, lshift)
    modifies d
    ensures forall j :: 0 <= j < d.Length && j != pos ==> d[j] == old(d[j])
    ensures ShiftedUpTo(s, d[0..pos + 1], carry, pos + 1, lshift)
  {
    var acc := ShiftAccumulator(carry0, d[pos], lshift);
    ghost var x := acc - carry0;
    TimesPrefix(s, Pow2(lshift), pos);
    carry := Put(d, 0, pos, acc, carry0, x, UVal(s[..pos]) * Pow2(lshift));
  }

  /** Shifts left by less than a digit. The bits of 'carry' are lost. */
  method UBigLShift(big1: Big, lshift: nat) returns (ghost carry: int)
    requires big1.Valid() && 0 < lshift < 32
    modifies big1.bigdigits
    ensures OnlyChanged(big1.bigdigits, 0, big1.size) && 0 <= carry < Pow2(lshift)
    ensures Stands(big1.Digits(), carry, old(big1.Unsigned()) * Pow2(lshift))
  {
    var d, n := big1.bigdigits, big1.size;
    ghost var s := d[..n];
    var c: Double := 0;
    var pos := 0;
    ShlOne(0);
    while pos < n
      invariant 0 <= pos <= n && OnlyChanged(d, 0, pos)
      invariant ShiftedUpTo(s, d[0..pos], c, pos, lshift)
    {
      assert d[pos] == s[pos];
      c := ShiftLeftAt(d, pos, c, lshift, s);
      pos := pos + 1;
    }
    assert d[0..n] == d[..n] && s[..n] == s;
    carry := c;
  }

  /** (low >> r) | ((high << (32 - r)) & MASK). */
  function JoinedDigit(low: Digit, high: Digit, r: nat): (d: Digit)
    requires 0 < r < 32
  {
    JoinedDigitBounds(low, high, r);
    Or(Shr(low, r), ShlDigit(high, 32 - r))
  }

  lemma {:induction false} SplitPow2Of32(r: nat)
    requires r <= 32
    ensures Pow2(r) * Pow2(32 - r) == 0x1_0000_0000
  {
    Pow2Add(r, 32 - r);
    Pow2Of32();
  }

  /** (high << (32 - r)) & MASK keeps the low r bits of high. */
  lemma KeepsLowBits(high: Digit, r: nat)
    requires 0 < r < 32
    ensures ShlDigit(high, 32 - r) == (high % Pow2(r)) * Pow2(32 - r)
    ensures 0 <= high % Pow2(r) < Pow2(r)
  {
    var p, t := Pow2(r), Pow2(32 - r);
    ShlDigitMeans(high, 32 - r);
    SplitPow2Of32(r);
    DivMod(high, p);
    var hq, hr := high / p, high % p;
    MulDistr(hq * p, hr, t);
    MulAssoc(hq, p, t);
    MulLe(hr, p - 1, t, t);
    MulDistr(p, 1, t);
    RemainderUnique(high * t, 0x1_0000_0000, hq, hr * t);
  }

  lemma JoinedDigitBounds(low: Digit, high: Digit, r: nat)
    requires 0 < r < 32
    ensures Or(Shr(low, r), ShlDigit(high, 32 - r)) == Shr(low, r) + ShlDigit(high, 32 - r) <= 0xFFFF_FFFF
  {
    var p, t, lq, hr := Pow2(r), Pow2(32 - r), Shr(low, r), high % Pow2(r);
    SplitPow2Of32(r);
    KeepsLowBits(high, r);
    ShrMeans(low, r);
    DivMod(low, p);
    if lq >= t {
      MulLe(t, lq, p, p);
      assert false;
    }
    OrDisjoint(lq, hr, 32 - r);
    MulLe(hr, p - 1, t, t);
    MulDistr(p, 1, t);
  }

  /** A digit of a right shift, put together from two digits, is a quotient digit. */
  lemma JoinedDigitMeans(low: Digit, high: Digit, r: nat)
    requires 0 < r < 32
    ensures JoinedDigit(low, high, r) * Pow2(r) + low % Pow2(r) == (high % Pow2(r)) * 0x1_0000_0000 + low
  {
    SplitPow2Of32(r);
    KeepsLowBits(high, r);
    JoinedDigitBounds(low, high, r);
    ShrMeans(low, r);
    JoinedValue(Shr(low, r), high % Pow2(r), Pow2(r), Pow2(32 - r));
  }

  lemma JoinedValue(l: int, h: int, p: int, t: int)
    requires p * t == 0x1_0000_0000
    ensures (l + h * t) * p == l * p + h * 0x1_0000_0000
  {
    MulDistr(l, h * t, p);
    MulAssoc(h, t, p);
  }

  /** Shifts right by less than a digit, with zero bits coming in at the left. */
  method UBigRShift(big1: Big, rshift: nat)
    requires big1.Valid() && 0 < rshift < 32
    modifies big1.bigdigits
    ensures OnlyChanged(big1.bigdigits, 0, big1.size)
    ensures big1.Unsigned() == old(big1.Unsigned()) / Pow2(rshift)
  {
    var d, n := big1.bigdigits, big1.size;
    ghost var s, p := d[..n], Pow2(rshift);
    var highDigit: Digit := 0;
    var pos := n - 1;
    assert s[n..] == [] && d[n..n] == [];
    DivMod(0, p);
    RemainderUnique(0, p, 0, 0);
    while pos != 0
      invariant 0 <= pos < n
      invariant OnlyChanged(d, pos + 1, n)
      invariant ShortDivided(s[pos + 1..], p, d[pos + 1..n], highDigit % p)
    {
      var lowDigit := d[pos];
      assert lowDigit == s[pos];
      ghost var found := d[pos + 1..n];
      d[pos] := JoinedDigit(lowDigit, highDigit, rshift);
      ShiftedNext(s[pos + 1..], rshift, found, highDigit, lowDigit);
      assert s[pos..] == [s[pos]] + s[pos + 1..] && d[pos..n] == [d[pos]] + found;
      highDigit := lowDigit;
      pos := pos - 1;
    }
    var lowDigit := d[0];
    ghost var found := d[1..n];
    ShiftedNext(s[1..], rshift, found, highDigit, lowDigit);
    d[0] := JoinedDigit(lowDigit, highDigit, rshift);
    assert s == [s[0]] + s[1..] && d[..n] == [d[0]] + found;
    RemainderUnique(UVal(s), p, UVal(d[..n]), lowDigit % p);
  }

  lemma ShiftedNext(s: seq<Digit>, r: nat, q: seq<Digit>, high: Digit, low: Digit)
    requires 0 < r < 32 && ShortDivided(s, Pow2(r), q, high % Pow2(r))
    ensures ShortDivided([low] + s, Pow2(r), [JoinedDigit(low, high, r)] + q, low % Pow2(r))
  {
    var p, digit := Pow2(r), JoinedDigit(low, high, r);
    JoinedDigitMeans(low, high, r);
    DivMod(low, p);
    assert ([low] + s)[1..] == s && ([digit] + q)[1..] == q;
    MulDistr(digit, 0x1_0000_0000 * UVal(q), p);
    MulSwap(p, 0x1_0000_0000, UVal(q));
  }
}
