/** bigIntRecord and the operations that only look at, negate or shorten the
    digits of one number (src/big_rtl.c). */
module BigRecord {
  import opened Digits
  import opened Carries
  import opened DivisionLaws

  /** A big integer: a digit buffer and the number of digits in use. */
  class Big {
    var bigdigits: array<Digit>
    var size: nat

    ghost predicate Valid()
      reads this
    {
      1 <= size <= bigdigits.Length
    }

    ghost function Digits(): seq<Digit>
      requires Valid()
      reads this, bigdigits
    {
      bigdigits[..size]
    }

    ghost function Unsigned(): int
      requires Valid()
      reads this, bigdigits
    {
      UVal(Digits())
    }

    ghost function Value(): int
      requires Valid()
      reads this, bigdigits
    {
      SVal(Digits())
    }

    /** The number is in canonical form. */
    ghost predicate Canonical()
      reads this, bigdigits
    {
      Valid() && Normal(Digits())
    }

    predicate Negative()
      requires Valid()
      reads this, bigdigits
    {
      IsNegative(bigdigits[size - 1])
    }

    predicate IsZero()
      requires Valid()
      reads this, bigdigits
    {
      size == 1 && bigdigits[0] == 0
    }

    /** Allocates a number with room for 'capacity' digits. The digits have
        arbitrary values and the caller sets the size. */
    constructor Alloc(capacity: nat)
      requires capacity >= 1
      ensures fresh(bigdigits) && bigdigits.Length == capacity
      ensures size == capacity
    {
      bigdigits := new Digit[capacity];
      size := capacity;
    }
  }

  /** Removes leading sign digits from a signed number. */
  method Normalize(big1: Big)
    requires big1.Valid()
    modifies big1`size
    ensures big1.Canonical() && big1.size <= old(big1.size)
    ensures big1.Value() == old(big1.Value())
  {
    var d := big1.bigdigits;
    ghost var s, n := big1.Digits(), big1.size;
    var pos := big1.size;
    if pos >= 2 {
      pos := pos - 1;
      var digit := d[pos];
      if digit == 0xFFFF_FFFF {
        pos := pos - 1;
        digit := d[pos];
        while pos > 0 && digit == 0xFFFF_FFFF
          invariant 0 <= pos < n - 1 && digit == d[pos]
          invariant forall i :: pos < i < n ==> d[i] == 0xFFFF_FFFF
        {
          pos := pos - 1;
          digit := d[pos];
        }
        if !IsNegative(digit) {
          pos := pos + 1;
        }
      } else if digit == 0 {
        pos := pos - 1;
        digit := d[pos];
        while pos > 0 && digit == 0
          invariant 0 <= pos < n - 1 && digit == d[pos]
          invariant forall i :: pos < i < n ==> d[i] == 0
        {
          pos := pos - 1;
          digit := d[pos];
        }
        if IsNegative(digit) {
          pos := pos + 1;
        }
      }
      pos := pos + 1;
      DropSigns(s, pos);
      big1.size := pos;
      assert big1.Digits() == s[..pos];
    }
  }

  method NegatePositiveBig(big1: Big)
    requires big1.Valid()
    modifies big1.bigdigits
    ensures big1.Unsigned() == Negated(big1.size, old(big1.Unsigned()))
    ensures big1.Unsigned() == if old(big1.Unsigned()) == 0 then 0 else Radix(big1.size) - old(big1.Unsigned())
    ensures OnlyChanged(big1.bigdigits, 0, big1.size)
  {
    Negate(big1.bigdigits, big1.bigdigits, big1.size);
  }

  /** Negating a number with a clear sign bit, or the number SignWeight(n). */
  lemma NegatedValue(s: seq<Digit>, s': seq<Digit>)
    requires |s| == |s'| > 0 && UVal(s') == Negated(|s|, UVal(s)) && UVal(s) <= SignWeight(|s|)
    ensures SVal(s') == -UVal(s)
  {
    SValRange(s');
    UValBound(s');
  }

  /** The magnitude of a negative number, as a nonnegative signed number: a zero
      digit is appended exactly when big1 is -Radix(n)/2. */
  method PositiveCopyOfNegativeBig(dest: Big, big1: Big)
    requires big1.Valid() && big1.Negative() && dest != big1
    requires dest.bigdigits != big1.bigdigits && dest.bigdigits.Length >= big1.size + 1
    modifies dest`size, dest.bigdigits
    ensures dest.Valid() && !dest.Negative()
    ensures dest.Unsigned() == -big1.Value()
    ensures dest.size == if big1.Value() == -SignWeight(big1.size) then big1.size + 1 else big1.size
  {
    Negate(dest.bigdigits, big1.bigdigits, big1.size);
    SValRange(big1.Digits());
    SValRange(dest.bigdigits[..big1.size]);
    var pos := big1.size;
    if IsNegative(dest.bigdigits[pos - 1]) {
      ghost var s := dest.bigdigits[..pos];
      dest.bigdigits[pos] := 0;
      assert dest.bigdigits[..pos + 1] == s + [0];
      UValSnoc(s, 0);
      ShlOne(pos);
      pos := pos + 1;
    }
    dest.size := pos;
  }

  /** The magnitude of a negative number in as many digits. For -Radix(n)/2 the
      sign bit of the result is set, so it must be read as unsigned. */
  method AllocPositiveCopyOfNegativeBig(big1: Big) returns (result: Big)
    requires big1.Valid() && big1.Negative()
    ensures fresh(result) && fresh(result.bigdigits) && result.Valid()
    ensures result.size == big1.size && result.Unsigned() == -big1.Value()
    ensures result.Negative() <==> big1.Value() == -SignWeight(big1.size)
  {
    result := new Big.Alloc(big1.size);
    Negate(result.bigdigits, big1.bigdigits, big1.size);
    SValRange(big1.Digits());
    SValRange(result.Digits());
  }

  // ----------------------------------------------------------- comparison

  /** The first difference from the top decides between equally long strings. */
  lemma {:induction false} TopDifference(s: seq<Digit>, t: seq<Digit>, pos: nat)
    requires |s| == |t| && pos < |s|
    requires s[pos + 1..] == t[pos + 1..] && s[pos] < t[pos]
    ensures UVal(s) < UVal(t)
  {
    UValSplit(s, pos + 1);
    UValSplit(t, pos + 1);
    UValPrefix(s, pos);
    UValPrefix(t, pos);
    UValBound(s[..pos]);
    ShlMono(s[pos] as int + 1, t[pos], pos);
    ShlAdd(s[pos], 1, pos);
    ShlOne(pos);
  }

  method BigCmp(big1: Big, big2: Big) returns (signum: int)
    requires big1.Canonical() && big2.Canonical()
    ensures signum == -1 <==> big1.Value() < big2.Value()
    ensures signum == 0 <==> big1.Value() == big2.Value()
    ensures signum == 1 <==> big1.Value() > big2.Value()
  {
    ghost var s, t := big1.Digits(), big2.Digits();
    SValRange(s);
    SValRange(t);
    NormalLonger(s, t);
    NormalLonger(t, s);
    var pos := big1.size;
    var big1Negative, big2Negative := big1.Negative(), big2.Negative();
    if big1Negative != big2Negative {
      return if big1Negative then -1 else 1;
    } else if pos != big2.size {
      return if (pos < big2.size) != big1Negative then -1 else 1;
    } else {
      while pos > 0
        invariant 0 <= pos <= |s|
        invariant s[pos..] == t[pos..]
      {
        pos := pos - 1;
        if big1.bigdigits[pos] != big2.bigdigits[pos] {
          if s[pos] < t[pos] {
            TopDifference(s, t, pos);
          } else {
            TopDifference(t, s, pos);
          }
          return if big1.bigdigits[pos] < big2.bigdigits[pos] then -1 else 1;
        }
      }
      assert s == s[0..] && t == t[0..];
      return 0;
    }
  }

  /** Digit comparison decides equality of values. */
  method BigEq(big1: Big, big2: Big) returns (equal: bool)
    requires big1.Canonical() && big2.Canonical()
    ensures equal <==> big1.Value() == big2.Value()
  {
    equal := big1.size == big2.size && big1.bigdigits[..big1.size] == big2.bigdigits[..big2.size];
    if big1.Value() == big2.Value() {
      NormalUnique(big1.Digits(), big2.Digits());
    }
  }

  // ------------------------------------------------------ unsigned helpers

  /** The digit at pos is incremented and those above it are copied. */
  method IncrementAt(dest: array<Digit>, src: array<Digit>, pos: nat, n: nat, ghost s: seq<Digit>)
    requires pos < n <= dest.Length && n <= src.Length && n <= |s| && s[pos] != 0xFFFF_FFFF
    requires forall i :: pos <= i < n ==> src[i] == s[i]
    modifies dest
    ensures OnlyChanged(dest, pos, n)
    ensures dest[pos] == s[pos] + 1 && forall i :: pos < i < n ==> dest[i] == s[i]
  {
    dest[pos] := src[pos] + 1;
    if dest != src {
      forall i | pos < i < n {
        dest[i] := src[i];
      }
    }
  }

  /** dest = src + 1 over n digits; both can be the same buffer. The loop has no
      bounds check: a digit that is not the mask stops it, except when there is
      only one digit, which overflows to zero. */
  method IncrementDigits(dest: array<Digit>, src: array<Digit>, n: nat)
    requires 0 < n <= dest.Length && n <= src.Length
    requires n == 1 || exists i :: 0 <= i < n && src[i] != 0xFFFF_FFFF
    modifies dest
    ensures OnlyChanged(dest, 0, n)
    ensures UVal(dest[..n]) == if old(UVal(src[..n])) + 1 == Radix(n) then 0 else old(UVal(src[..n])) + 1
  {
    ghost var s := src[..n];
    ghost var last :| 0 <= last < n && (n == 1 || s[last] != 0xFFFF_FFFF);
    var pos := 0;
    if src[pos] == 0xFFFF_FFFF {
      if n == 1 {
        dest[pos] := 0;
        pos := pos + 1;
      } else {
        dest[pos] := 0;
        pos := pos + 1;
        while src[pos] == 0xFFFF_FFFF
          invariant 0 < pos <= last && OnlyChanged(dest, 0, pos)
          invariant forall i :: pos <= i < n ==> src[i] == s[i]
          invariant forall i :: 0 <= i < pos ==> s[i] == 0xFFFF_FFFF && dest[i] == 0
          decreases n - pos
        {
          dest[pos] := 0;
          pos := pos + 1;
        }
      }
    }
    UValBound(s);
    if pos < n {
      IncrementAt(dest, src, pos, n, s);
      IncrementedDigits(s, dest[..n], pos);
      UValBound(dest[..n]);
    }
  }

  /** Adds 1 to an unsigned number. */
  method UBigIncr(big1: Big)
    requires big1.Valid() && (big1.size == 1 || !big1.Negative())
    modifies big1.bigdigits
    ensures OnlyChanged(big1.bigdigits, 0, big1.size)
    ensures big1.Unsigned() == if old(big1.Unsigned()) + 1 == Radix(big1.size) then 0 else old(big1.Unsigned()) + 1
  {
    assert big1.size == 1 || big1.bigdigits[big1.size - 1] != 0xFFFF_FFFF;
    IncrementDigits(big1.bigdigits, big1.bigdigits, big1.size);
  }

  /** dest = src - 1 over n digits, in the same way. A single zero digit wraps
      around to the mask. */
  method DecrementDigits(dest: array<Digit>, src: array<Digit>, n: nat)
    requires 0 < n <= dest.Length && n <= src.Length
    requires n == 1 || exists i :: 0 <= i < n && src[i] != 0
    modifies dest
    ensures OnlyChanged(dest, 0, n)
    ensures UVal(dest[..n]) == if old(UVal(src[..n])) == 0 then Radix(n) - 1 else old(UVal(src[..n])) - 1
  {
    ghost var s := src[..n];
    ghost var last :| 0 <= last < n && (n == 1 || s[last] != 0);
    var pos := 0;
    if src[pos] == 0 {
      if n == 1 {
        dest[pos] := 0xFFFF_FFFF;
        pos := pos + 1;
      } else {
        dest[pos] := 0xFFFF_FFFF;
        pos := pos + 1;
        while src[pos] == 0
          invariant 0 < pos <= last && OnlyChanged(dest, 0, pos)
          invariant forall i :: pos <= i < n ==> src[i] == s[i]
          invariant forall i :: 0 <= i < pos ==> s[i] == 0 && dest[i] == 0xFFFF_FFFF
          decreases n - pos
        {
          dest[pos] := 0xFFFF_FFFF;
          pos := pos + 1;
        }
      }
    }
    if pos < n {
      dest[pos] := src[pos] - 1;
      if dest != src {
        forall i | pos < i < n {
          dest[i] := src[i];
        }
      }
      IncrementedDigits(dest[..n], s, pos);
    }
  }

  /** Trailing mask digits become zero and the digit above them grows by 1. */
  lemma {:induction false} IncrementedDigits(s: seq<Digit>, t: seq<Digit>, pos: nat)
    requires pos < |s| == |t|
    requires forall i :: 0 <= i < pos ==> s[i] == 0xFFFF_FFFF && t[i] == 0
    requires t[pos] as int == s[pos] as int + 1 && forall i :: pos < i < |s| ==> t[i] == s[i]
    ensures UVal(t) == UVal(s) + 1
    decreases pos
  {
    if pos == 0 {
      assert t[1..] == s[1..];
    } else {
      IncrementedDigits(s[1..], t[1..], pos - 1);
    }
  }

  method UBigIsNot0(big: Big) returns (isNot0: bool)
    requires big.Valid()
    ensures isNot0 <==> big.Unsigned() != 0
  {
    UValZeros(big.Digits());
    var pos := 0;
    while pos < big.size
      invariant 0 <= pos <= big.size
      invariant forall i :: 0 <= i < pos ==> big.bigdigits[i] == 0
    {
      if big.bigdigits[pos] != 0 {
        assert big.Digits()[pos] != 0;
        return true;
      }
      pos := pos + 1;
    }
    return false;
  }

  // ------------------------------------------------ results and operands

  method OneDigit(d: Digit) returns (result: Big)
    ensures fresh(result) && fresh(result.bigdigits) && result.Canonical() && result.Value() == Signed(d)
  {
    result := new Big.Alloc(1);
    result.bigdigits[0] := d;
    SingleDigit(result.Digits());
  }

  method CopyOf(big1: Big) returns (result: Big)
    requires big1.Valid()
    ensures fresh(result) && fresh(result.bigdigits) && result.Valid()
    ensures result.size == big1.size && result.Digits() == big1.Digits()
  {
    result := new Big.Alloc(big1.size);
    forall i | 0 <= i < big1.size {
      result.bigdigits[i] := big1.bigdigits[i];
    }
  }

  /** Gives a magnitude its sign and removes leading sign digits. */
  method SignAndNormalize(big1: Big, negative: bool)
    requires big1.Valid() && big1.Unsigned() <= SignWeight(big1.size)
    requires negative || big1.Unsigned() < SignWeight(big1.size)
    modifies big1, big1.bigdigits
    ensures big1.bigdigits == old(big1.bigdigits) && big1.Canonical()
    ensures big1.Value() == if negative then -old(big1.Unsigned()) else old(big1.Unsigned())
  {
    ghost var s := big1.Digits();
    SValRange(s);
    if negative {
      NegatePositiveBig(big1);
      NegatedValue(s, big1.Digits());
    }
    Normalize(big1);
  }

  /** The magnitude of a one-digit number. */
  function DigitMagnitude(d: Digit): (r: Digit)
    ensures r == Abs(Signed(d)) && (d != 0 ==> r > 0)
  {
    if IsNegative(d) then 0x1_0000_0000 - d else d
  }

  /** The magnitude of a signed number, read as unsigned, in as many digits. */
  method UnsignedMagnitude(big1: Big) returns (result: Big, negative: bool)
    requires big1.Valid()
    ensures result.Valid() && result.size == big1.size && result.Unsigned() == Abs(big1.Value())
    ensures result == big1 || (fresh(result) && fresh(result.bigdigits))
    ensures negative <==> big1.Value() < 0
  {
    SValRange(big1.Digits());
    negative := big1.Negative();
    if negative {
      result := AllocPositiveCopyOfNegativeBig(big1);
    } else {
      result := big1;
    }
  }

  /** A number whose first digit is needed: what the loops rely on to remove one
      leading digit at a time. */
  ghost predicate Leading(s: seq<Digit>) {
    |s| > 0 && (|s| >= 2 ==> UVal(s) >= SignWeight(|s| - 1))
  }

  lemma LeadingIsZero(s: seq<Digit>)
    requires Leading(s)
    ensures UVal(s) == 0 <==> |s| == 1 && s[0] == 0
  {
    if |s| == 1 {
      SingleDigit(s);
    }
  }

  /** The digits of a number in canonical form, read as unsigned. */
  lemma NormalIsLeading(s: seq<Digit>)
    requires Normal(s)
    ensures Leading(s) && (SVal(s) >= 0 ==> UVal(s) == SVal(s) && !IsNegative(s[|s| - 1]))
  {
    SValRange(s);
    if |s| >= 2 {
      NormalRange(s);
    }
  }
}
