/** The greatest common divisor, and what its two algorithms rely on. */
module GcdLaws {
  import opened Digits
  import opened Bits

  function Gcd(a: nat, b: nat): (g: nat)
    decreases b
  {
    if b == 0 then a else
      DivMod(a, b);
      Gcd(b, a % b)
  }

  ghost predicate Divides(d: int, a: int) {
    exists k: int :: Times(d, k) == a
  }

  function Times(d: int, k: int): int {
    d * k
  }

  ghost predicate CommonDivisor(d: int, a: int, b: int) {
    Divides(d, a) && Divides(d, b)
  }

  lemma DividesTimes(d: int, k: int)
    ensures Divides(d, d * k)
  {
    assert Times(d, k) == d * k;
  }

  /** The divisors of a and b are those of b and a - q * b. */
  lemma CommonStep(d: int, a: int, b: int, q: int)
    ensures CommonDivisor(d, a, b) <==> CommonDivisor(d, b, a - q * b)
  {
    if Divides(d, b) {
      var k: int :| Times(d, k) == b;
      MulSwap(q, d, k);
      if Divides(d, a) {
        var j: int :| Times(d, j) == a;
        MulDistr(j, q * k, d);
        DividesTimes(d, j - q * k);
      }
      if Divides(d, a - q * b) {
        var j: int :| Times(d, j) == a - q * b;
        MulDistr(j, q * k, d);
        DividesTimes(d, j + q * k);
      }
    }
  }

  /** Every common divisor divides the Gcd, and the Gcd is a common divisor. */
  lemma {:induction false} GcdIsGreatest(a: nat, b: nat)
    ensures CommonDivisor(Gcd(a, b), a, b)
    ensures forall d: int :: CommonDivisor(d, a, b) ==> Divides(d, Gcd(a, b))
    decreases b
  {
    if b == 0 {
      DividesTimes(a, 1);
      DividesTimes(a, 0);
    } else {
      DivMod(a, b);
      GcdIsGreatest(b, a % b);
      CommonStep(Gcd(a, b), a, b, a / b);
      forall d: int | CommonDivisor(d, a, b) ensures Divides(d, Gcd(a, b)) {
        CommonStep(d, a, b, a / b);
      }
    }
  }

  lemma DividesEachOther(a: nat, b: nat)
    requires Divides(a, b) && Divides(b, a)
    ensures a == b
  {
    var j: int :| Times(a, j) == b;
    var k: int :| Times(b, k) == a;
    if b == 0 {
    } else if a == 0 {
    } else {
      SmallFactor(a, j, b);
      SmallFactor(b, k, a);
    }
  }

  lemma SmallFactor(a: nat, j: int, b: nat)
    requires a * j == b && b > 0
    ensures a <= b
  {
    if j <= 0 {
      MulLe0(j, 0, a);
      assert false;
    }
    MulLe(a, a, 1, j);
  }

  /** Equal common divisors make equal greatest common divisors. */
  lemma SameDivisors(a: nat, b: nat, a': nat, b': nat)
    requires forall d: int :: CommonDivisor(d, a, b) <==> CommonDivisor(d, a', b')
    ensures Gcd(a, b) == Gcd(a', b')
  {
    GcdIsGreatest(a, b);
    GcdIsGreatest(a', b');
    DividesEachOther(Gcd(a, b), Gcd(a', b'));
  }

  lemma GcdSwap(a: nat, b: nat)
    ensures Gcd(a, b) == Gcd(b, a)
  {
    SameDivisors(a, b, b, a);
  }

  lemma GcdZero(a: nat)
    ensures Gcd(a, 0) == a && Gcd(0, a) == a
  {
    GcdSwap(a, 0);
  }

  lemma GcdSubtract(a: nat, b: nat)
    requires a <= b
    ensures Gcd(a, b) == Gcd(a, b - a)
  {
    forall d: int ensures CommonDivisor(d, a, b) <==> CommonDivisor(d, a, b - a) {
      CommonStep(d, b, a, 1);
    }
    SameDivisors(a, b, a, b - a);
  }

  /** A factor 2 of one number does not matter if the other one is odd. */
  lemma GcdHalve(a: nat, b: nat)
    requires a % 2 == 1
    ensures Gcd(a, 2 * b) == Gcd(a, b)
  {
    forall d: int ensures CommonDivisor(d, a, 2 * b) <==> CommonDivisor(d, a, b) {
      OddDivisor(d, a, b);
    }
    SameDivisors(a, 2 * b, a, b);
  }

  lemma OddDivisor(d: int, a: int, b: int)
    requires a % 2 == 1
    ensures CommonDivisor(d, a, 2 * b) <==> CommonDivisor(d, a, b)
  {
    if Divides(d, b) {
      var k: int :| Times(d, k) == b;
      MulSwap(2, d, k);
      DividesTimes(d, 2 * k);
      MulSwap(d, 2, k);
    }
    if Divides(d, a) && Divides(d, 2 * b) {
      var j: int :| Times(d, j) == a;
      var k: int :| Times(d, k) == 2 * b;
      OddFactor(d, j, a);
      EvenCofactor(d, k, b);
      DividesTimes(d, k / 2);
    }
  }

  lemma OddFactor(d: int, j: int, a: int)
    requires d * j == a && a % 2 == 1
    ensures d % 2 == 1
  {
    var h := d / 2;
    MulDistr(2 * h, d % 2, j);
    MulAssoc(2, h, j);
  }

  lemma EvenCofactor(d: int, k: int, b: int)
    requires d * k == 2 * b && d % 2 == 1
    ensures d * (k / 2) == b
  {
    var h := d / 2;
    MulDistr(2 * h, 1, k);
    MulAssoc(2, h, k);
    assert k == 2 * (b - h * k);
    MulSwap(d, 2, k / 2);
  }

  lemma {:induction false} GcdShift(a: nat, b: nat, k: nat)
    requires a % 2 == 1
    ensures Pow2(k) * b >= 0 && Gcd(a, Pow2(k) * b) == Gcd(a, b)
  {
    MulLe(0, Pow2(k), 0, b);
    if k > 0 {
      GcdShift(a, b, k - 1);
      MulAssoc(2, Pow2(k - 1), b);
      GcdHalve(a, Pow2(k - 1) * b);
    }
  }

  lemma {:induction false} GcdDouble(a: nat, b: nat)
    ensures Gcd(2 * a, 2 * b) == 2 * Gcd(a, b)
    decreases b
  {
    if b > 0 {
      DivMod(a, b);
      MulSwap(2, a / b, b);
      RemainderUnique(2 * a, 2 * b, a / b, 2 * (a % b));
      GcdDouble(b, a % b);
    }
  }

  /** A common power of two can be taken out. */
  lemma {:induction false} GcdPowerOut(a: nat, b: nat, k: nat)
    ensures Pow2(k) * a >= 0 && Pow2(k) * b >= 0
    ensures Gcd(Pow2(k) * a, Pow2(k) * b) == Pow2(k) * Gcd(a, b)
  {
    MulLe(0, Pow2(k), 0, a);
    MulLe(0, Pow2(k), 0, b);
    if k > 0 {
      GcdPowerOut(a, b, k - 1);
      var p := Pow2(k - 1);
      MulAssoc(2, p, a);
      MulAssoc(2, p, b);
      MulAssoc(2, p, Gcd(a, b));
      GcdDouble(p * a, p * b);
    }
  }

  lemma DividesMeans(d: int, a: int)
    requires d > 0
    ensures Divides(d, a) <==> a % d == 0
  {
    DivMod(a, d);
    if Divides(d, a) {
      var k :| a == Times(d, k);
      RemainderUnique(a, d, k, 0);
    }
    if a % d == 0 {
      assert a == Times(d, a / d);
    }
  }

  lemma NotZeroDivisor(g: nat, a: nat, b: nat)
    requires CommonDivisor(g, a, b) && (a > 0 || b > 0)
    ensures g > 0
  {
    if g == 0 {
      var j: int, k: int :| Times(g, j) == a && Times(g, k) == b;
    }
  }

  /** In terms of remainders. */
  lemma {:induction false} GcdMeans(a: nat, b: nat)
    requires a > 0 || b > 0
    ensures Gcd(a, b) > 0
    ensures a % Gcd(a, b) == 0 && b % Gcd(a, b) == 0
    ensures forall d: int :: d > 0 && a % d == 0 && b % d == 0 ==> Gcd(a, b) % d == 0
  {
    GcdIsGreatest(a, b);
    NotZeroDivisor(Gcd(a, b), a, b);
    DividesMeans(Gcd(a, b), a);
    DividesMeans(Gcd(a, b), b);
    forall d: int | d > 0 && a % d == 0 && b % d == 0 ensures Gcd(a, b) % d == 0 {
      DividesMeans(d, a);
      DividesMeans(d, b);
      DividesMeans(d, Gcd(a, b));
    }
  }

  /** Of both numbers the power of two can be taken out separately; the smaller
      one is restored in the end. */
  lemma GcdOddParts(a: nat, b: nat, i: nat, j: nat)
    requires a % 2 == 1 && b % 2 == 1
    ensures var m := if i < j then i else j;
      Pow2(i) * a >= 0 && Pow2(j) * b >= 0 && Gcd(Pow2(i) * a, Pow2(j) * b) == Pow2(m) * Gcd(a, b)
  {
    var m := if i < j then i else j;
    Pow2Add(m, i - m);
    Pow2Add(m, j - m);
    MulAssoc(Pow2(m), Pow2(i - m), a);
    MulAssoc(Pow2(m), Pow2(j - m), b);
    MulLe(0, Pow2(i - m), 0, a);
    MulLe(0, Pow2(j - m), 0, b);
    GcdPowerOut(Pow2(i - m) * a, Pow2(j - m) * b, m);
    if i == m {
      GcdShift(a, b, j - m);
    } else {
      GcdShift(b, a, i - m);
      GcdSwap(Pow2(i - m) * a, b);
      GcdSwap(a, b);
    }
  }

  /** One step of the Euclidean algorithm. */
  lemma GcdRemainder(a: nat, b: nat)
    requires a > 0
    ensures b % a < a && Gcd(a, b) == Gcd(b % a, a)
  {
    DivMod(b, a);
    GcdSwap(a, b);
    GcdSwap(b % a, a);
  }
}
