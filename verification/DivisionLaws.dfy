/** Division of integers, truncated towards zero and towards negative infinity,
    and the laws that determine quotient and remainder. */
module DivisionLaws {
  import opened Digits

  function Abs(x: int): (r: int)
    ensures r >= 0
  {
    if x < 0 then -x else x
  }

  /** The quotient truncated towards zero, and its remainder. */
  function TruncDiv(x: int, y: int): int
    requires y != 0
  {
    if (x < 0) != (y < 0) then -(Abs(x) / Abs(y)) else Abs(x) / Abs(y)
  }

  function TruncRem(x: int, y: int): int
    requires y != 0
  {
    if x < 0 then -(Abs(x) % Abs(y)) else Abs(x) % Abs(y)
  }

  /** The quotient truncated towards negative infinity, and its modulo. */
  function FloorDiv(x: int, y: int): int
    requires y != 0
  {
    if (x < 0) == (y < 0) then Abs(x) / Abs(y)
    else if Abs(x) % Abs(y) == 0 then -(Abs(x) / Abs(y))
    else -(Abs(x) / Abs(y)) - 1
  }

  function FloorMod(x: int, y: int): int
    requires y != 0
  {
    if (x < 0) == (y < 0) || TruncRem(x, y) == 0 then TruncRem(x, y) else TruncRem(x, y) + y
  }

  ghost predicate IsTruncated(x: int, y: int, q: int, r: int) {
    && x == q * y + r
    && Abs(r) < Abs(y)
    && (r != 0 ==> (r < 0 <==> x < 0))
  }

  ghost predicate IsFloored(x: int, y: int, q: int, m: int) {
    && x == q * y + m
    && (0 <= m < y || y < m <= 0)
  }

  lemma MulNeg(a: int, b: int)
    ensures (-a) * b == -(a * b) && a * (-b) == -(a * b) && (-a) * (-b) == a * b
  {
  }

  /** The truncated pair satisfies the division law of bigDiv and bigRem. */
  lemma TruncatedLaw(x: int, y: int)
    requires y != 0
    ensures IsTruncated(x, y, TruncDiv(x, y), TruncRem(x, y))
    ensures x == TruncDiv(x, y) * y + TruncRem(x, y)
    ensures y > 0 ==> -y < TruncRem(x, y) < y
    ensures y < 0 ==> y < TruncRem(x, y) < -y
    ensures x >= 0 ==> TruncRem(x, y) >= 0
    ensures x <= 0 ==> TruncRem(x, y) <= 0
  {
    DivMod(Abs(x), Abs(y));
    MulNeg(Abs(x) / Abs(y), Abs(y));
  }

  /** The floored pair satisfies the division law of bigMDiv and bigMod. */
  lemma FlooredLaw(x: int, y: int)
    requires y != 0
    ensures IsFloored(x, y, FloorDiv(x, y), FloorMod(x, y))
    ensures x == FloorDiv(x, y) * y + FloorMod(x, y)
    ensures y > 0 ==> 0 <= FloorMod(x, y) < y
    ensures y < 0 ==> y < FloorMod(x, y) <= 0
  {
    TruncatedLaw(x, y);
    MulDistr(TruncDiv(x, y), 1, y);
  }

  lemma SmallMultiple(q: int, y: int)
    requires -Abs(y) < q * y < Abs(y)
    ensures q == 0
  {
    if q > 0 {
      MulLe(1, q, Abs(y), Abs(y));
      MulNeg(q, Abs(y));
      assert false;
    }
    if q < 0 {
      MulLe(1, -q, Abs(y), Abs(y));
      MulNeg(-q, Abs(y));
      assert false;
    }
  }

  /** No other pair satisfies the law. */
  lemma TruncatedUnique(x: int, y: int, q: int, r: int)
    requires y != 0 && IsTruncated(x, y, q, r)
    ensures q == TruncDiv(x, y) && r == TruncRem(x, y)
  {
    TruncatedLaw(x, y);
    MulDistr(q, TruncDiv(x, y), y);
    SmallMultiple(q - TruncDiv(x, y), y);
  }

  lemma FlooredUnique(x: int, y: int, q: int, m: int)
    requires y != 0 && IsFloored(x, y, q, m)
    ensures q == FloorDiv(x, y) && m == FloorMod(x, y)
  {
    FlooredLaw(x, y);
    MulDistr(q, FloorDiv(x, y), y);
    SmallMultiple(q - FloorDiv(x, y), y);
  }

  /** q and r are quotient and remainder of the nonnegative number x by y. */
  ghost predicate IsDivision(x: int, y: int, q: int, r: int) {
    x == y * q + r && 0 <= r < y
  }

  lemma DivisionUnique(x: int, y: int, q: int, r: int)
    requires IsDivision(x, y, q, r)
    ensures q == x / y && r == x % y
  {
    RemainderUnique(x, y, q, r);
  }

  lemma DivisionNonneg(x: int, y: int, q: int, r: int)
    requires IsDivision(x, y, q, r) && x >= 0
    ensures 0 <= q <= x
  {
    if q < 0 {
      MulLe(1, -q, y, y);
      MulNeg(q, y);
      assert false;
    }
    MulLe(1, y, q, q);
  }

  /** Scaling dividend and divisor scales the remainder. */
  lemma ScaledDivision(x: int, y: int, p: int, q: int, r: int)
    requires 0 <= x && 0 < y && 0 < p
    requires IsDivision(x * p, y * p, q, r)
    ensures IsDivision(x, y, q, x % y) && r == (x % y) * p
  {
    DivMod(x, y);
    var q', r' := x / y, x % y;
    MulDistr(q' * y, r', p);
    MulAssoc(q', y, p);
    MulStrict(r', y, p);
    MulLe(0, r', p, p);
    RemainderUnique(x * p, y * p, q', r' * p);
    RemainderUnique(x * p, y * p, q, r);
  }
}
