/** Signed 32-bit integers as the C++ `int` that `TPoint<int>` stores, and the
    truncating division C++ uses for `int / int`. */
module Int32 {

  const MinInt32: int := -0x8000_0000
  const MaxInt32: int := 0x7fff_ffff

  predicate InInt32(v: int) {
    MinInt32 <= v <= MaxInt32
  }

  /** The values a C++ `int` can hold. Arithmetic is done on `int` and a
      result is only stored back after its range has been established,
      because signed overflow is undefined behaviour in C++. */
  type int32 = v: int | InInt32(v)

  function Abs(v: int): (r: nat)
    ensures r == v || r == -v
  {
    if v < 0 then -v else v
  }

  /** `q` is the quotient C++ computes for `a / b`: the remainder
      `a - q * b` is smaller than the divisor in magnitude and carries the
      sign of the dividend (rounding toward zero). */
  predicate IsTruncQuotient(a: int, b: int, q: int) {
    var rem := a - q * b;
    && b != 0
    && Abs(rem) < Abs(b)
    && (a >= 0 ==> rem >= 0)
    && (a <= 0 ==> rem <= 0)
  }

  /** C++ `a / b` on integers. Dafny's own `/` is Euclidean, which differs
      from C++ whenever the dividend is negative. */
  function TruncDiv(a: int, b: int): (q: int)
    requires b != 0
    ensures IsTruncQuotient(a, b, q)
    ensures Abs(q) <= Abs(a)
  {
    if b > 0 then
      if a >= 0 then
        QuotientNonNegPos(a, b); a / b
      else
        QuotientNegPos(a, b); -((-a) / b)
    else
      if a < 0 then
        QuotientNegNeg(a, b); (-a) / (-b)
      else
        QuotientNonNegNeg(a, b); -(a / (-b))
  }

  lemma DivBound(n: nat, d: int)
    requires d >= 1
    ensures n / d <= n
  {
    var m := n / d;
    assert n == m * d + n % d;
    if m > 0 {
      MulGrows(d, m);
      assert m * d == d * m;
    }
  }

  lemma QuotientNonNegPos(a: int, b: int)
    requires a >= 0 && b > 0
    ensures IsTruncQuotient(a, b, a / b) && Abs(a / b) <= Abs(a)
  {
    DivBound(a, b);
    var m := a / b;
    assert a == m * b + a % b;
  }

  lemma QuotientNegPos(a: int, b: int)
    requires a < 0 && b > 0
    ensures IsTruncQuotient(a, b, -((-a) / b)) && Abs(-((-a) / b)) <= Abs(a)
  {
    var m := (-a) / b;
    var p := m * b;
    assert -a == p + (-a) % b;
    assert (-m) * b == -p;
    DivBound(-a, b);
  }

  lemma QuotientNegNeg(a: int, b: int)
    requires a < 0 && b < 0
    ensures IsTruncQuotient(a, b, (-a) / (-b)) && Abs((-a) / (-b)) <= Abs(a)
  {
    var m := (-a) / (-b);
    var p := m * (-b);
    assert -a == p + (-a) % (-b);
    assert m * b == -p;
    DivBound(-a, -b);
  }

  lemma QuotientNonNegNeg(a: int, b: int)
    requires a >= 0 && b < 0
    ensures IsTruncQuotient(a, b, -(a / (-b))) && Abs(-(a / (-b))) <= Abs(a)
  {
    var m := a / (-b);
    var p := m * (-b);
    assert a == p + a % (-b);
    assert (-m) * b == p;
    DivBound(a, -b);
  }

  lemma {:induction false} MulGrows(k: nat, b: nat)
    requires k >= 1
    ensures k * b >= b
  {
    if k > 1 {
      MulGrows(k - 1, b);
      assert k * b == (k - 1) * b + b;
    }
  }

  lemma MulAbs(k: int, b: int)
    ensures Abs(k * b) == Abs(k) * Abs(b)
  {
    if k < 0 {
      assert k * b == -((-k) * b);
    }
    if b < 0 {
      assert Abs(k) * b == -(Abs(k) * (-b));
    }
  }

  /** The truncating quotient is the only value with the C++ remainder
      properties, so `IsTruncQuotient` is an independent definition of it. */
  lemma TruncQuotientUnique(a: int, b: int, q1: int, q2: int)
    requires IsTruncQuotient(a, b, q1) && IsTruncQuotient(a, b, q2)
    ensures q1 == q2
  {
    var k := q2 - q1;
    var kb := k * b;
    assert (a - q1 * b) - (a - q2 * b) == kb by {
      assert q2 * b - q1 * b == (q2 - q1) * b;
    }
    assert Abs(kb) < Abs(b);
    if k != 0 {
      MulAbs(k, b);
      MulGrows(Abs(k), Abs(b));
    }
  }

  /** Dividing a product by one of its factors gives back the other factor. */
  lemma TruncDivOfProduct(a: int, b: int)
    requires b != 0
    ensures TruncDiv(a * b, b) == a
  {
    assert IsTruncQuotient(a * b, b, a);
    TruncQuotientUnique(a * b, b, a, TruncDiv(a * b, b));
  }

  /** The only quotient of two `int`s that leaves the `int` range is
      `MinInt32 / -1`, which C++ leaves undefined. */
  lemma TruncDivInInt32(a: int, b: int)
    requires InInt32(a) && InInt32(b) && b != 0
    ensures InInt32(TruncDiv(a, b)) <==> !(a == MinInt32 && b == -1)
  {
  }

  /** On a non-negative dividend and a positive divisor, C++ division and
      Dafny's Euclidean division agree. */
  lemma TruncDivAgreesOnNonNegatives(a: int, b: int)
    requires a >= 0 && b > 0
    ensures TruncDiv(a, b) == a / b
  {
  }

  /** A negative operand is where the two divisions part ways. */
  lemma TruncDivRoundsTowardZero()
    ensures TruncDiv(-7, 2) == -3 && -7 / 2 == -4
    ensures TruncDiv(7, -2) == -3 && 7 / -2 == -3
    ensures TruncDiv(-7, -2) == 3 && -7 / -2 == 4
  {
  }

  /** Negating the dividend negates the quotient. */
  lemma TruncDivOddInDividend(a: int, b: int)
    requires b != 0
    ensures TruncDiv(-a, b) == -TruncDiv(a, b)
  {
  }

  /** Negating the divisor negates the quotient. */
  lemma TruncDivOddInDivisor(a: int, b: int)
    requires b != 0
    ensures TruncDiv(a, -b) == -TruncDiv(a, b)
  {
  }
}
