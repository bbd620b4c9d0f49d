/** Two's-complement bitwise AND on unbounded integers, which is what C++
    `int & int` computes on the 32-bit representation whenever both operands
    are `int` values. Halving is floor division (Dafny's `/` by a positive
    divisor), i.e. an arithmetic right shift; `% 2` is the low bit. */
module Bitwise {

  import opened Int32

  function Pow2(k: nat): (r: int)
    ensures r >= 1
  {
    if k == 0 then 1 else 2 * Pow2(k - 1)
  }

  /** Bit `i` of the two's-complement representation of `a`; negative
      numbers have infinitely many leading ones. */
  predicate Bit(a: int, i: nat)
    decreases i
  {
    if i == 0 then a % 2 == 1 else Bit(a / 2, i - 1)
  }

  /** 0 and -1 are the two values whose representation is one bit repeated
      forever; every other value shrinks when shifted right. */
  predicate IsSignFill(a: int) {
    a == 0 || a == -1
  }

  lemma HalfShrinks(a: int)
    ensures Abs(a / 2) <= Abs(a)
    ensures !IsSignFill(a) ==> Abs(a / 2) < Abs(a)
  {
  }

  /** `a & b`. The result is negative exactly when both operands are (the
      sign bit is the AND of the sign bits), and a non-negative operand
      bounds it from above. */
  function BitAnd(a: int, b: int): (r: int)
    ensures r < 0 <==> a < 0 && b < 0
    ensures a >= 0 ==> r <= a
    ensures b >= 0 ==> r <= b
    decreases Abs(a) + Abs(b)
  {
    if IsSignFill(a) && IsSignFill(b) then
      (if a == -1 && b == -1 then -1 else 0)
    else
      HalfShrinks(a);
      HalfShrinks(b);
      2 * BitAnd(a / 2, b / 2) + (if a % 2 == 1 && b % 2 == 1 then 1 else 0)
  }

  /** One step of the recursion, valid also in the sign-fill base case:
      the low bit of the AND is the AND of the low bits, and the rest is the
      AND of the shifted operands. */
  lemma BitAndStep(a: int, b: int)
    ensures BitAnd(a, b) % 2 == (if a % 2 == 1 && b % 2 == 1 then 1 else 0)
    ensures BitAnd(a, b) / 2 == BitAnd(a / 2, b / 2)
  {
  }

  /** Bit `i` of `BitAnd(a, b)` is set exactly when bit `i` is set in both
      operands: the definition of bitwise AND. */
  lemma {:induction false} BitAndBit(a: int, b: int, i: nat)
    ensures Bit(BitAnd(a, b), i) <==> Bit(a, i) && Bit(b, i)
    decreases i
  {
    BitAndStep(a, b);
    if i > 0 {
      BitAndBit(a / 2, b / 2, i - 1);
    }
  }

  /** An integer is determined by its bits. */
  lemma {:induction false} BitsDetermine(a: int, b: int)
    requires forall i: nat :: Bit(a, i) == Bit(b, i)
    ensures a == b
    decreases Abs(a) + Abs(b)
  {
    assert Bit(a, 0) == Bit(b, 0);
    forall i: nat
      ensures Bit(a / 2, i) == Bit(b / 2, i)
    {
      assert Bit(a, i + 1) == Bit(b, i + 1);
    }
    if !(IsSignFill(a) && IsSignFill(b)) {
      HalfShrinks(a);
      HalfShrinks(b);
      BitsDetermine(a / 2, b / 2);
    }
  }

  lemma BitOfSignFill(a: int, i: nat)
    requires IsSignFill(a)
    ensures Bit(a, i) <==> a == -1
  {
  }

  lemma BitAndCommutative(a: int, b: int)
    ensures BitAnd(a, b) == BitAnd(b, a)
  {
    forall i: nat
      ensures Bit(BitAnd(a, b), i) == Bit(BitAnd(b, a), i)
    {
      BitAndBit(a, b, i);
      BitAndBit(b, a, i);
    }
    BitsDetermine(BitAnd(a, b), BitAnd(b, a));
  }

  /** Masking twice with the same mask is masking once. */
  lemma BitAndIdempotent(a: int, m: int)
    ensures BitAnd(BitAnd(a, m), m) == BitAnd(a, m)
  {
    var c := BitAnd(a, m);
    forall i: nat
      ensures Bit(BitAnd(c, m), i) == Bit(c, i)
    {
      BitAndBit(c, m, i);
      BitAndBit(a, m, i);
    }
    BitsDetermine(BitAnd(c, m), c);
  }

  /** -1 (all bits set) is the identity of AND. */
  lemma BitAndAllOnes(a: int)
    ensures BitAnd(a, -1) == a
  {
    forall i: nat
      ensures Bit(BitAnd(a, -1), i) == Bit(a, i)
    {
      BitAndBit(a, -1, i);
      BitOfSignFill(-1, i);
    }
    BitsDetermine(BitAnd(a, -1), a);
  }

  /** 0 (no bits set) absorbs AND. */
  lemma BitAndZero(a: int)
    ensures BitAnd(a, 0) == 0
  {
    forall i: nat
      ensures Bit(BitAnd(a, 0), i) == Bit(0, i)
    {
      BitAndBit(a, 0, i);
      BitOfSignFill(0, i);
    }
    BitsDetermine(BitAnd(a, 0), 0);
  }

  /** Operands that fit in `k + 1` two's-complement bits give a result that
      fits in `k + 1` bits. */
  lemma {:induction false} BitAndRange(a: int, b: int, k: nat)
    requires -Pow2(k) <= a < Pow2(k) && -Pow2(k) <= b < Pow2(k)
    ensures -Pow2(k) <= BitAnd(a, b) < Pow2(k)
    decreases k
  {
    if !(IsSignFill(a) && IsSignFill(b)) {
      assert k > 0;
      BitAndRange(a / 2, b / 2, k - 1);
    }
  }

  /** AND of two `int`s is an `int`: C++ `&` on `int` cannot overflow. */
  lemma BitAndInInt32(a: int, b: int)
    requires InInt32(a) && InInt32(b)
    ensures InInt32(BitAnd(a, b))
  {
    Pow2Int32();
    BitAndRange(a, b, 31);
  }

  /** A non-negative mask clears the sign and every bit above its own
      highest bit, so the result lies between 0 and the mask. */
  lemma {:induction false} BitAndNonNegMask(a: int, m: int)
    requires m >= 0
    ensures 0 <= BitAnd(a, m) <= m
    decreases m
  {
    if m == 0 {
      BitAndZero(a);
    } else {
      BitAndNonNegMask(a / 2, m / 2);
    }
  }

  /** The mask `2^k - 1` keeps the low `k` bits: the result is the
      (non-negative) remainder modulo `2^k`. */
  lemma {:induction false} BitAndLowMask(a: int, k: nat)
    ensures BitAnd(a, Pow2(k) - 1) == a % Pow2(k)
    decreases k
  {
    if k == 0 {
      BitAndZero(a);
    } else {
      var h := Pow2(k - 1);
      BitAndLowMask(a / 2, k - 1);
      assert (Pow2(k) - 1) / 2 == h - 1;
      ModOfHalves(a, h);
    }
  }

  /** Splitting off the low bit: `a mod 2h` is twice `(a / 2) mod h` plus
      that bit. */
  lemma ModOfHalves(a: int, h: int)
    requires h >= 1
    ensures a % (2 * h) == 2 * ((a / 2) % h) + a % 2
  {
    var q, s := (a / 2) / h, (a / 2) % h;
    assert a / 2 == h * q + s;
    assert a == (2 * h) * q + (2 * s + a % 2);
    ModUnique(a, 2 * h, q, 2 * s + a % 2);
  }

  lemma ModUnique(a: int, n: int, q: int, r: int)
    requires n >= 1 && 0 <= r < n && a == n * q + r
    ensures a % n == r
  {
    var k := q - a / n;
    var nk := n * k;
    assert nk == a % n - r by {
      assert n * q - n * (a / n) == n * (q - a / n);
    }
    if k != 0 {
      MulAbs(n, k);
      MulGrows(Abs(k), n);
    }
  }

  lemma {:induction false} Pow2Monotone(j: nat, k: nat)
    requires j <= k
    ensures Pow2(j) <= Pow2(k)
    decreases k
  {
    if j < k {
      Pow2Monotone(j, k - 1);
    }
  }

  lemma Pow2Int32()
    ensures Pow2(31) == 0x8000_0000
  {
    assert Pow2(8) == 0x100;
    assert Pow2(16) == 0x1_0000;
    assert Pow2(24) == 0x100_0000;
  }
}
