/** Algebraic laws of the `TPoint<int>` operators, and the properties of
    its mask operator, `manhattanLength()` and `hash()`. */
module PointLaws {

  import opened Int32
  import opened Bitwise
  import opened Points

  // ---------------------------------------------------------------- construction

  /** The default point is null and equals the uniform point 0; (1,0) is
      not null. */
  lemma ConstructionAndNull()
    ensures Origin() == Uniform(0) == Point(0, 0)
    ensures IsNull(Origin()) && !IsNull(Point(1, 0))
  {
  }

  /** `translated` is addition of the offset point. */
  lemma TranslatedIsAdd(p: Point, dx: int32, dy: int32)
    requires InInt32(p.x + dx) && InInt32(p.y + dy)
    ensures CanAdd(p, Point(dx, dy))
    ensures Translated(p, dx, dy) == Add(p, Point(dx, dy))
  {
  }

  // ---------------------------------------------------------------- addition and negation

  /** Negation is an involution. */
  lemma NegInvolution(p: Point)
    requires p.x != MinInt32 && p.y != MinInt32
    ensures Neg(Neg(p)) == p
  {
  }

  /** `p + (-p)` is the point built from the scalar 0. */
  lemma AddNegIsUniformZero(p: Point)
    requires p.x != MinInt32 && p.y != MinInt32
    ensures CanAdd(p, Neg(p)) && Add(p, Neg(p)) == Uniform(0)
  {
  }

  lemma AddCommutative(p: Point, q: Point)
    requires CanAdd(p, q)
    ensures CanAdd(q, p) && Add(p, q) == Add(q, p)
  {
  }

  lemma AddAssociative(p: Point, q: Point, t: Point)
    requires CanAdd(p, q) && CanAdd(Add(p, q), t) && CanAdd(q, t)
    ensures CanAdd(p, Add(q, t)) && Add(Add(p, q), t) == Add(p, Add(q, t))
  {
  }

  /** The null point is the identity of addition. */
  lemma AddOriginIdentity(p: Point)
    ensures CanAdd(p, Origin()) && Add(p, Origin()) == p
  {
  }

  /** Subtraction is addition of the negation. */
  lemma SubIsAddNeg(p: Point, q: Point)
    requires q.x != MinInt32 && q.y != MinInt32 && CanSub(p, q)
    ensures CanAdd(p, Neg(q)) && Sub(p, q) == Add(p, Neg(q))
  {
  }

  /** Subtracting a scalar undoes adding it. */
  lemma SubScalarUndoesAddScalar(p: Point, s: int32)
    requires CanAdd(p, Uniform(s))
    ensures CanSub(AddScalar(p, s), Uniform(s))
    ensures SubScalar(AddScalar(p, s), s) == p
  {
  }

  // ---------------------------------------------------------------- multiplication and division

  lemma MulCommutative(p: Point, q: Point)
    requires CanMul(p, q)
    ensures CanMul(q, p) && Mul(p, q) == Mul(q, p)
  {
  }

  /** Multiplication distributes over addition, coordinate by coordinate. */
  lemma MulDistributesOverAdd(p: Point, t: Point, q: Point)
    requires CanAdd(p, t) && CanMul(Add(p, t), q)
    requires CanMul(p, q) && CanMul(t, q) && CanAdd(Mul(p, q), Mul(t, q))
    ensures Mul(Add(p, t), q) == Add(Mul(p, q), Mul(t, q))
  {
    Distributes(p.x, t.x, q.x);
    Distributes(p.y, t.y, q.y);
  }

  /** The uniform point 1 is the identity of both multiplication and
      division. */
  lemma UniformOneIsIdentity(p: Point)
    ensures CanMul(p, Uniform(1)) && Mul(p, Uniform(1)) == p
    ensures CanDiv(p, Uniform(1)) && Div(p, Uniform(1)) == p
  {
  }

  /** A point with no zero coordinate divided by itself is the uniform
      point 1. */
  lemma DivBySelf(p: Point)
    requires p.x != 0 && p.y != 0
    ensures CanDiv(p, p) && Div(p, p) == Uniform(1)
  {
  }

  /** Division rounds toward zero on each coordinate independently:
      (-7, 7) / (2, 2) is (-3, 3), where floor division would give -4. */
  lemma DivTruncatesEachCoordinate()
    ensures CanDiv(Point(-7, 7), Uniform(2))
    ensures Div(Point(-7, 7), Uniform(2)) == Point(-3, 3)
  {
  }

  /** Negating the dividend negates the quotient. */
  lemma DivOfNeg(p: Point, q: Point)
    requires p.x != MinInt32 && p.y != MinInt32 && CanDiv(p, q)
    ensures CanDiv(Neg(p), q)
    ensures Div(p, q).x != MinInt32 && Div(p, q).y != MinInt32
    ensures Div(Neg(p), q) == Neg(Div(p, q))
  {
  }

  lemma Distributes(a: int, b: int, c: int)
    ensures (a + b) * c == a * c + b * c
  {
  }

  // ---------------------------------------------------------------- mask

  /** Masking twice with the same mask is masking once. */
  lemma AndMaskIdempotent(p: Point, m: int32)
    ensures AndMask(AndMask(p, m), m) == AndMask(p, m)
  {
    var r := AndMask(p, m);
    var s := AndMask(r, m);
    forall i: nat
      ensures Bit(s.x, i) == Bit(r.x, i) && Bit(s.y, i) == Bit(r.y, i)
    {
    }
    BitsDetermine(s.x, r.x);
    BitsDetermine(s.y, r.y);
  }

  /** The all-ones mask -1 leaves the point unchanged; the mask 0 gives the
      null point. */
  lemma AndMaskIdentityAndZero(p: Point)
    ensures AndMask(p, -1) == p
    ensures IsNull(AndMask(p, 0))
  {
    var r := AndMask(p, -1);
    forall i: nat
      ensures Bit(r.x, i) == Bit(p.x, i) && Bit(r.y, i) == Bit(p.y, i)
    {
      BitOfSignFill(-1, i);
    }
    BitsDetermine(r.x, p.x);
    BitsDetermine(r.y, p.y);
    var z := AndMask(p, 0);
    forall i: nat
      ensures Bit(z.x, i) == Bit(0, i) && Bit(z.y, i) == Bit(0, i)
    {
      BitOfSignFill(0, i);
    }
    BitsDetermine(z.x, 0);
    BitsDetermine(z.y, 0);
  }

  /** A non-negative mask puts the point between the null point and the
      uniform point of the mask. */
  lemma AndMaskNonNegativeBounds(p: Point, m: int32)
    requires m >= 0
    ensures Le(Origin(), AndMask(p, m)) && Le(AndMask(p, m), Uniform(m))
  {
    BitAndNonNegMask(p.x, m);
    BitAndNonNegMask(p.y, m);
  }

  /** The mask `2^k - 1` keeps each coordinate modulo `2^k`. */
  lemma AndMaskLowBits(p: Point, k: nat)
    requires k <= 31
    ensures InInt32(Pow2(k) - 1)
    ensures AndMask(p, Pow2(k) - 1) == Point(p.x % Pow2(k), p.y % Pow2(k))
  {
    Pow2Monotone(k, 31);
    Pow2Int32();
    BitAndLowMask(p.x, k);
    BitAndLowMask(p.y, k);
  }

  // ---------------------------------------------------------------- measures

  /** (3,4) has Manhattan length 7. */
  lemma ManhattanLengthExample()
    ensures HasManhattanLength(Point(3, 4)) && ManhattanLength(Point(3, 4)) == 7
  {
  }

  /** Negation keeps the Manhattan length. */
  lemma ManhattanLengthOfNeg(p: Point)
    requires HasManhattanLength(p)
    ensures HasManhattanLength(Neg(p))
    ensures ManhattanLength(Neg(p)) == ManhattanLength(p)
  {
  }

  /** On an axis the Manhattan length is the magnitude of the one nonzero
      coordinate. */
  lemma ManhattanLengthOnAxes(v: int32)
    requires v != MinInt32
    ensures HasManhattanLength(Point(v, 0)) && ManhattanLength(Point(v, 0)) == Abs(v)
    ensures HasManhattanLength(Point(0, v)) && ManhattanLength(Point(0, v)) == Abs(v)
  {
    assert InInt32(v) && Abs(0) == 0;
  }

  /** The Manhattan length is the sum of the lengths of the two axis
      components: it adds the coordinates' magnitudes rather than taking,
      say, their maximum. */
  lemma ManhattanLengthSumsAxes(p: Point)
    requires HasManhattanLength(p)
    ensures HasManhattanLength(Point(p.x, 0)) && HasManhattanLength(Point(0, p.y))
    ensures ManhattanLength(p) == ManhattanLength(Point(p.x, 0)) + ManhattanLength(Point(0, p.y))
  {
  }

  /** The triangle inequality for the Manhattan length. */
  lemma ManhattanTriangle(p: Point, q: Point)
    requires HasManhattanLength(p) && HasManhattanLength(q)
    requires CanAdd(p, q) && HasManhattanLength(Add(p, q))
    ensures ManhattanLength(Add(p, q)) <= ManhattanLength(p) + ManhattanLength(q)
  {
  }

  /** Equal points hash equally. */
  lemma HashRespectsEquality(p: Point, q: Point)
    requires HasHash(p) && HasHash(q) && Eq(p, q)
    ensures Hash(p) == Hash(q)
  {
  }

  /** The hash is not injective: a step of 15 in `y` trades against a step
      of 1 in `x`. */
  lemma HashCollision()
    ensures HasHash(Point(0, 15)) && HasHash(Point(1, 0))
    ensures Hash(Point(0, 15)) == Hash(Point(1, 0))
  {
  }

  /** Within the band `0 <= y < 15` the hash tells points apart. */
  lemma HashInjectiveOnBand(p: Point, q: Point)
    requires HasHash(p) && HasHash(q)
    requires 0 <= p.y < 15 && 0 <= q.y < 15
    ensures Hash(p) == Hash(q) <==> p == q
  {
  }
}
