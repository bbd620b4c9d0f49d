/** The four comparison operators of `TPoint` compare both coordinates at
    once, so they form a partial order on the plane (used for containment
    checks), not a total order: two points can be unrelated either way. */
module PointOrder {

  import opened Int32
  import opened Points

  /** `<=` is reflexive, antisymmetric and transitive: a partial order. */
  lemma LeIsPartialOrder()
    ensures forall p :: Le(p, p)
    ensures forall p, q :: Le(p, q) && Le(q, p) ==> p == q
    ensures forall p, q, s :: Le(p, q) && Le(q, s) ==> Le(p, s)
  {
  }

  /** So is `>=`. */
  lemma GeIsPartialOrder()
    ensures forall p :: Ge(p, p)
    ensures forall p, q :: Ge(p, q) && Ge(q, p) ==> p == q
    ensures forall p, q, s :: Ge(p, q) && Ge(q, s) ==> Ge(p, s)
  {
  }

  /** `<` relates no point to itself, never holds both ways, and chains. */
  lemma LtIsStrictOrder()
    ensures forall p :: !Lt(p, p)
    ensures forall p, q :: Lt(p, q) ==> !Lt(q, p)
    ensures forall p, q, s :: Lt(p, q) && Lt(q, s) ==> Lt(p, s)
  {
  }

  /** So does `>`. */
  lemma GtIsStrictOrder()
    ensures forall p :: !Gt(p, p)
    ensures forall p, q :: Gt(p, q) ==> !Gt(q, p)
    ensures forall p, q, s :: Gt(p, q) && Gt(q, s) ==> Gt(p, s)
  {
  }

  /** `>=` and `>` are `<=` and `<` with the operands swapped. */
  lemma GeGtAreConverses(p: Point, q: Point)
    ensures Ge(p, q) <==> Le(q, p)
    ensures Gt(p, q) <==> Lt(q, p)
  {
  }

  /** `<` implies `<=` and `!=`. */
  lemma LtStrengthensLe(p: Point, q: Point)
    ensures Lt(p, q) ==> Le(p, q) && Ne(p, q)
    ensures Gt(p, q) ==> Ge(p, q) && Ne(p, q)
  {
  }

  /** ... but not conversely: `<` needs BOTH coordinates to differ, so it is
      not "`<=` and `!=`". */
  lemma LeAndNeDoNotGiveLt()
    ensures Le(Point(0, 0), Point(0, 1)) && Ne(Point(0, 0), Point(0, 1))
    ensures !Lt(Point(0, 0), Point(0, 1))
  {
  }

  /** (1,5) and (5,1) are unrelated by all four comparisons. */
  lemma IncomparablePoints()
    ensures !Lt(Point(1, 5), Point(5, 1)) && !Lt(Point(5, 1), Point(1, 5))
    ensures !Gt(Point(1, 5), Point(5, 1)) && !Gt(Point(5, 1), Point(1, 5))
    ensures !Le(Point(1, 5), Point(5, 1)) && !Le(Point(5, 1), Point(1, 5))
    ensures !Ge(Point(1, 5), Point(5, 1)) && !Ge(Point(5, 1), Point(1, 5))
  {
  }

  /** Hence `<=` is not a total order: some pair is related neither way. */
  lemma LeIsNotTotal()
    ensures exists p, q :: !Le(p, q) && !Le(q, p)
  {
    IncomparablePoints();
    assert !Le(Point(1, 5), Point(5, 1)) && !Le(Point(5, 1), Point(1, 5));
  }

  /** On integer coordinates, `p < q` is `p + 1 <= q`. */
  lemma LtIsLeOfSuccessor(p: Point, q: Point)
    requires CanAdd(p, Uniform(1))
    ensures Lt(p, q) <==> Le(AddScalar(p, 1), q)
  {
  }

  /** Moving both points by the same offset keeps every comparison. */
  lemma ComparisonsTranslationInvariant(p: Point, q: Point, t: Point)
    requires CanAdd(p, t) && CanAdd(q, t)
    ensures Le(p, q) <==> Le(Add(p, t), Add(q, t))
    ensures Lt(p, q) <==> Lt(Add(p, t), Add(q, t))
  {
  }

  /** Negation turns the order around. */
  lemma NegReversesOrder(p: Point, q: Point)
    requires p.x != MinInt32 && p.y != MinInt32
    requires q.x != MinInt32 && q.y != MinInt32
    ensures Le(p, q) <==> Ge(Neg(p), Neg(q))
    ensures Lt(p, q) <==> Gt(Neg(p), Neg(q))
  {
  }

  /** `p <= q` exactly when `q - p` lies in the non-negative quadrant. */
  lemma LeIsNonNegativeDifference(p: Point, q: Point)
    requires CanSub(q, p)
    ensures Le(p, q) <==> Ge(Sub(q, p), Origin())
  {
  }
}
