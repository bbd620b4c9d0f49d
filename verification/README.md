# TPoint<int> in Dafny

A model of the integer point type `Point = TPoint<int>` from OTClient's
`src/framework/util/point.h`: a plain value of two C++ `int` coordinates
with element-wise arithmetic, a bitwise mask, four coordinate-wise
comparisons, equality, `manhattanLength()` and `hash()`.

Layout:

- `int32.dfy` (module `Int32`): the C++ `int` range as the subset type
  `int32`, and `TruncDiv`, C++'s `int / int` (rounding toward zero),
  characterised by `IsTruncQuotient` (remainder smaller than the divisor,
  with the dividend's sign) and proved to be the unique such quotient.
- `bitwise.dfy` (module `Bitwise`): `BitAnd`, two's-complement AND on
  unbounded integers (the value C++ `int & int` produces), proved to act bit
  by bit (`BitAndBit`), to stay within the `int` range, and to keep the low
  bits under a `2^k - 1` mask.
- `point.dfy` (module `Points`): the `Point` datatype and every integer
  operator of the class. Each compound operator (`+=`, `-=`, `*=`, `/=`,
  scalar `+=`/`-=`, `&=`) is a method that performs the source's two
  coordinate updates in order and returns the receiver's new value. It is
  proved equal to the matching pure operator.
- `point_order.dfy` (module `PointOrder`): the order laws. `<=`/`>=` are
  partial orders and `<`/`>` strict orders. None is total: (1,5) and (5,1)
  are unrelated. `<` is not "`<=` and `!=`".
- `point_laws.dfy` (module `PointLaws`): algebraic laws (involution,
  inverses, identities, commutativity, truncating division), mask laws,
  Manhattan length and hash properties.

Overflow: signed overflow is undefined behaviour in C++. Each operator that
can overflow therefore requires its result to fit in an `int`. The
requirement is spelled out as `CanAdd`, `CanSub`, `CanMul`, `CanDiv`,
`HasManhattanLength` and `HasHash`. `-INT_MIN`, `INT_MIN / -1` and
`std::abs(INT_MIN)` are excluded for the same reason. `&` never overflows,
and this is proved (`Bitwise.BitAndInInt32`).

Division: the code divides with no guard, so a zero divisor coordinate is
undefined behaviour. The model makes a nonzero divisor a precondition
(`Points.CanDiv`) rather than an error result, following the code.

## Model

| member | source | states |
|---|---|---|
| Points.Origin | src/framework/util/point.h:35 | the default-constructed point is null |
| Points.Uniform | src/framework/util/point.h:36 | the one-scalar constructor puts the scalar in both coordinates |
| Points.IsNull | src/framework/util/point.h:40 | `isNull()` holds exactly for the point (0,0) |
| Points.Translated | src/framework/util/point.h:42 | the translated copy minus the original point is the offset `(dx, dy)` |
| Points.Neg | src/framework/util/point.h:53 | adding a point's negation to it gives the null point, without overflow |
| Points.Add | src/framework/util/point.h:55 | subtracting either operand from the sum gives back the other operand |
| Points.Sub | src/framework/util/point.h:57 | the difference plus the subtrahend is the minuend, per coordinate |
| Points.Mul | src/framework/util/point.h:59 | each coordinate is 0 where the factor's coordinate is 0, and otherwise an exact multiple of it whose truncating quotient is the other factor's coordinate; dividing by a factor with no zero coordinate returns the other factor |
| Points.Div | src/framework/util/point.h:61 | each coordinate is the C++ quotient: remainder smaller than the divisor and of the dividend's sign; nonzero divisors, no `INT_MIN / -1` |
| Points.AddScalar | src/framework/util/point.h:64 | adding a scalar equals adding the uniform point of that scalar |
| Points.SubScalar | src/framework/util/point.h:66 | subtracting a scalar equals subtracting the uniform point of that scalar |
| Points.AndMask | src/framework/util/point.h:73 | each coordinate of the result has exactly the bits set in both the coordinate and the mask |
| Points.Le | src/framework/util/point.h:76 | `p <= q` holds exactly when `q >= p` |
| Points.Ge | src/framework/util/point.h:77 | a point that is `>=` a different point is strictly greater on some coordinate |
| Points.Lt | src/framework/util/point.h:78 | `p < q` holds exactly when `q > p` |
| Points.Gt | src/framework/util/point.h:79 | `p > q` implies `p != q` and rules out `p <= q` |
| Points.Eq | src/framework/util/point.h:82 | `==` holds exactly when the two points are the same value |
| Points.Ne | src/framework/util/point.h:83 | `!=` is the exact negation of `==` |
| Points.ManhattanLength | src/framework/util/point.h:86 | the length is the sum of the two coordinates' magnitudes (`Abs`); it is non-negative, zero exactly at the null point, and bounds each magnitude |
| Points.Hash | src/framework/util/point.h:90 | the hash determines `y` modulo 15, and with `y` it determines `x` |
| Points.AddAssign | src/framework/util/point.h:56 | `+=` leaves the receiver equal to `+` |
| Points.SubAssign | src/framework/util/point.h:58 | `-=` leaves the receiver equal to `-` |
| Points.MulAssign | src/framework/util/point.h:60 | `*=` leaves the receiver equal to `*` |
| Points.DivAssign | src/framework/util/point.h:62 | `/=` leaves the receiver equal to `/`, under the same divisor requirements |
| Points.AddScalarAssign | src/framework/util/point.h:65 | scalar `+=` leaves the receiver equal to scalar `+` |
| Points.SubScalarAssign | src/framework/util/point.h:67 | scalar `-=` leaves the receiver equal to scalar `-` |
| Points.AndAssign | src/framework/util/point.h:74 | `&=` leaves the receiver equal to `&` |
| Int32.Abs | src/framework/util/point.h:86 | `std::abs`: the non-negative one of `v` and `-v` |
| Int32.TruncDiv | src/framework/util/point.h:61-62 | C++ integer division: the quotient satisfies the truncating-remainder conditions and is no larger in magnitude than the dividend |
| Int32.TruncQuotientUnique | src/framework/util/point.h:61 | at most one quotient meets the truncating-remainder conditions |
| Int32.TruncDivOfProduct | src/framework/util/point.h:59-61 | dividing `a * b` by `b` gives `a` |
| Int32.TruncDivInInt32 | src/framework/util/point.h:61 | an `int` quotient fits in `int` exactly when it is not `INT_MIN / -1` |
| Int32.TruncDivAgreesOnNonNegatives | src/framework/util/point.h:61 | for a non-negative dividend and a positive divisor, truncating and floor division agree |
| Int32.TruncDivRoundsTowardZero | src/framework/util/point.h:61 | -7/2 is -3 (floor division gives -4), 7/-2 is -3, -7/-2 is 3 |
| Int32.TruncDivOddInDividend | src/framework/util/point.h:61 | negating the dividend negates the quotient |
| Int32.TruncDivOddInDivisor | src/framework/util/point.h:61 | negating the divisor negates the quotient |
| Bitwise.BitAnd | src/framework/util/point.h:73-74 | `a & b` is negative exactly when both operands are, and is at most any non-negative operand |
| Bitwise.BitAndBit | src/framework/util/point.h:73 | bit i of `a & b` is set exactly when bit i is set in both `a` and `b` |
| Bitwise.BitsDetermine | src/framework/util/point.h:73 | two integers with the same bits are equal |
| Bitwise.BitAndCommutative | src/framework/util/point.h:73 | `a & b == b & a` |
| Bitwise.BitAndIdempotent | src/framework/util/point.h:73 | masking twice with the same mask equals masking once |
| Bitwise.BitAndAllOnes | src/framework/util/point.h:73 | `a & -1 == a` |
| Bitwise.BitAndZero | src/framework/util/point.h:73 | `a & 0 == 0` |
| Bitwise.BitAndRange | src/framework/util/point.h:73 | operands that fit in k+1 two's-complement bits give a result that fits in k+1 bits |
| Bitwise.BitAndInInt32 | src/framework/util/point.h:73 | `&` of two `int`s is an `int` |
| Bitwise.BitAndNonNegMask | src/framework/util/point.h:73 | with a non-negative mask the result lies between 0 and the mask |
| Bitwise.BitAndLowMask | src/framework/util/point.h:73 | the mask `2^k - 1` yields the non-negative remainder modulo `2^k` |
| PointOrder.LeIsPartialOrder | src/framework/util/point.h:76 | `<=` is reflexive, antisymmetric and transitive |
| PointOrder.GeIsPartialOrder | src/framework/util/point.h:77 | `>=` is reflexive, antisymmetric and transitive |
| PointOrder.LtIsStrictOrder | src/framework/util/point.h:78 | `<` is irreflexive, asymmetric and transitive |
| PointOrder.GtIsStrictOrder | src/framework/util/point.h:79 | `>` is irreflexive, asymmetric and transitive |
| PointOrder.GeGtAreConverses | src/framework/util/point.h:76-79 | `p >= q` iff `q <= p`, and `p > q` iff `q < p` |
| PointOrder.LtStrengthensLe | src/framework/util/point.h:76-83 | `<` implies `<=` and `!=`, and `>` implies `>=` and `!=` |
| PointOrder.LeAndNeDoNotGiveLt | src/framework/util/point.h:76-83 | (0,0) <= (0,1) and they differ, yet (0,0) < (0,1) is false |
| PointOrder.IncomparablePoints | src/framework/util/point.h:76-79 | (1,5) and (5,1) are unrelated by all four comparisons in both directions |
| PointOrder.LeIsNotTotal | src/framework/util/point.h:76 | `<=` is not a total order |
| PointOrder.LtIsLeOfSuccessor | src/framework/util/point.h:76-78 | on integers, `p < q` iff `p + 1 <= q` |
| PointOrder.ComparisonsTranslationInvariant | src/framework/util/point.h:76-78 | adding the same point to both sides keeps `<=` and `<` |
| PointOrder.NegReversesOrder | src/framework/util/point.h:76-79 | `p <= q` iff `-p >= -q`, and `p < q` iff `-p > -q` |
| PointOrder.LeIsNonNegativeDifference | src/framework/util/point.h:76-77 | `p <= q` iff `q - p >= (0,0)` |
| PointLaws.ConstructionAndNull | src/framework/util/point.h:35-40 | the default point equals the uniform point 0 and (0,0); it is null and (1,0) is not |
| PointLaws.TranslatedIsAdd | src/framework/util/point.h:42 | `translated(dx, dy)` equals adding the point `(dx, dy)` |
| PointLaws.NegInvolution | src/framework/util/point.h:53 | `-(-p) == p` |
| PointLaws.AddNegIsUniformZero | src/framework/util/point.h:53-55 | `p + (-p)` equals the uniform point 0 |
| PointLaws.AddCommutative | src/framework/util/point.h:55 | `p + q == q + p` |
| PointLaws.AddAssociative | src/framework/util/point.h:55 | `(p + q) + t == p + (q + t)` when no step overflows |
| PointLaws.AddOriginIdentity | src/framework/util/point.h:55 | `p + (0,0) == p` |
| PointLaws.SubIsAddNeg | src/framework/util/point.h:53-57 | `p - q == p + (-q)` |
| PointLaws.SubScalarUndoesAddScalar | src/framework/util/point.h:64-66 | `(p + s) - s == p` |
| PointLaws.MulCommutative | src/framework/util/point.h:59 | `p * q == q * p` |
| PointLaws.MulDistributesOverAdd | src/framework/util/point.h:55-59 | `(p + t) * q == p * q + t * q` when no step overflows |
| PointLaws.UniformOneIsIdentity | src/framework/util/point.h:59-61 | multiplying or dividing by the uniform point 1 returns the point |
| PointLaws.DivBySelf | src/framework/util/point.h:61 | a point with no zero coordinate divided by itself is the uniform point 1 |
| PointLaws.DivTruncatesEachCoordinate | src/framework/util/point.h:61 | (-7,7) / (2,2) is (-3,3) |
| PointLaws.DivOfNeg | src/framework/util/point.h:61 | `(-p) / q == -(p / q)` |
| PointLaws.AndMaskIdempotent | src/framework/util/point.h:73 | `(p & m) & m == p & m` |
| PointLaws.AndMaskIdentityAndZero | src/framework/util/point.h:73 | `p & -1 == p`, and `p & 0` is null |
| PointLaws.AndMaskNonNegativeBounds | src/framework/util/point.h:73 | for a mask `m >= 0`, `(0,0) <= p & m <= (m,m)` |
| PointLaws.AndMaskLowBits | src/framework/util/point.h:73 | `p & (2^k - 1)` takes each coordinate modulo `2^k`, for k up to 31 |
| PointLaws.ManhattanLengthExample | src/framework/util/point.h:86 | (3,4) has Manhattan length 7 |
| PointLaws.ManhattanLengthOfNeg | src/framework/util/point.h:86 | negation keeps the Manhattan length |
| PointLaws.ManhattanLengthOnAxes | src/framework/util/point.h:86 | on either axis the Manhattan length is the magnitude of the nonzero coordinate |
| PointLaws.ManhattanLengthSumsAxes | src/framework/util/point.h:86 | the Manhattan length of (x,y) is the length of (x,0) plus the length of (0,y) |
| PointLaws.ManhattanTriangle | src/framework/util/point.h:86 | the Manhattan length of a sum is at most the sum of the lengths |
| PointLaws.HashRespectsEquality | src/framework/util/point.h:90 | points equal under `==` have equal hashes |
| PointLaws.HashCollision | src/framework/util/point.h:90 | (0,15) and (1,0) have the same hash |
| PointLaws.HashInjectiveOnBand | src/framework/util/point.h:90 | for `0 <= y < 15` two points hash equally exactly when they are equal |

## Left out

- `PointF = TPoint<float>` and every floating-point path: `scale`, `* float`, `/ float`, `*= float`, `/= float`, `length` and `distanceFrom` (point.h:44-51, 68-71, 85, 88). Floating-point rounding and `sqrt` have no exact model here.
- `toSize` (point.h:41): the size type is only forward-declared, and its definition is not part of this model.
- The stream operators `<<` and `>>` (point.h:98-111). They are I/O over standard streams. The format is `x`, one space, then `y`, read back in that order.
- The copy constructor and `operator=` (point.h:38, 81): the model is a value type, so copying is Dafny value semantics.
- The two-argument constructor `TPoint(x, y)` (point.h:37) is the datatype constructor `Point(x, y)` itself, so it has no separate member.
- Points.Hash: returns the `int` value before its conversion to `std::size_t`. It requires that value to fit in an `int`, and does not model the wrap-around into an unsigned 64-bit value.
- Compound operators with the argument aliasing the receiver (`p += p`) are not modelled separately. Each coordinate update reads only its own coordinate, so aliasing cannot change the result.
- Overflow: each operator requires its result to fit in an `int` instead of modelling the undefined behaviour of signed overflow.
