/** The integer point `Point = TPoint<int>`: a plain value holding two C++
    `int` coordinates, with element-wise arithmetic, a mask operator, a
    coordinate-wise partial order and two integer-valued measures.

    Each operator that can overflow requires its result to fit in an `int`,
    because signed overflow is undefined behaviour in C++. The compound
    operators (`+=`, `-=`, ...) are methods returning the receiver's new
    value, written as the same sequence of coordinate updates. */
module Points {

  import opened Int32
  import opened Bitwise

  datatype Point = Point(x: int32, y: int32)

  // ---------------------------------------------------------------- construction

  /** `TPoint()`. */
  function Origin(): (r: Point)
    ensures IsNull(r)
  {
    Point(0, 0)
  }

  /** `TPoint(T xy)`: both coordinates set to one value. */
  function Uniform(s: int32): (r: Point)
    ensures r.x == r.y == s
  {
    Point(s, s)
  }

  // ---------------------------------------------------------------- queries

  /** `isNull()`. */
  predicate IsNull(p: Point)
    ensures IsNull(p) <==> p == Point(0, 0)
  {
    p.x == 0 && p.y == 0
  }

  /** `translated(dx, dy)`: a copy moved by `(dx, dy)`; the receiver itself
      is a value and is left as it was. */
  function Translated(p: Point, dx: int32, dy: int32): (r: Point)
    requires InInt32(p.x + dx) && InInt32(p.y + dy)
    ensures CanSub(r, p) && Sub(r, p) == Point(dx, dy)
  {
    Point(p.x + dx, p.y + dy)
  }

  // ---------------------------------------------------------------- arithmetic

  /** `p + q` does not overflow. */
  predicate CanAdd(p: Point, q: Point) {
    InInt32(p.x + q.x) && InInt32(p.y + q.y)
  }

  /** `p - q` does not overflow. */
  predicate CanSub(p: Point, q: Point) {
    InInt32(p.x - q.x) && InInt32(p.y - q.y)
  }

  /** `p * q` does not overflow. */
  predicate CanMul(p: Point, q: Point) {
    InInt32(p.x * q.x) && InInt32(p.y * q.y)
  }

  /** Unary `operator-`. `-INT_MIN` overflows. */
  function Neg(p: Point): (r: Point)
    requires p.x != MinInt32 && p.y != MinInt32
    ensures CanAdd(p, r) && IsNull(Add(p, r))
  {
    Point(-p.x, -p.y)
  }

  /** `operator+(const TPoint&)`. */
  function Add(p: Point, q: Point): (r: Point)
    requires CanAdd(p, q)
    ensures CanSub(r, q) && Sub(r, q) == p
    ensures CanSub(r, p) && Sub(r, p) == q
  {
    Point(p.x + q.x, p.y + q.y)
  }

  /** `operator-(const TPoint&)`: the point that, added to `q`, gives `p`. */
  function Sub(p: Point, q: Point): (r: Point)
    requires CanSub(p, q)
    ensures r.x + q.x == p.x && r.y + q.y == p.y
  {
    Point(p.x - q.x, p.y - q.y)
  }

  /** `operator*(const TPoint&)`: element-wise product. Each coordinate is
      an exact multiple of the factor's coordinate whose quotient is the
      other factor's coordinate, and is 0 where the factor is 0; so dividing
      by a factor with no zero coordinate gives back the other factor. */
  function Mul(p: Point, q: Point): (r: Point)
    requires CanMul(p, q)
    ensures q.x != 0 ==> TruncDiv(r.x, q.x) == p.x && r.x - TruncDiv(r.x, q.x) * q.x == 0
    ensures q.y != 0 ==> TruncDiv(r.y, q.y) == p.y && r.y - TruncDiv(r.y, q.y) * q.y == 0
    ensures q.x == 0 ==> r.x == 0
    ensures q.y == 0 ==> r.y == 0
    ensures q.x != 0 && q.y != 0 ==> CanDiv(r, q) && Div(r, q) == p
  {
    assert q.x != 0 ==> TruncDiv(p.x * q.x, q.x) == p.x by {
      if q.x != 0 {
        TruncDivOfProduct(p.x, q.x);
      }
    }
    assert q.y != 0 ==> TruncDiv(p.y * q.y, q.y) == p.y by {
      if q.y != 0 {
        TruncDivOfProduct(p.y, q.y);
      }
    }
    Point(p.x * q.x, p.y * q.y)
  }

  /** The source's division by a point: both divisor coordinates nonzero,
      and neither coordinate may be `INT_MIN / -1` (undefined in C++). */
  predicate CanDiv(p: Point, q: Point) {
    && q.x != 0 && q.y != 0
    && !(p.x == MinInt32 && q.x == -1)
    && !(p.y == MinInt32 && q.y == -1)
  }

  /** `operator/(const TPoint&)`: each coordinate is the C++ truncating
      quotient. */
  function Div(p: Point, q: Point): (r: Point)
    requires CanDiv(p, q)
    ensures IsTruncQuotient(p.x, q.x, r.x) && IsTruncQuotient(p.y, q.y, r.y)
  {
    TruncDivInInt32(p.x, q.x);
    TruncDivInInt32(p.y, q.y);
    Point(TruncDiv(p.x, q.x), TruncDiv(p.y, q.y))
  }

  /** `operator+(T)`: adding a scalar is adding the uniform point. */
  function AddScalar(p: Point, s: int32): (r: Point)
    requires CanAdd(p, Uniform(s))
    ensures r == Add(p, Uniform(s))
  {
    Point(p.x + s, p.y + s)
  }

  /** `operator-(T)`: subtracting a scalar is subtracting the uniform point. */
  function SubScalar(p: Point, s: int32): (r: Point)
    requires CanSub(p, Uniform(s))
    ensures r == Sub(p, Uniform(s))
  {
    Point(p.x - s, p.y - s)
  }

  /** `operator&(int)`: each coordinate keeps exactly the bits it shares
      with the mask. `&` on two `int`s never overflows. */
  function AndMask(p: Point, m: int32): (r: Point)
    ensures forall i: nat :: Bit(r.x, i) <==> Bit(p.x, i) && Bit(m, i)
    ensures forall i: nat :: Bit(r.y, i) <==> Bit(p.y, i) && Bit(m, i)
  {
    BitAndInInt32(p.x, m);
    BitAndInInt32(p.y, m);
    forall i: nat
      ensures Bit(BitAnd(p.x, m), i) <==> Bit(p.x, i) && Bit(m, i)
      ensures Bit(BitAnd(p.y, m), i) <==> Bit(p.y, i) && Bit(m, i)
    {
      BitAndBit(p.x, m, i);
      BitAndBit(p.y, m, i);
    }
    Point(BitAnd(p.x, m), BitAnd(p.y, m))
  }

  // ---------------------------------------------------------------- comparison

  /** `operator<=`: holds on both coordinates; it is `>=` read backwards. */
  predicate Le(p: Point, q: Point)
    ensures Le(p, q) <==> Ge(q, p)
  {
    p.x <= q.x && p.y <= q.y
  }

  /** `operator>=`: a point that is `>=` another and differs from it is
      strictly greater on at least one coordinate. */
  predicate Ge(p: Point, q: Point)
    ensures Ge(p, q) && p != q ==> p.x > q.x || p.y > q.y
  {
    p.x >= q.x && p.y >= q.y
  }

  /** `operator<`: strictly smaller on both coordinates; it is `>` read
      backwards. */
  predicate Lt(p: Point, q: Point)
    ensures Lt(p, q) <==> Gt(q, p)
  {
    p.x < q.x && p.y < q.y
  }

  /** `operator>`: implies `!=` and rules out `<=`. */
  predicate Gt(p: Point, q: Point)
    ensures Gt(p, q) ==> Ne(p, q) && !Le(p, q)
  {
    p.x > q.x && p.y > q.y
  }

  /** `operator==`: coordinate equality is value equality. */
  predicate Eq(p: Point, q: Point)
    ensures Eq(p, q) <==> p == q
  {
    q.x == p.x && q.y == p.y
  }

  /** `operator!=`. */
  predicate Ne(p: Point, q: Point)
    ensures Ne(p, q) <==> !Eq(p, q)
  {
    q.x != p.x || q.y != p.y
  }

  // ---------------------------------------------------------------- measures

  /** What `manhattanLength()` needs: `std::abs(INT_MIN)` is undefined and
      the sum must fit in an `int`. */
  predicate HasManhattanLength(p: Point) {
    p.x != MinInt32 && p.y != MinInt32 && InInt32(Abs(p.x) + Abs(p.y))
  }

  /** `manhattanLength()`: the sum of the coordinates' magnitudes (`Abs`
      being the non-negative one of `v` and `-v`), never negative, zero only
      at the null point, and no smaller than either magnitude. */
  function ManhattanLength(p: Point): (r: int32)
    requires HasManhattanLength(p)
    ensures r == Abs(p.x) + Abs(p.y)
    ensures r >= 0
    ensures r == 0 <==> IsNull(p)
    ensures Abs(p.x) <= r && Abs(p.y) <= r
  {
    Abs(p.x) + Abs(p.y)
  }

  /** What `hash()` needs: `(7 * 15 + x) * 15 + y` is evaluated in `int`. */
  predicate HasHash(p: Point) {
    InInt32((7 * 15 + p.x) * 15) && InInt32((7 * 15 + p.x) * 15 + p.y)
  }

  /** `hash()`, as the `int` value before its conversion to `size_t`: `y`
      is recovered from the hash modulo 15, and the rest is `x` shifted by
      the seed 7 * 15. */
  function Hash(p: Point): (r: int)
    requires HasHash(p)
    ensures r % 15 == p.y % 15
    ensures (r - p.y) / 15 - 105 == p.x
  {
    (7 * 15 + p.x) * 15 + p.y
  }

  // ---------------------------------------------------------------- compound assignment

  /** `operator+=(const TPoint&)`. */
  method AddAssign(p: Point, other: Point) returns (r: Point)
    requires CanAdd(p, other)
    ensures r == Add(p, other)
  {
    r := p;
    r := r.(x := r.x + other.x);
    r := r.(y := r.y + other.y);
  }

  /** `operator-=(const TPoint&)`. */
  method SubAssign(p: Point, other: Point) returns (r: Point)
    requires CanSub(p, other)
    ensures r == Sub(p, other)
  {
    r := p;
    r := r.(x := r.x - other.x);
    r := r.(y := r.y - other.y);
  }

  /** `operator*=(const TPoint&)`. */
  method MulAssign(p: Point, other: Point) returns (r: Point)
    requires CanMul(p, other)
    ensures r == Mul(p, other)
  {
    r := p;
    r := r.(x := r.x * other.x);
    r := r.(y := r.y * other.y);
  }

  /** `operator/=(const TPoint&)`. */
  method DivAssign(p: Point, other: Point) returns (r: Point)
    requires CanDiv(p, other)
    ensures r == Div(p, other)
  {
    r := p;
    TruncDivInInt32(r.x, other.x);
    r := r.(x := TruncDiv(r.x, other.x));
    TruncDivInInt32(r.y, other.y);
    r := r.(y := TruncDiv(r.y, other.y));
  }

  /** `operator+=(T)`. */
  method AddScalarAssign(p: Point, s: int32) returns (r: Point)
    requires CanAdd(p, Uniform(s))
    ensures r == AddScalar(p, s)
  {
    r := p;
    r := r.(x := r.x + s);
    r := r.(y := r.y + s);
  }

  /** `operator-=(T)`. */
  method SubScalarAssign(p: Point, s: int32) returns (r: Point)
    requires CanSub(p, Uniform(s))
    ensures r == SubScalar(p, s)
  {
    r := p;
    r := r.(x := r.x - s);
    r := r.(y := r.y - s);
  }

  /** `operator&=(int)`. */
  method AndAssign(p: Point, m: int32) returns (r: Point)
    ensures r == AndMask(p, m)
  {
    r := p;
    BitAndInInt32(r.x, m);
    r := r.(x := BitAnd(r.x, m));
    BitAndInInt32(r.y, m);
    r := r.(y := BitAnd(r.y, m));
  }
}
