/**
 * The planar geometry kernel of the RVO world (RVOMath.cs), over exact reals.
 * The planar "x/z" plane is the ground; `y` is the vertical axis.
 */
module RVOMath {

  /** A three-component vector (Unity's Vector3 / the engine's FVector3). */
  datatype Vec3 = Vec3(x: real, y: real, z: real)

  const Zero := Vec3(0.0, 0.0, 0.0)
  const One := Vec3(1.0, 1.0, 1.0)

  /** The epsilon RVOEPSILON of the source. */
  const Epsilon: real := 0.00001

  function Add(a: Vec3, b: Vec3): Vec3 { Vec3(a.x + b.x, a.y + b.y, a.z + b.z) }
  function Sub(a: Vec3, b: Vec3): Vec3 { Vec3(a.x - b.x, a.y - b.y, a.z - b.z) }
  function Scale(a: Vec3, k: real): Vec3 { Vec3(a.x * k, a.y * k, a.z * k) }

  /** One product of two scalars; every product of the kernel goes through it. */
  function Prod(a: real, b: real): real { a * b }

  /** Vector3.Dot: all three components. */
  function Dot(a: Vec3, b: Vec3): real { Prod(a.x, b.x) + Prod(a.y, b.y) + Prod(a.z, b.z) }

  function Abs(r: real): real { if r < 0.0 then -r else r }

  /** sqr(x) = x*x */
  function Sqr(s: real): real { Prod(s, s) }

  /** absSq(v): the full three-component dot product of v with itself. */
  function AbsSq(v: Vec3): real { Dot(v, v) }

  /** A square is positive away from zero: the sign rule, one case per sign. */
  lemma SqrPositive(s: real)
    requires s != 0.0
    ensures Sqr(s) > 0.0
  {
    if s > 0.0 {
      ProdPositive(s, s);
    } else {
      ProdPositive(-s, -s);
      assert Prod(-s, -s) == Prod(s, s);
    }
  }

  lemma ProdPositive(a: real, b: real)
    requires a > 0.0 && b > 0.0
    ensures Prod(a, b) > 0.0
  {}

  /** sqr(x) is never negative and is zero exactly at zero. */
  lemma SqrNonNegative(s: real)
    ensures Sqr(s) >= 0.0
    ensures Sqr(s) == 0.0 <==> s == 0.0
  {
    if s != 0.0 {
      SqrPositive(s);
    }
  }

  /** absSq is never negative and vanishes only at the zero vector. */
  lemma AbsSqNonNegative(v: Vec3)
    ensures AbsSq(v) >= 0.0
    ensures AbsSq(v) == 0.0 <==> v == Zero
  {
    SqrNonNegative(v.x);
    SqrNonNegative(v.y);
    SqrNonNegative(v.z);
  }

  /** det(a, b): the planar (x/z) determinant; y is ignored. */
  function Det(a: Vec3, b: Vec3): real { a.x * b.z - a.z * b.x }

  /** mul(a, b) = a.x*b.z + a.z*b.x -- symmetric, and NOT the dot product. */
  function Mul(a: Vec3, b: Vec3): real { a.x * b.z + a.z * b.x }

  /** cross(a, b): the standard three-dimensional cross product (indices 0,1,2 = x,y,z). */
  function Cross(a: Vec3, b: Vec3): Vec3 {
    Vec3(a.y * b.z - a.z * b.y, a.z * b.x - a.x * b.z, a.x * b.y - a.y * b.x)
  }

  /** leftOf(a, b, c) = det(a - c, b - a): positive when c lies left of the line a->b. */
  function LeftOf(a: Vec3, b: Vec3, c: Vec3): real { Det(Sub(a, c), Sub(b, a)) }

  /** The parameter of the projection of c onto the line a->b. */
  function SegmentParam(a: Vec3, b: Vec3, c: Vec3): real
    requires a != b
  {
    SubNonZero(a, b);
    Dot(Sub(c, a), Sub(b, a)) / AbsSq(Sub(b, a))
  }

  /** The difference of two points is zero exactly when they coincide. */
  lemma SubZeroIff(a: Vec3, b: Vec3)
    ensures Sub(a, b) == Zero <==> a == b
  {
    if Sub(a, b) == Zero {
      assert a == Vec3(a.x, a.y, a.z) && b == Vec3(b.x, b.y, b.z);
    }
  }

  /** A proper segment has a positive squared length. */
  lemma SubNonZero(a: Vec3, b: Vec3)
    requires a != b
    ensures AbsSq(Sub(b, a)) > 0.0
  {
    SubZeroIff(b, a);
    AbsSqNonNegative(Sub(b, a));
  }

  /**
   * distSqPointLineSegment(a, b, c): the squared distance from c to the segment a-b.
   * The source divides by |b - a|^2, so a degenerate segment is excluded.
   */
  function DistSqPointLineSegment(a: Vec3, b: Vec3, c: Vec3): (d: real)
    requires a != b
    ensures SegmentParam(a, b, c) < 0.0 ==> d == AbsSq(Sub(c, a))
    ensures SegmentParam(a, b, c) > 1.0 ==> d == AbsSq(Sub(c, b))
    ensures 0.0 <= SegmentParam(a, b, c) <= 1.0 ==>
              d == AbsSq(Sub(c, Add(a, Scale(Sub(b, a), SegmentParam(a, b, c)))))
  {
    var r := SegmentParam(a, b, c);
    if r < 0.0 then AbsSq(Sub(c, a))
    else if r > 1.0 then AbsSq(Sub(c, b))
    else AbsSq(Sub(c, Add(a, Scale(Sub(b, a), r))))
  }

  /** The squared segment distance is never negative. */
  lemma DistSqNonNegative(a: Vec3, b: Vec3, c: Vec3)
    requires a != b
    ensures DistSqPointLineSegment(a, b, c) >= 0.0
  {
    var r := SegmentParam(a, b, c);
    AbsSqNonNegative(Sub(c, a));
    AbsSqNonNegative(Sub(c, b));
    AbsSqNonNegative(Sub(c, Add(a, Scale(Sub(b, a), r))));
  }

  /** IsZeroXZ: both planar components within 0.001 of zero. */
  function IsZeroXZ(v: Vec3): bool { Abs(v.x) <= 0.001 && Abs(v.z) <= 0.001 }

  /** Mathf.Clamp01 */
  function Clamp01(t: real): (r: real)
    ensures 0.0 <= r <= 1.0
    ensures 0.0 <= t <= 1.0 ==> r == t
    ensures t < 0.0 ==> r == 0.0
    ensures t > 1.0 ==> r == 1.0
  {
    if t < 0.0 then 0.0 else if t > 1.0 then 1.0 else t
  }

  /**
   * ProjectPointToSegment(p, a, b): a + (b - a) * clamp01(t), t the projection parameter.
   * The source divides by |b - a|^2, so a degenerate segment is excluded.
   */
  function ProjectPointToSegment(p: Vec3, a: Vec3, b: Vec3): (q: Vec3)
    requires a != b
    ensures exists t: real :: 0.0 <= t <= 1.0 && q == Add(a, Scale(Sub(b, a), t))
    ensures SegmentParam(a, b, p) <= 0.0 ==> q == a
    ensures SegmentParam(a, b, p) >= 1.0 ==> q == b
    ensures 0.0 < SegmentParam(a, b, p) < 1.0 ==> q == Add(a, Scale(Sub(b, a), SegmentParam(a, b, p)))
  {
    var t := Clamp01(SegmentParam(a, b, p));
    var q := Add(a, Scale(Sub(b, a), t));
    assert q == Add(a, Scale(Sub(b, a), t));
    q
  }

  /** The squared segment distance is the squared distance to the projected point. */
  lemma DistSqIsProjectionDistance(a: Vec3, b: Vec3, c: Vec3)
    requires a != b
    ensures DistSqPointLineSegment(a, b, c) == AbsSq(Sub(c, ProjectPointToSegment(c, a, b)))
  {
    var r := SegmentParam(a, b, c);
    if r <= 0.0 {
      assert Add(a, Scale(Sub(b, a), 0.0)) == a;
    } else if r >= 1.0 {
      assert Add(a, Scale(Sub(b, a), 1.0)) == b;
    }
  }

  /** The point of the segment a-b at parameter t, seen from c. */
  function OffsetAt(a: Vec3, b: Vec3, c: Vec3, t: real): Vec3 {
    Sub(c, Add(a, Scale(Sub(b, a), t)))
  }

  /** The part of |u - x d|^2 that depends on x, with k = u . d and dd = |d|^2. */
  function Quad(x: real, k: real, dd: real): real { -2.0 * x * k + x * x * dd }

  /** |u - t d|^2 = |u|^2 - 2 t (u . d) + t^2 |d|^2, written with u = c - a and d = b - a. */
  lemma OffsetExpand(a: Vec3, b: Vec3, c: Vec3, t: real)
    ensures AbsSq(OffsetAt(a, b, c, t)) == AbsSq(Sub(c, a)) + Quad(t, Dot(Sub(c, a), Sub(b, a)), AbsSq(Sub(b, a)))
  {
    var u, d := Sub(c, a), Sub(b, a);
    assert OffsetAt(a, b, c, t) == Vec3(u.x - t * d.x, u.y - t * d.y, u.z - t * d.z);
    ComponentsExpand(u.x, u.y, u.z, d.x, d.y, d.z, t);
  }

  /** The same expansion, component by component. */
  lemma ComponentsExpand(ux: real, uy: real, uz: real, dx: real, dy: real, dz: real, t: real)
    ensures Prod(ux - t * dx, ux - t * dx) + Prod(uy - t * dy, uy - t * dy) + Prod(uz - t * dz, uz - t * dz) ==
      Prod(ux, ux) + Prod(uy, uy) + Prod(uz, uz) +
      Quad(t, Prod(ux, dx) + Prod(uy, dy) + Prod(uz, dz), Prod(dx, dx) + Prod(dy, dy) + Prod(dz, dz))
  {
    SquareDiff(ux, dx, t);
    SquareDiff(uy, dy, t);
    SquareDiff(uz, dz, t);
    QuadSum(t, Prod(ux, dx), Prod(uy, dy), Prod(uz, dz), Prod(dx, dx), Prod(dy, dy), Prod(dz, dz));
  }

  lemma SquareDiff(u: real, d: real, t: real)
    ensures Prod(u - t * d, u - t * d) == Prod(u, u) + Quad(t, Prod(u, d), Prod(d, d))
  {}

  /** Quad is additive in its coefficients. */
  lemma QuadSum(t: real, k1: real, k2: real, k3: real, d1: real, d2: real, d3: real)
    ensures Quad(t, k1, d1) + Quad(t, k2, d2) + Quad(t, k3, d3) == Quad(t, k1 + k2 + k3, d1 + d2 + d3)
  {}

  lemma ProductNonNegative(x: real, y: real)
    requires (x >= 0.0 && y >= 0.0) || (x <= 0.0 && y <= 0.0)
    ensures x * y >= 0.0
  {}

  /**
   * The squared segment distance is the least squared distance from c to any point of the
   * segment a-b: distSqPointLineSegment is the distance to the segment, not to the line.
   */
  lemma DistSqIsMinimum(a: Vec3, b: Vec3, c: Vec3, t: real)
    requires a != b
    requires 0.0 <= t <= 1.0
    ensures DistSqPointLineSegment(a, b, c) <= AbsSq(OffsetAt(a, b, c, t))
  {
    var r := SegmentParam(a, b, c);
    var s := Clamp01(r);
    var k, dd := Dot(Sub(c, a), Sub(b, a)), AbsSq(Sub(b, a));
    SubNonZero(a, b);
    ParamTimesLength(k, dd, r);
    OffsetExpand(a, b, c, t);
    OffsetExpand(a, b, c, s);
    DistSqIsProjectionDistance(a, b, c);
    assert ProjectPointToSegment(c, a, b) == Add(a, Scale(Sub(b, a), s));
    QuadraticGap(t, s, r, k, dd);
  }

  lemma ParamTimesLength(k: real, dd: real, r: real)
    requires dd > 0.0 && r == k / dd
    ensures r * dd == k
  {}

  /**
   * With f(x) = -2 x k + x^2 dd and k = r dd, dd > 0, the clamped parameter s of r
   * minimises f over [0, 1].
   */
  lemma QuadraticGap(t: real, s: real, r: real, k: real, dd: real)
    requires dd > 0.0 && r * dd == k && s == Clamp01(r) && 0.0 <= t <= 1.0
    ensures Quad(s, k, dd) <= Quad(t, k, dd)
  {
    GapFactor(t, s, k, dd);
    if r < 0.0 {
      ProductNonNegative(-r, dd);
      ProductNonNegative(t, dd);
      ProductNonNegative(t, t * dd - 2.0 * k);
    } else if r > 1.0 {
      ProductNonNegative(r - 1.0, dd);
      ProductNonNegative(1.0 - t, dd);
      ProductNonNegative(t - 1.0, (t + 1.0) * dd - 2.0 * k);
    } else {
      ProductNonNegative(t - s, t - s);
      ProductNonNegative((t - s) * (t - s), dd);
      assert (t - s) * ((t + s) * dd - 2.0 * k) == (t - s) * (t - s) * dd;
    }
  }

  lemma GapFactor(t: real, s: real, k: real, dd: real)
    ensures Quad(t, k, dd) - Quad(s, k, dd) == (t - s) * ((t + s) * dd - 2.0 * k)
  {}

  // ---------------------------------------------------------------------------
  // Algebraic identities of the kernel

  lemma DetAntisymmetric(a: Vec3, b: Vec3)
    ensures Det(a, b) == -Det(b, a)
  {}

  lemma DetSelfZero(a: Vec3)
    ensures Det(a, a) == 0.0
  {}

  /** det and leftOf ignore the vertical component. */
  lemma DetIgnoresY(a: Vec3, b: Vec3, ya: real, yb: real)
    ensures Det(a, b) == Det(a.(y := ya), b.(y := yb))
  {}

  lemma MulSymmetric(a: Vec3, b: Vec3)
    ensures Mul(a, b) == Mul(b, a)
  {}

  /** mul is not the planar dot product: (1,0,0)*(1,0,0) has mul 0 but dot 1. */
  lemma MulIsNotDot()
    ensures Mul(Vec3(1.0, 0.0, 0.0), Vec3(1.0, 0.0, 0.0)) != Dot(Vec3(1.0, 0.0, 0.0), Vec3(1.0, 0.0, 0.0))
  {}

  lemma LeftOfDegenerate(a: Vec3, b: Vec3)
    ensures LeftOf(a, b, a) == 0.0
    ensures LeftOf(a, a, b) == 0.0
  {}

  lemma CrossSelfZero(a: Vec3)
    ensures Cross(a, a) == Zero
  {}

  lemma CrossOrthogonal(a: Vec3, b: Vec3)
    ensures Dot(Cross(a, b), a) == 0.0
    ensures Dot(Cross(a, b), b) == 0.0
  {}

  lemma IsZeroXZIgnoresY(v: Vec3, y: real)
    ensures IsZeroXZ(v) == IsZeroXZ(v.(y := y))
  {}
}
