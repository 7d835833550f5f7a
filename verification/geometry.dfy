/**
 * Vectors, affine transforms, rays and the square root the tracers rely on.
 *
 * The vector and matrix library used by the tracers (egl) is not part of this model; its
 * Vector3d is a triple of reals here and its Matrix4d an affine map (a 3x3 linear part
 * stored by rows plus a translation), which is all the surfaces and cameras use.
 */
module Geometry {

  datatype V3 = V3(x: real, y: real, z: real)
  datatype V2 = V2(x: real, y: real)

  /** `Colord`: a colour is a triple of reals (red, green, blue). */
  type Color = V3

  /** The three coordinate axes, in the order Java indexes them (0, 1, 2). */
  datatype Axis = AxisX | AxisY | AxisZ

  function Zero(): V3 { V3(0.0, 0.0, 0.0) }
  function Add(a: V3, b: V3): V3 { V3(a.x + b.x, a.y + b.y, a.z + b.z) }
  function Sub(a: V3, b: V3): V3 { V3(a.x - b.x, a.y - b.y, a.z - b.z) }
  function Neg(a: V3): V3 { V3(-a.x, -a.y, -a.z) }
  function Scale(k: real, a: V3): V3 { V3(k * a.x, k * a.y, k * a.z) }
  function Dot(a: V3, b: V3): real { a.x * b.x + a.y * b.y + a.z * b.z }
  function Cross(a: V3, b: V3): V3 {
    V3(a.y * b.z - a.z * b.y, a.z * b.x - a.x * b.z, a.x * b.y - a.y * b.x)
  }

  /** Component selection, `Vector3d.get(index)`. */
  function Get(v: V3, axis: Axis): real {
    match axis
    case AxisX => v.x
    case AxisY => v.y
    case AxisZ => v.z
  }

  function Min(a: real, b: real): real { if a < b then a else b }
  function Max(a: real, b: real): real { if a > b then a else b }

  /** Componentwise minimum and maximum. */
  function MinV(a: V3, b: V3): V3 { V3(Min(a.x, b.x), Min(a.y, b.y), Min(a.z, b.z)) }
  function MaxV(a: V3, b: V3): V3 { V3(Max(a.x, b.x), Max(a.y, b.y), Max(a.z, b.z)) }

  lemma SquareNonNegative(r: real)
    ensures r * r >= 0.0
  {
  }

  lemma SquarePositive(r: real)
    requires r != 0.0
    ensures r * r > 0.0
  {
  }

  /** |a|^2 is non-negative, and positive exactly for non-zero vectors. */
  lemma DotSelfNonNegative(a: V3)
    ensures Dot(a, a) >= 0.0
    ensures a != Zero() ==> Dot(a, a) > 0.0
  {
    calc {
      Dot(a, a);
      a.x * a.x + a.y * a.y + a.z * a.z;
      >= { SquareNonNegative(a.x); SquareNonNegative(a.y); SquareNonNegative(a.z); }
      0.0;
    }
    if a.x != 0.0 {
      calc {
        Dot(a, a);
        a.x * a.x + a.y * a.y + a.z * a.z;
        >= { SquareNonNegative(a.y); SquareNonNegative(a.z); }
        a.x * a.x;
        > { SquarePositive(a.x); }
        0.0;
      }
    } else if a.y != 0.0 {
      calc {
        Dot(a, a);
        a.x * a.x + a.y * a.y + a.z * a.z;
        >= { SquareNonNegative(a.x); SquareNonNegative(a.z); }
        a.y * a.y;
        > { SquarePositive(a.y); }
        0.0;
      }
    } else if a.z != 0.0 {
      calc {
        Dot(a, a);
        a.x * a.x + a.y * a.y + a.z * a.z;
        >= { SquareNonNegative(a.x); SquareNonNegative(a.y); }
        a.z * a.z;
        > { SquarePositive(a.z); }
        0.0;
      }
    }
  }

  /** The cross product is perpendicular to both of its arguments. */
  lemma CrossPerpendicular(a: V3, b: V3)
    ensures Dot(Cross(a, b), a) == 0.0 && Dot(Cross(a, b), b) == 0.0
  {
    var c := Cross(a, b);
    assert c.x * a.x == a.y * b.z * a.x - a.z * b.y * a.x;
    assert c.y * a.y == a.z * b.x * a.y - a.x * b.z * a.y;
    assert c.z * a.z == a.x * b.y * a.z - a.y * b.x * a.z;
    assert c.x * b.x == a.y * b.z * b.x - a.z * b.y * b.x;
    assert c.y * b.y == a.z * b.x * b.y - a.x * b.z * b.y;
    assert c.z * b.z == a.x * b.y * b.z - a.y * b.x * b.z;
  }

  /** Scalars factor out of a dot product. */
  lemma DotScale(k: real, a: V3, b: V3)
    ensures Dot(Scale(k, a), b) == k * Dot(a, b)
    ensures Dot(b, Scale(k, a)) == k * Dot(b, a)
  {
  }

  lemma DotNeg(a: V3, b: V3)
    ensures Dot(a, Neg(b)) == -Dot(a, b) && Dot(Neg(b), a) == -Dot(b, a)
  {
  }

  lemma CrossZero(b: V3)
    ensures Cross(Zero(), b) == Zero()
  {
  }

  /** Lagrange's identity: |a x b|^2 = |a|^2 |b|^2 - (a . b)^2. */
  lemma Lagrange(a: V3, b: V3)
    ensures Dot(Cross(a, b), Cross(a, b)) == Dot(a, a) * Dot(b, b) - Dot(a, b) * Dot(a, b)
  {
    var c := Cross(a, b);
    assert c.x * c.x == a.y * a.y * b.z * b.z - 2.0 * a.y * b.z * a.z * b.y + a.z * a.z * b.y * b.y;
    assert c.y * c.y == a.z * a.z * b.x * b.x - 2.0 * a.z * b.x * a.x * b.z + a.x * a.x * b.z * b.z;
    assert c.z * c.z == a.x * a.x * b.y * b.y - 2.0 * a.x * b.y * a.y * b.x + a.y * a.y * b.x * b.x;
    assert Dot(a, b) * Dot(a, b)
        == a.x * a.x * b.x * b.x + a.y * a.y * b.y * b.y + a.z * a.z * b.z * b.z
         + 2.0 * a.x * b.x * a.y * b.y + 2.0 * a.x * b.x * a.z * b.z + 2.0 * a.y * b.y * a.z * b.z;
    assert Dot(a, a) * Dot(b, b)
        == a.x * a.x * b.x * b.x + a.x * a.x * b.y * b.y + a.x * a.x * b.z * b.z
         + a.y * a.y * b.x * b.x + a.y * a.y * b.y * b.y + a.y * a.y * b.z * b.z
         + a.z * a.z * b.x * b.x + a.z * a.z * b.y * b.y + a.z * a.z * b.z * b.z;
  }

  // ---------------------------------------------------------------- square roots

  /**
   * `f` is the non-negative square root on the non-negative reals. Members that take a
   * square root receive it as a parameter constrained by this predicate, so nothing about
   * `Math.sqrt` is assumed beyond its defining equation.
   */
  ghost predicate IsSqrt(f: real -> real) {
    forall x: real :: x >= 0.0 ==> f(x) >= 0.0 && f(x) * f(x) == x
  }

  /** Euclidean length, `Vector3d.len()`. */
  function Len(sqrt: real -> real, a: V3): (r: real)
    requires IsSqrt(sqrt)
    ensures r >= 0.0
    ensures a != Zero() ==> r > 0.0
  {
    DotSelfNonNegative(a);
    SqrtAt(sqrt, Dot(a, a));
    sqrt(Dot(a, a))
  }

  /** The length squared is the dot product of a vector with itself. */
  lemma LenSquared(sqrt: real -> real, a: V3)
    requires IsSqrt(sqrt)
    ensures Len(sqrt, a) * Len(sqrt, a) == Dot(a, a)
  {
    DotSelfNonNegative(a);
    SqrtSquared(sqrt, Dot(a, a));
  }

  lemma SqrtSquared(sqrt: real -> real, d: real)
    requires IsSqrt(sqrt)
    requires d >= 0.0
    ensures sqrt(d) * sqrt(d) == d
  {
    SqrtAt(sqrt, d);
  }

  /** What IsSqrt promises at one point; a positive argument has a positive root. */
  lemma SqrtAt(sqrt: real -> real, x: real)
    requires IsSqrt(sqrt)
    requires x >= 0.0
    ensures sqrt(x) >= 0.0 && sqrt(x) * sqrt(x) == x
    ensures x > 0.0 ==> sqrt(x) > 0.0
  {
  }

  /** The unit vector along a non-zero vector, `Vector3d.normalize()`. */
  function Normalize(sqrt: real -> real, a: V3): (r: V3)
    requires IsSqrt(sqrt)
    requires a != Zero()
    ensures Dot(r, r) == 1.0
    ensures SameDirection(r, a)
  {
    var l := Len(sqrt, a);
    LenSquared(sqrt, a);
    UnitScale(a, l);
    Scale(1.0 / l, a)
  }

  /**
   * `normalize()` as the shaders and surfaces call it on vectors that may be zero. Java
   * turns a zero vector into NaNs; the model leaves it zero, and nothing else differs.
   */
  function Unit(sqrt: real -> real, a: V3): (r: V3)
    ensures IsSqrt(sqrt) && a != Zero() ==> r == Normalize(sqrt, a)
    ensures IsSqrt(sqrt) && a != Zero() ==> Dot(r, r) == 1.0 && SameDirection(r, a)
    ensures a == Zero() ==> r == Zero()
  {
    if a == Zero() || sqrt(Dot(a, a)) == 0.0 then Zero()
    else
      NormalizeIs(sqrt, a);
      Scale(1.0 / sqrt(Dot(a, a)), a)
  }

  lemma NormalizeIs(sqrt: real -> real, a: V3)
    ensures IsSqrt(sqrt) && a != Zero() ==>
      sqrt(Dot(a, a)) != 0.0 && Normalize(sqrt, a) == Scale(1.0 / sqrt(Dot(a, a)), a)
  {
    if IsSqrt(sqrt) && a != Zero() {
      assert Len(sqrt, a) > 0.0;
    }
  }

  /** Two vectors point the same way: one is a positive multiple of the other. */
  ghost predicate SameDirection(a: V3, b: V3) {
    exists k: real :: k > 0.0 && a == Scale(k, b)
  }

  /** Scaling a vector by the reciprocal of its length gives a unit vector. */
  lemma UnitScale(a: V3, l: real)
    requires l > 0.0 && l * l == Dot(a, a)
    ensures Dot(Scale(1.0 / l, a), Scale(1.0 / l, a)) == 1.0
    ensures SameDirection(Scale(1.0 / l, a), a)
  {
    var k := 1.0 / l;
    assert k * l == 1.0;
    calc {
      Dot(Scale(k, a), Scale(k, a));
      (k * a.x) * (k * a.x) + (k * a.y) * (k * a.y) + (k * a.z) * (k * a.z);
      (k * k) * Dot(a, a);
      (k * k) * (l * l);
      (k * l) * (k * l);
      1.0;
    }
    assert k > 0.0;
  }

  // ---------------------------------------------------------------- affine maps

  /** An affine map x |-> L x + t, where L has rows r0, r1, r2. */
  datatype Affine = Affine(r0: V3, r1: V3, r2: V3, t: V3)

  /** `Matrix4d.mulPos`: transform a point (translation applies). */
  function MulPos(m: Affine, p: V3): V3 {
    V3(Dot(m.r0, p) + m.t.x, Dot(m.r1, p) + m.t.y, Dot(m.r2, p) + m.t.z)
  }

  /** `Matrix4d.mulDir`: transform a direction (translation ignored). */
  function MulDir(m: Affine, d: V3): V3 {
    V3(Dot(m.r0, d), Dot(m.r1, d), Dot(m.r2, d))
  }

  function Identity(): Affine {
    Affine(V3(1.0, 0.0, 0.0), V3(0.0, 1.0, 0.0), V3(0.0, 0.0, 1.0), Zero())
  }

  function Translation(v: V3): Affine {
    Affine(V3(1.0, 0.0, 0.0), V3(0.0, 1.0, 0.0), V3(0.0, 0.0, 1.0), v)
  }

  function Scaling(s: V3): Affine {
    Affine(V3(s.x, 0.0, 0.0), V3(0.0, s.y, 0.0), V3(0.0, 0.0, s.z), Zero())
  }

  /** Column k of the linear part. */
  function Col(m: Affine, k: Axis): V3 {
    V3(Get(m.r0, k), Get(m.r1, k), Get(m.r2, k))
  }

  /**
   * `m.mulAfter(p)`: the transform that applies `m` first and then `p`, which is how a
   * group composes its own transform with its parent's.
   */
  function MulAfter(m: Affine, p: Affine): (r: Affine)
    ensures forall x :: MulPos(r, x) == MulPos(p, MulPos(m, x))
    ensures forall d :: MulDir(r, d) == MulDir(p, MulDir(m, d))
  {
    ComposeAppliesAll(m, p);
    Compose(m, p)
  }

  lemma ComposeAppliesAll(m: Affine, p: Affine)
    ensures forall x :: MulPos(Compose(m, p), x) == MulPos(p, MulPos(m, x))
    ensures forall d :: MulDir(Compose(m, p), d) == MulDir(p, MulDir(m, d))
  {
    forall x ensures MulPos(Compose(m, p), x) == MulPos(p, MulPos(m, x))
      && MulDir(Compose(m, p), x) == MulDir(p, MulDir(m, x)) {
      ComposeApplies(m, p, x);
    }
  }

  /** The matrix product p * m of the linear parts, with the translation carried through p. */
  function Compose(m: Affine, p: Affine): Affine {
    var c0 := Col(m, AxisX);
    var c1 := Col(m, AxisY);
    var c2 := Col(m, AxisZ);
    Affine(V3(Dot(p.r0, c0), Dot(p.r0, c1), Dot(p.r0, c2)),
           V3(Dot(p.r1, c0), Dot(p.r1, c1), Dot(p.r1, c2)),
           V3(Dot(p.r2, c0), Dot(p.r2, c1), Dot(p.r2, c2)),
           MulPos(p, m.t))
  }

  /** One row of the product: Dot(row, M x) is Dot(row * M, x). */
  lemma RowTimes(row: V3, m: Affine, x: V3)
    ensures Dot(row, MulDir(m, x))
         == Dot(V3(Dot(row, Col(m, AxisX)), Dot(row, Col(m, AxisY)), Dot(row, Col(m, AxisZ))), x)
  {
    var a, b, c := row.x, row.y, row.z;
    assert a * Dot(m.r0, x) == a * m.r0.x * x.x + a * m.r0.y * x.y + a * m.r0.z * x.z;
    assert b * Dot(m.r1, x) == b * m.r1.x * x.x + b * m.r1.y * x.y + b * m.r1.z * x.z;
    assert c * Dot(m.r2, x) == c * m.r2.x * x.x + c * m.r2.y * x.y + c * m.r2.z * x.z;
    assert Dot(row, Col(m, AxisX)) * x.x == a * m.r0.x * x.x + b * m.r1.x * x.x + c * m.r2.x * x.x;
    assert Dot(row, Col(m, AxisY)) * x.y == a * m.r0.y * x.y + b * m.r1.y * x.y + c * m.r2.y * x.y;
    assert Dot(row, Col(m, AxisZ)) * x.z == a * m.r0.z * x.z + b * m.r1.z * x.z + c * m.r2.z * x.z;
  }

  lemma ComposeApplies(m: Affine, p: Affine, x: V3)
    ensures MulPos(Compose(m, p), x) == MulPos(p, MulPos(m, x))
    ensures MulDir(Compose(m, p), x) == MulDir(p, MulDir(m, x))
  {
    RowTimes(p.r0, m, x);
    RowTimes(p.r1, m, x);
    RowTimes(p.r2, m, x);
    var mx := MulPos(m, x);
    assert mx == Add(MulDir(m, x), m.t);
    assert Dot(p.r0, mx) == Dot(p.r0, MulDir(m, x)) + Dot(p.r0, m.t);
    assert Dot(p.r1, mx) == Dot(p.r1, MulDir(m, x)) + Dot(p.r1, m.t);
    assert Dot(p.r2, mx) == Dot(p.r2, MulDir(m, x)) + Dot(p.r2, m.t);
  }

  lemma IdentityFixes(x: V3)
    ensures MulPos(Identity(), x) == x && MulDir(Identity(), x) == x
  {
  }

  // ---------------------------------------------------------------- rays

  /** An extended real bound: a finite value or positive infinity. */
  datatype Ext = Fin(v: real) | PosInf

  /** `x < e` for a real and an extended bound. */
  predicate Below(x: real, e: Ext) {
    e.PosInf? || x < e.v
  }

  /** `x <= e` for a real and an extended bound. */
  predicate AtMost(x: real, e: Ext) {
    e.PosInf? || x <= e.v
  }

  /** A ray with its parameter segment [start, end]. */
  datatype Ray = Ray(origin: V3, direction: V3, start: real, end: Ext)

  /** `Ray.evaluate(t)`: the point origin + t * direction. */
  function PointAt(r: Ray, t: real): V3 {
    Add(r.origin, Scale(t, r.direction))
  }

  /** The same ray with a shorter end, as the BVH leaf scan does with `tmpRay.end = t`. */
  function WithEnd(r: Ray, e: real): Ray {
    r.(end := Fin(e))
  }
}
