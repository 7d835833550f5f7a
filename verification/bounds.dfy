/**
 * `computeBoundingBox` of the sphere, cylinder, box and triangle: the world-space box is
 * accumulated over the transformed corners of the object-space solid (or the triangle's
 * vertices) by the same min/max loop `Bvh.createTree` uses, and `averagePosition` is the
 * BVH's sort key.
 */
module SurfaceBounds {
  import opened Wrappers
  import opened Geometry
  import Aabb
  import Bvh
  import opened Surfaces

  /** The point box of each transformed point, in order. */
  function Images(m: Affine, pts: seq<V3>): (bs: seq<Aabb.Box>)
    ensures |bs| == |pts|
    ensures forall i :: 0 <= i < |pts| ==> bs[i] == Aabb.PointBox(MulPos(m, pts[i]))
    decreases |pts|
  {
    if |pts| == 0 then [] else Images(m, pts[..|pts| - 1]) + [Aabb.PointBox(MulPos(m, pts[|pts| - 1]))]
  }

  /**
   * The loop `tMat.mulPos(point)` then min/max over the points: the least box holding
   * every transformed point.
   */
  function HullOf(m: Affine, pts: seq<V3>): (b: Aabb.Box)
    requires |pts| > 0
    ensures Aabb.WellFormed(b)
    ensures forall i :: 0 <= i < |pts| ==> Aabb.Inside(b, MulPos(m, pts[i]))
  {
    var bs := Images(m, pts);
    Aabb.RangeBoxWellFormed(bs);
    forall i | 0 <= i < |pts| ensures Aabb.Inside(Aabb.RangeBox(bs), MulPos(m, pts[i])) {
      Aabb.RangeBoxContainsEach(bs, i);
    }
    Aabb.RangeBox(bs)
  }

  /** No smaller box holds all the transformed points. */
  lemma HullLeast(m: Affine, pts: seq<V3>, outer: Aabb.Box)
    requires |pts| > 0
    requires forall i :: 0 <= i < |pts| ==> Aabb.Inside(outer, MulPos(m, pts[i]))
    ensures Aabb.Contains(outer, HullOf(m, pts))
  {
    Aabb.RangeBoxLeast(Images(m, pts), outer);
  }

  /** The corner of [lo, hi] that takes the upper bound on the axes flagged true. */
  function Corner(ux: bool, uy: bool, uz: bool, lo: V3, hi: V3): V3 {
    V3(if ux then hi.x else lo.x, if uy then hi.y else lo.y, if uz then hi.z else lo.z)
  }

  /** The point list holds all eight corners of [lo, hi]. */
  ghost predicate HasCorners(pts: seq<V3>, lo: V3, hi: V3) {
    forall ux: bool, uy: bool, uz: bool :: Corner(ux, uy, uz, lo, hi) in pts
  }

  /** `Sphere.computeBoundingBox`'s points: the corners of the cube center +- radius. */
  function SpherePoints(c: V3, r: real): seq<V3> {
    [Add(c, V3(r, r, r)), Add(c, V3(-r, -r, -r)), Add(c, V3(-r, r, r)), Add(c, V3(r, -r, r)),
     Add(c, V3(r, r, -r)), Add(c, V3(-r, -r, r)), Add(c, V3(-r, r, -r)), Add(c, V3(r, -r, -r))]
  }

  /** `Cylinder.computeBoundingBox`'s points: center +- (radius, radius, height / 2). */
  function CylinderPoints(c: V3, r: real, h: real): seq<V3> {
    [Add(c, V3(r, r, h / 2.0)), Add(c, V3(-r, r, h / 2.0)), Add(c, V3(r, -r, h / 2.0)),
     Add(c, V3(-r, -r, h / 2.0)), Add(c, V3(r, r, -h / 2.0)), Add(c, V3(-r, r, -h / 2.0)),
     Add(c, V3(r, -r, -h / 2.0)), Add(c, V3(-r, -r, -h / 2.0))]
  }

  /** `Box.computeBoundingBox`'s points: the eight corners of [minPt, maxPt]. */
  function BoxPoints(lo: V3, hi: V3): seq<V3> {
    [lo, hi, V3(lo.x, lo.y, hi.z), V3(lo.x, hi.y, lo.z), V3(hi.x, lo.y, lo.z),
     V3(hi.x, hi.y, lo.z), V3(hi.x, lo.y, hi.z), V3(lo.x, hi.y, hi.z)]
  }

  /** The triangle's three vertices in object space. */
  function TrianglePoints(mesh: ObjMesh, f: ObjFace): seq<V3>
    requires FaceInRange(mesh, f)
  {
    [mesh.positions[f.pos.c0], mesh.positions[f.pos.c1], mesh.positions[f.pos.c2]]
  }

  function Abs(r: real): (a: real)
    ensures a >= 0.0 && (a == r || a == -r)
  {
    if r < 0.0 then -r else r
  }

  /** The cube center +- |radius|, whose corners the sphere's points are. */
  lemma SpherePointsAreCorners(c: V3, r: real)
    ensures HasCorners(SpherePoints(c, r), Sub(c, V3(Abs(r), Abs(r), Abs(r))), Add(c, V3(Abs(r), Abs(r), Abs(r))))
  {
    var lo, hi := Sub(c, V3(Abs(r), Abs(r), Abs(r))), Add(c, V3(Abs(r), Abs(r), Abs(r)));
    var pts := SpherePoints(c, r);
    forall ux: bool, uy: bool, uz: bool ensures Corner(ux, uy, uz, lo, hi) in pts {
      var s := V3(if ux == (r >= 0.0) then r else -r, if uy == (r >= 0.0) then r else -r,
                  if uz == (r >= 0.0) then r else -r);
      assert Corner(ux, uy, uz, lo, hi) == Add(c, s);
    }
  }

  lemma CylinderPointsAreCorners(c: V3, r: real, h: real)
    ensures var e := V3(Abs(r), Abs(r), Abs(h / 2.0));
      HasCorners(CylinderPoints(c, r, h), Sub(c, e), Add(c, e))
  {
    var e := V3(Abs(r), Abs(r), Abs(h / 2.0));
    var lo, hi := Sub(c, e), Add(c, e);
    var pts := CylinderPoints(c, r, h);
    forall ux: bool, uy: bool, uz: bool ensures Corner(ux, uy, uz, lo, hi) in pts {
      var s := V3(if ux == (r >= 0.0) then r else -r, if uy == (r >= 0.0) then r else -r,
                  if uz == (h >= 0.0) then h / 2.0 else -h / 2.0);
      assert Corner(ux, uy, uz, lo, hi) == Add(c, s);
    }
  }

  lemma BoxPointsAreCorners(lo: V3, hi: V3)
    ensures HasCorners(BoxPoints(lo, hi), lo, hi)
  {
  }

  /**
   * `computeBoundingBox`: the world-space box of a sphere, cylinder, box or triangle.
   * A group or a mesh leaves its bounds null; so does a triangle whose face indexes
   * past its mesh, where Java throws.
   */
  function Bounds(s: Surface): (b: Option<Aabb.Box>)
    ensures b.Some? <==> (Renderable(s) || s.Box?) && (s.Triangle? ==> FaceInRange(s.owner, s.face))
  {
    match s
    case Sphere(c, r, _, xf) => Some(HullOf(xf.m, SpherePoints(c, r)))
    case Cylinder(c, r, h, _, xf) => Some(HullOf(xf.m, CylinderPoints(c, r, h)))
    case Box(lo, hi, _, xf) => Some(HullOf(xf.m, BoxPoints(lo, hi)))
    case Triangle(mesh, f, _, xf) =>
      if FaceInRange(mesh, f) then Some(HullOf(xf.m, TrianglePoints(mesh, f))) else None
    case _ => None
  }

  /**
   * `averagePosition`: the transformed center, the box's midpoint, or the vertices' mean.
   * It exists exactly when the bounds do, and lies inside them, so the key the BVH sorts
   * a surface by places it within its own box.
   */
  function Average(s: Surface): (a: Option<V3>)
    ensures a.Some? <==> Bounds(s).Some?
    ensures a.Some? ==> Aabb.Inside(Bounds(s).value, a.value)
  {
    match s
    case Sphere(c, r, _, xf) =>
      SquareNonNegative(r);
      SphereBoundsEnclose(s, c);
      Some(MulPos(xf.m, c))
    case Cylinder(c, r, _, _, xf) =>
      SquareNonNegative(r);
      CylinderBoundsEnclose(s, c);
      Some(MulPos(xf.m, c))
    case Box(lo, hi, _, xf) =>
      var b := HullOf(xf.m, BoxPoints(lo, hi));
      MidpointInside(b);
      Some(Scale(1.0 / 2.0, Add(b.lo, b.hi)))
    case Triangle(mesh, f, _, xf) =>
      if FaceInRange(mesh, f) then
        var p := TrianglePoints(mesh, f);
        TriangleBoundsEnclose(s, 1.0 / 3.0, 1.0 / 3.0);
        AffineCombination(xf.m, p[0], p[1], p[2], 1.0 / 3.0, 1.0 / 3.0);
        ThirdOfSum(MulPos(xf.m, p[0]), MulPos(xf.m, p[1]), MulPos(xf.m, p[2]));
        Some(Scale(1.0 / 3.0, Add(Add(MulPos(xf.m, p[0]), MulPos(xf.m, p[1])), MulPos(xf.m, p[2]))))
      else None
    case _ => None
  }

  /** The midpoint of a well-formed box lies in it. */
  lemma MidpointInside(b: Aabb.Box)
    requires Aabb.WellFormed(b)
    ensures Aabb.Inside(b, Scale(1.0 / 2.0, Add(b.lo, b.hi)))
  {
  }

  /** The centroid is the combination of the corners with weights a third each. */
  lemma ThirdOfSum(a: V3, b: V3, c: V3)
    ensures Add(Add(Scale(1.0 - 1.0 / 3.0 - 1.0 / 3.0, a), Scale(1.0 / 3.0, b)), Scale(1.0 / 3.0, c))
         == Scale(1.0 / 3.0, Add(Add(a, b), c))
  {
  }

  /** The BVH's entry for a surface: the surface with its box and sort key. */
  function ItemOf(s: Surface): (it: Bvh.Item<Surface>)
    requires Bounds(s).Some?
    ensures it.surf == s && Aabb.WellFormed(it.box)
  {
    Bvh.Item(s, Bounds(s).value, Average(s).value)
  }

  // ---------------------------------------------------------------- enclosure

  lemma ProductSign(u: real, v: real)
    ensures u >= 0.0 && v >= 0.0 ==> u * v >= 0.0
  {
  }

  lemma Distrib(a: real, x: real, y: real)
    ensures a * (x - y) == a * x - a * y
    ensures (-a) * (x - y) == a * y - a * x
  {
  }

  /** a * x lies between a * lo and a * hi, in the order the sign of a gives. */
  lemma ScaleBetween(a: real, lo: real, x: real, hi: real)
    requires lo <= x <= hi
    ensures a >= 0.0 ==> a * lo <= a * x <= a * hi
    ensures a < 0.0 ==> a * hi <= a * x <= a * lo
  {
    ProductSign(a, x - lo);
    ProductSign(a, hi - x);
    ProductSign(-a, x - lo);
    ProductSign(-a, hi - x);
    Distrib(a, x, lo);
    Distrib(a, hi, x);
  }

  lemma SumLe(a: real, b: real, c: real, d: real, e: real, f: real)
    ensures a <= d && b <= e && c <= f ==> a + b + c <= d + e + f
  {
  }

  /** Over the box, the row a . p is least at the corner opposite a's signs. */
  lemma RowLow(a: V3, lo: V3, p: V3, hi: V3) returns (cl: V3)
    requires Aabb.Inside(Aabb.Box(lo, hi), p)
    ensures cl == Corner(a.x < 0.0, a.y < 0.0, a.z < 0.0, lo, hi)
    ensures Dot(a, cl) <= Dot(a, p)
  {
    cl := Corner(a.x < 0.0, a.y < 0.0, a.z < 0.0, lo, hi);
    LowEnd(a.x, cl.x, lo.x, p.x, hi.x);
    LowEnd(a.y, cl.y, lo.y, p.y, hi.y);
    LowEnd(a.z, cl.z, lo.z, p.z, hi.z);
    DotLe(a, cl, p);
  }

  /** a * x is least over [lo, hi] at hi when a is negative and at lo otherwise. */
  lemma LowEnd(a: real, c: real, lo: real, x: real, hi: real)
    requires lo <= x <= hi && c == (if a < 0.0 then hi else lo)
    ensures a * c <= a * x
  {
    ScaleBetween(a, lo, x, hi);
  }

  lemma DotLe(a: V3, c: V3, p: V3)
    requires a.x * c.x <= a.x * p.x && a.y * c.y <= a.y * p.y && a.z * c.z <= a.z * p.z
    ensures Dot(a, c) <= Dot(a, p)
  {
  }

  /** ... and greatest at the corner a's signs pick. */
  lemma RowHigh(a: V3, lo: V3, p: V3, hi: V3) returns (ch: V3)
    requires Aabb.Inside(Aabb.Box(lo, hi), p)
    ensures ch == Corner(a.x > 0.0, a.y > 0.0, a.z > 0.0, lo, hi)
    ensures Dot(a, p) <= Dot(a, ch)
  {
    ch := RowLow(Neg(a), lo, p, hi);
    DotNeg(p, a);
    DotNeg(ch, a);
    assert Dot(Neg(a), p) == -Dot(a, p) && Dot(Neg(a), ch) == -Dot(a, ch);
  }

  /**
   * Transforming only the corners is enough: the image of every point of the object-space
   * box lies in the hull of the corners' images, whatever the affine map.
   */
  lemma CornerHullEncloses(m: Affine, pts: seq<V3>, lo: V3, hi: V3, p: V3)
    requires |pts| > 0 && HasCorners(pts, lo, hi)
    requires Aabb.Inside(Aabb.Box(lo, hi), p)
    ensures Aabb.Inside(HullOf(m, pts), MulPos(m, p))
  {
    var b := HullOf(m, pts);
    var q := MulPos(m, p);
    assert b.lo.x <= q.x <= b.hi.x by {
      var cl := RowLow(m.r0, lo, p, hi);
      var ch := RowHigh(m.r0, lo, p, hi);
      CornerInside(m, pts, cl);
      CornerInside(m, pts, ch);
    }
    assert b.lo.y <= q.y <= b.hi.y by {
      var cl := RowLow(m.r1, lo, p, hi);
      var ch := RowHigh(m.r1, lo, p, hi);
      CornerInside(m, pts, cl);
      CornerInside(m, pts, ch);
    }
    assert b.lo.z <= q.z <= b.hi.z by {
      var cl := RowLow(m.r2, lo, p, hi);
      var ch := RowHigh(m.r2, lo, p, hi);
      CornerInside(m, pts, cl);
      CornerInside(m, pts, ch);
    }
  }

  lemma CornerInside(m: Affine, pts: seq<V3>, q: V3)
    requires |pts| > 0 && q in pts
    ensures Aabb.Inside(HullOf(m, pts), MulPos(m, q))
  {
    var i :| 0 <= i < |pts| && pts[i] == q;
  }

  /** Every point of a box surface's solid maps into its bounds. */
  lemma BoxBoundsEnclose(b: Surface, p: V3)
    requires b.Box? && Aabb.Inside(Aabb.Box(b.minPt, b.maxPt), p)
    ensures Aabb.Inside(Bounds(b).value, MulPos(b.xf.m, p))
  {
    BoxPointsAreCorners(b.minPt, b.maxPt);
    CornerHullEncloses(b.xf.m, BoxPoints(b.minPt, b.maxPt), b.minPt, b.maxPt, p);
  }

  /** A square at most r * r bounds its root by |r|. */
  lemma SquareBound(x: real, r: real)
    requires x * x <= r * r
    ensures -Abs(r) <= x <= Abs(r)
  {
    var a := Abs(r);
    assert a * a == r * r;
    SquareBoundAt(x, a);
  }

  lemma SquareBoundAt(x: real, a: real)
    requires a >= 0.0 && x * x <= a * a
    ensures -a <= x <= a
  {
    if x > a {
      PositiveProduct(x - a, x + a);
      assert false;
    } else if x < -a {
      PositiveProduct(-x - a, -x + a);
      assert false;
    }
  }

  lemma PositiveProduct(u: real, v: real)
    requires u > 0.0 && v > 0.0
    ensures u * v > 0.0
  {
  }

  /** Every point of the solid sphere maps into the sphere's bounds. */
  lemma SphereBoundsEnclose(s: Surface, p: V3)
    requires s.Sphere?
    requires Dot(Sub(p, s.center), Sub(p, s.center)) <= s.radius * s.radius
    ensures Aabb.Inside(Bounds(s).value, MulPos(s.xf.m, p))
  {
    var q := Sub(p, s.center);
    SquareNonNegative(q.x);
    SquareNonNegative(q.y);
    SquareNonNegative(q.z);
    SquareBound(q.x, s.radius);
    SquareBound(q.y, s.radius);
    SquareBound(q.z, s.radius);
    SpherePointsAreCorners(s.center, s.radius);
    var e := Abs(s.radius);
    CornerHullEncloses(s.xf.m, SpherePoints(s.center, s.radius),
      Sub(s.center, V3(e, e, e)), Add(s.center, V3(e, e, e)), p);
  }

  /** Every point of the solid cylinder maps into the cylinder's bounds. */
  lemma CylinderBoundsEnclose(s: Surface, p: V3)
    requires s.Cylinder?
    requires (p.x - s.center.x) * (p.x - s.center.x) + (p.y - s.center.y) * (p.y - s.center.y)
             <= s.radius * s.radius
    requires s.center.z - Abs(s.height / 2.0) <= p.z <= s.center.z + Abs(s.height / 2.0)
    ensures Aabb.Inside(Bounds(s).value, MulPos(s.xf.m, p))
  {
    var q := Sub(p, s.center);
    SquareNonNegative(q.x);
    SquareNonNegative(q.y);
    SquareBound(q.x, s.radius);
    SquareBound(q.y, s.radius);
    CylinderPointsAreCorners(s.center, s.radius, s.height);
    var e := V3(Abs(s.radius), Abs(s.radius), Abs(s.height / 2.0));
    CornerHullEncloses(s.xf.m, CylinderPoints(s.center, s.radius, s.height), Sub(s.center, e), Add(s.center, e), p);
  }

  /**
   * The affine image of a convex combination of three points is the same combination of
   * their images.
   */
  lemma AffineCombination(m: Affine, a: V3, b: V3, c: V3, beta: real, gamma: real)
    ensures MulPos(m, Add(Add(Scale(1.0 - beta - gamma, a), Scale(beta, b)), Scale(gamma, c)))
         == Add(Add(Scale(1.0 - beta - gamma, MulPos(m, a)), Scale(beta, MulPos(m, b))), Scale(gamma, MulPos(m, c)))
  {
    var w := 1.0 - beta - gamma;
    var q := Add(Add(Scale(w, a), Scale(beta, b)), Scale(gamma, c));
    var ma, mb, mc := MulPos(m, a), MulPos(m, b), MulPos(m, c);
    var rhs := Add(Add(Scale(w, ma), Scale(beta, mb)), Scale(gamma, mc));
    ImageX(m, a, b, c, w, beta, gamma);
    ImageY(m, a, b, c, w, beta, gamma);
    ImageZ(m, a, b, c, w, beta, gamma);
    CombinationComponents(w, beta, gamma, ma, mb, mc);
    SameComponents(MulPos(m, q), rhs);
  }

  lemma ImageX(m: Affine, a: V3, b: V3, c: V3, w: real, beta: real, gamma: real)
    requires w == 1.0 - beta - gamma
    ensures MulPos(m, Add(Add(Scale(w, a), Scale(beta, b)), Scale(gamma, c))).x
         == w * MulPos(m, a).x + beta * MulPos(m, b).x + gamma * MulPos(m, c).x
  {
    RowCombination(m.r0, m.t.x, a, b, c, w, beta, gamma, MulPos(m, a).x, MulPos(m, b).x, MulPos(m, c).x);
  }

  lemma ImageY(m: Affine, a: V3, b: V3, c: V3, w: real, beta: real, gamma: real)
    requires w == 1.0 - beta - gamma
    ensures MulPos(m, Add(Add(Scale(w, a), Scale(beta, b)), Scale(gamma, c))).y
         == w * MulPos(m, a).y + beta * MulPos(m, b).y + gamma * MulPos(m, c).y
  {
    RowCombination(m.r1, m.t.y, a, b, c, w, beta, gamma, MulPos(m, a).y, MulPos(m, b).y, MulPos(m, c).y);
  }

  lemma ImageZ(m: Affine, a: V3, b: V3, c: V3, w: real, beta: real, gamma: real)
    requires w == 1.0 - beta - gamma
    ensures MulPos(m, Add(Add(Scale(w, a), Scale(beta, b)), Scale(gamma, c))).z
         == w * MulPos(m, a).z + beta * MulPos(m, b).z + gamma * MulPos(m, c).z
  {
    RowCombination(m.r2, m.t.z, a, b, c, w, beta, gamma, MulPos(m, a).z, MulPos(m, b).z, MulPos(m, c).z);
  }

  /** One row of the affine map, applied to the combination, gives the combination of its values pa, pb, pc. */
  lemma RowCombination(r: V3, t: real, a: V3, b: V3, c: V3, w: real, beta: real, gamma: real,
                       pa: real, pb: real, pc: real)
    requires w == 1.0 - beta - gamma
    requires pa == Dot(r, a) + t && pb == Dot(r, b) + t && pc == Dot(r, c) + t
    ensures Dot(r, Add(Add(Scale(w, a), Scale(beta, b)), Scale(gamma, c))) + t
         == w * pa + beta * pb + gamma * pc
  {
    DotScale(w, a, r);
    DotScale(beta, b, r);
    DotScale(gamma, c, r);
    assert w * t + beta * t + gamma * t == (w + beta + gamma) * t;
    assert w * pa == w * Dot(r, a) + w * t;
    assert beta * pb == beta * Dot(r, b) + beta * t;
    assert gamma * pc == gamma * Dot(r, c) + gamma * t;
  }

  lemma CombinationComponents(w: real, beta: real, gamma: real, a: V3, b: V3, c: V3)
    ensures Add(Add(Scale(w, a), Scale(beta, b)), Scale(gamma, c))
         == V3(w * a.x + beta * b.x + gamma * c.x, w * a.y + beta * b.y + gamma * c.y, w * a.z + beta * b.z + gamma * c.z)
  {
  }

  lemma SameComponents(a: V3, b: V3)
    requires a.x == b.x && a.y == b.y && a.z == b.z
    ensures a == b
  {
  }

  /** Weights summing to one leave a constant unchanged. */
  lemma WeightsSumToOne(w: real, beta: real, gamma: real, v: real)
    requires w + beta + gamma == 1.0
    ensures w * v + beta * v + gamma * v == v
  {
    assert w * v + beta * v + gamma * v == (w + beta + gamma) * v;
  }

  /** A convex combination of three numbers in [lo, hi] stays in [lo, hi]. */
  lemma ConvexBetween(lo: real, hi: real, x: real, y: real, z: real, w: real, beta: real, gamma: real)
    requires lo <= x <= hi && lo <= y <= hi && lo <= z <= hi
    requires w >= 0.0 && beta >= 0.0 && gamma >= 0.0 && w + beta + gamma == 1.0
    ensures lo <= w * x + beta * y + gamma * z <= hi
  {
    ScaleBetween(w, lo, x, hi);
    ScaleBetween(beta, lo, y, hi);
    ScaleBetween(gamma, lo, z, hi);
    SumLe(w * lo, beta * lo, gamma * lo, w * x, beta * y, gamma * z);
    SumLe(w * x, beta * y, gamma * z, w * hi, beta * hi, gamma * hi);
    WeightsSumToOne(w, beta, gamma, lo);
    WeightsSumToOne(w, beta, gamma, hi);
  }

  /**
   * Every point of the triangle maps into the triangle's bounds: the transformed point is
   * the same convex combination of the transformed vertices.
   */
  lemma TriangleBoundsEnclose(s: Surface, beta: real, gamma: real)
    requires s.Triangle? && FaceInRange(s.owner, s.face)
    requires beta >= 0.0 && gamma >= 0.0 && beta + gamma <= 1.0
    ensures var v := TrianglePoints(s.owner, s.face);
      Aabb.Inside(Bounds(s).value,
        MulPos(s.xf.m, Add(Add(Scale(1.0 - beta - gamma, v[0]), Scale(beta, v[1])), Scale(gamma, v[2]))))
  {
    var v := TrianglePoints(s.owner, s.face);
    var m := s.xf.m;
    AffineCombination(m, v[0], v[1], v[2], beta, gamma);
    InsideCombination(Bounds(s).value, MulPos(m, v[0]), MulPos(m, v[1]), MulPos(m, v[2]), 1.0 - beta - gamma, beta, gamma);
  }

  /** A box holding three points holds every convex combination of them. */
  lemma InsideCombination(box: Aabb.Box, a: V3, b: V3, c: V3, w: real, beta: real, gamma: real)
    requires Aabb.Inside(box, a) && Aabb.Inside(box, b) && Aabb.Inside(box, c)
    requires w >= 0.0 && beta >= 0.0 && gamma >= 0.0 && w + beta + gamma == 1.0
    ensures Aabb.Inside(box, Add(Add(Scale(w, a), Scale(beta, b)), Scale(gamma, c)))
  {
    var p := Add(Add(Scale(w, a), Scale(beta, b)), Scale(gamma, c));
    CombinationComponents(w, beta, gamma, a, b, c);
    ComponentBetween(box.lo.x, box.hi.x, a.x, b.x, c.x, w, beta, gamma, p.x);
    ComponentBetween(box.lo.y, box.hi.y, a.y, b.y, c.y, w, beta, gamma, p.y);
    ComponentBetween(box.lo.z, box.hi.z, a.z, b.z, c.z, w, beta, gamma, p.z);
  }

  /** `ConvexBetween` for a component v that is the combination. */
  lemma ComponentBetween(lo: real, hi: real, x: real, y: real, z: real, w: real, beta: real, gamma: real, v: real)
    requires lo <= x <= hi && lo <= y <= hi && lo <= z <= hi
    requires w >= 0.0 && beta >= 0.0 && gamma >= 0.0 && w + beta + gamma == 1.0
    requires v == w * x + beta * y + gamma * z
    ensures lo <= v <= hi
  {
    ConvexBetween(lo, hi, x, y, z, w, beta, gamma);
  }

  // ---------------------------------------------------------------- exact triangle bounds

  /** A triangle's box is the componentwise minimum and maximum of its three transformed vertices. */
  lemma TriangleBoundsCorners(mesh: ObjMesh, f: ObjFace, sh: Shaders.Shader, xf: Xform)
    requires FaceInRange(mesh, f)
    ensures var p := TrianglePoints(mesh, f);
      var a, b, c := MulPos(xf.m, p[0]), MulPos(xf.m, p[1]), MulPos(xf.m, p[2]);
      Bounds(Triangle(mesh, f, sh, xf)) == Some(Aabb.Box(MinV(MinV(a, b), c), MaxV(MaxV(a, b), c)))
  {
    var p := TrianglePoints(mesh, f);
    var box := Aabb.Box(MinV(MinV(MulPos(xf.m, p[0]), MulPos(xf.m, p[1])), MulPos(xf.m, p[2])),
                        MaxV(MaxV(MulPos(xf.m, p[0]), MulPos(xf.m, p[1])), MulPos(xf.m, p[2])));
    HullLeast(xf.m, p, box);
    var h := HullOf(xf.m, p);
    assert Aabb.Inside(h, MulPos(xf.m, p[0]));
    assert Aabb.Inside(h, MulPos(xf.m, p[1]));
    assert Aabb.Inside(h, MulPos(xf.m, p[2]));
  }
}
