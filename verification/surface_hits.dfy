/**
 * `Surface.intersect` dispatched over the kinds of surface: the ray is taken into the
 * surface's object space and handed to the sphere, the cylinder or the triangle. Box,
 * Mesh and Group report no hit of their own (a box is rendered through its triangles and
 * a group through its flattened members).
 *
 * The module proves what the BVH needs of this hit function: a hit lies inside the
 * surface's bounding box, and a shorter window keeps the hit found before its end.
 */
module SurfaceHits {
  import opened Wrappers
  import opened Geometry
  import opened Shaders
  import opened Surfaces
  import opened Intersections
  import opened CylinderHits
  import Aabb
  import Bvh
  import BvhTraversal
  import SurfaceBounds

  /** The object-space point p lies on the surface s. */
  ghost predicate OnSurface(s: Surface, p: V3) {
    match s
    case Sphere(c, r, _, _) => OnSphere(c, r, p)
    case Cylinder(c, r, h, _, _) => OnCylinder(c, r, h, p)
    case Triangle(mesh, f, _, _) =>
      FaceInRange(mesh, f)
      && var (v0, v1, v2) := Corners3(mesh, f);
         exists beta, gamma :: InTriangle(beta, gamma) && p == Bary(v0, v1, v2, beta, gamma)
    case _ => false
  }

  /** The parameter of the object-space hit of ray o on s, or None. */
  function ObjectHit(sqrt: real -> real, s: Surface, o: Ray): (t: Option<real>)
    requires IsSqrt(sqrt)
    ensures t.Some? ==> o.start <= t.value && AtMost(t.value, o.end)
    ensures t.Some? ==> OnSurface(s, PointAt(o, t.value))
    ensures t.Some? ==> Renderable(s)
  {
    match s
    case Sphere(c, r, _, _) => SphereHit(sqrt, c, r, o)
    case Cylinder(c, r, h, _, _) => HitTime(CylinderHit(sqrt, c, r, h, o))
    case Triangle(mesh, f, _, _) =>
      if !FaceInRange(mesh, f) then None
      else
        var (v0, v1, v2) := Corners3(mesh, f);
        var t := TriangleHit(v0, v1, v2, o);
        TriangleHitWitness(v0, v1, v2, o);
        t
    case _ => None
  }

  lemma TriangleHitWitness(v0: V3, v1: V3, v2: V3, o: Ray)
    ensures TriangleHit(v0, v1, v2, o).Some? ==>
      exists beta, gamma :: InTriangle(beta, gamma)
        && PointAt(o, TriangleHit(v0, v1, v2, o).value) == Bary(v0, v1, v2, beta, gamma)
  {
    if TriangleHit(v0, v1, v2, o).Some? {
      TriangleHitOnTriangle(v0, v1, v2, o);
    }
  }

  /** `s.intersect(record, ray)`: the hit of the world ray r, found in object space. */
  function SurfaceHit(sqrt: real -> real, s: Surface, r: Ray): (t: Option<real>)
    requires IsSqrt(sqrt)
    ensures t.Some? ==> r.start <= t.value && AtMost(t.value, r.end)
  {
    ObjectHit(sqrt, s, Untransform(s.xf, r))
  }

  /** The hit function the BVH is given. */
  function HitFn(sqrt: real -> real): (Surface, Ray) -> Option<real>
    requires IsSqrt(sqrt)
  {
    (s, r) => SurfaceHit(sqrt, s, r)
  }

  /** A point on a surface lands, under the surface's matrix, in the surface's bounds. */
  lemma OnSurfaceInBounds(s: Surface, p: V3)
    requires OnSurface(s, p)
    ensures SurfaceBounds.Bounds(s).Some?
    ensures Aabb.Inside(SurfaceBounds.Bounds(s).value, MulPos(s.xf.m, p))
  {
    match s
    case Sphere(c, r, _, _) =>
      SurfaceBounds.SphereBoundsEnclose(s, p);
    case Cylinder(c, r, h, _, _) =>
      AxisDistExpands(c, p);
      CylinderBetweenCaps(c, r, h, p);
      SurfaceBounds.CylinderBoundsEnclose(s, p);
    case Triangle(mesh, f, _, _) =>
      var (v0, v1, v2) := Corners3(mesh, f);
      var beta, gamma :| InTriangle(beta, gamma) && p == Bary(v0, v1, v2, beta, gamma);
      SurfaceBounds.TriangleBoundsEnclose(s, beta, gamma);
  }

  lemma AxisDistExpands(c: V3, p: V3)
    ensures AxisDist2(c, p) == (p.x - c.x) * (p.x - c.x) + (p.y - c.y) * (p.y - c.y)
  {
  }

  /** A point on the cylinder lies within half the height of the center, along the axis. */
  lemma CylinderBetweenCaps(c: V3, r: real, h: real, p: V3)
    requires OnCylinder(c, r, h, p)
    ensures c.z - SurfaceBounds.Abs(h / 2.0) <= p.z <= c.z + SurfaceBounds.Abs(h / 2.0)
    ensures AxisDist2(c, p) <= r * r
  {
  }

  /** Every hit of a world ray on a surface lies in the surface's bounding box. */
  lemma SurfaceHitInBounds(sqrt: real -> real, s: Surface, r: Ray)
    requires IsSqrt(sqrt) && Inverts(s.xf.m, s.xf.inv)
    requires SurfaceHit(sqrt, s, r).Some?
    ensures SurfaceBounds.Bounds(s).Some?
    ensures Aabb.Inside(SurfaceBounds.Bounds(s).value, PointAt(r, SurfaceHit(sqrt, s, r).value))
  {
    var o := Untransform(s.xf, r);
    var t := SurfaceHit(sqrt, s, r).value;
    OnSurfaceInBounds(s, PointAt(o, t));
    UntransformKeepsParameter(s.xf, r, t);
  }

  /**
   * The BVH entry of a surface whose matrices invert each other is sound for the hit
   * function: its hits lie at or after the ray's start and inside its box.
   */
  lemma ItemSound(sqrt: real -> real, s: Surface)
    requires IsSqrt(sqrt) && Inverts(s.xf.m, s.xf.inv) && SurfaceBounds.Bounds(s).Some?
    ensures BvhTraversal.SoundItem(HitFn(sqrt), SurfaceBounds.ItemOf(s))
  {
    forall r: Ray | HitFn(sqrt)(s, r).Some?
      ensures r.start <= HitFn(sqrt)(s, r).value
      ensures Aabb.Inside(SurfaceBounds.ItemOf(s).box, PointAt(r, HitFn(sqrt)(s, r).value))
    {
      SurfaceHitInBounds(sqrt, s, r);
    }
  }

  /** Before the new end, a shorter window finds the same object-space hit. */
  lemma ObjectHitShorter(sqrt: real -> real, s: Surface, o: Ray, e: Ext)
    requires IsSqrt(sqrt) && BvhTraversal.ExtLe(e, o.end)
    ensures BvhTraversal.Filter(ObjectHit(sqrt, s, o.(end := e)), e)
         == BvhTraversal.Filter(ObjectHit(sqrt, s, o), e)
  {
    match s
    case Sphere(c, r, _, _) =>
      SphereHitShorter(sqrt, c, r, o, e);
    case Cylinder(c, r, h, _, _) =>
      CylinderHitShorter(sqrt, c, r, h, o, e);
    case Triangle(mesh, f, _, _) =>
      if FaceInRange(mesh, f) {
        var (v0, v1, v2) := Corners3(mesh, f);
        TriangleHitShorter(v0, v1, v2, o, e);
      }
    case _ =>
  }

  /** The surfaces' hit function is consistent under shortening, as the BVH requires. */
  lemma HitFnConsistent(sqrt: real -> real)
    requires IsSqrt(sqrt)
    ensures BvhTraversal.Consistent(HitFn(sqrt))
  {
    var hit := HitFn(sqrt);
    forall s: Surface, r: Ray, e: Ext | BvhTraversal.ExtLe(e, r.end)
      ensures BvhTraversal.HitBelow(hit, s, r.(end := e))
           == BvhTraversal.Filter(BvhTraversal.HitBelow(hit, s, r), e)
    {
      var o := Untransform(s.xf, r);
      assert Untransform(s.xf, r.(end := e)) == o.(end := e);
      ObjectHitShorter(sqrt, s, o, e);
    }
  }

  // ---------------------------------------------------------------- records

  /**
   * The record the cylinder fills in: world point, normal through the inverse transpose,
   * normalised, for the corrected hit of `CylinderHits.CylinderHit`. `Cylinder.intersect`
   * never sets texture coordinates, so Java's record keeps whatever the caller's record
   * held; the model writes (0, 0) there.
   */
  function CylinderRecord(sqrt: real -> real, s: Surface, r: Ray): (rec: Option<Record>)
    requires IsSqrt(sqrt) && s.Cylinder?
    ensures rec.Some? <==> SurfaceHit(sqrt, s, r).Some?
    ensures rec.Some? ==> rec.value.t == SurfaceHit(sqrt, s, r).value
    ensures rec.Some? && Inverts(s.xf.m, s.xf.inv) ==> rec.value.location == PointAt(r, rec.value.t)
    ensures rec.Some? ==> rec.value.normal == Zero() || Dot(rec.value.normal, rec.value.normal) == 1.0
  {
    var o := Untransform(s.xf, r);
    match CylinderHit(sqrt, s.center, s.radius, s.height, o)
    case None => None
    case Some(h) =>
      UntransformKeepsParameter(s.xf, r, h.t);
      Some(Record(h.t, MulPos(s.xf.m, PointAt(o, h.t)), Unit(sqrt, MulDir(s.xf.tinv, h.normal)), V2(0.0, 0.0)))
  }

  /**
   * `intersect` with the record filled in. The sphere's texture coordinates come from its
   * object-space normal through `uvOf`, the spherical angles Java computes with `asin` and
   * `atan2`.
   */
  function RecordOf(sqrt: real -> real, uvOf: V3 -> V2, s: Surface, r: Ray): (rec: Option<Record>)
    requires IsSqrt(sqrt)
    ensures rec.Some? <==> SurfaceHit(sqrt, s, r).Some?
    ensures rec.Some? ==> rec.value.t == SurfaceHit(sqrt, s, r).value
    ensures rec.Some? && Inverts(s.xf.m, s.xf.inv) ==> rec.value.location == PointAt(r, rec.value.t)
  {
    match s
    case Sphere(_, _, _, _) => SphereRecord(sqrt, uvOf, s, r)
    case Cylinder(_, _, _, _, _) => CylinderRecord(sqrt, s, r)
    case Triangle(mesh, f, _, _) => if FaceInRange(mesh, f) then TriangleRecord(sqrt, s, r) else None
    case _ => None
  }
}
