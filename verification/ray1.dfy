/**
 * The first-generation ray tracer's surfaces (`ray1.surface`): the same triangle and
 * sphere tests as the second generation, without object transforms, with the checks
 * written in a different order, and with the sphere's tangent case handled apart.
 */
module Ray1Surfaces {
  import opened Wrappers
  import opened Geometry
  import opened Shaders
  import opened Surfaces
  import opened Intersections
  import Cameras

  // ---------------------------------------------------------------- triangle

  /**
   * `ray1.surface.Triangle.intersect`: solve by Cramer's rule; reject t outside
   * [start, end]; then gamma outside [0, 1]; then beta below 0 or above 1 - gamma.
   * A zero M makes Java divide by zero; the model reports no hit.
   */
  function Triangle1Hit(v0: V3, v1: V3, v2: V3, o: Ray): (r: Option<real>)
    ensures r.Some? ==> o.start <= r.value && AtMost(r.value, o.end)
  {
    match Cramer(TriangleSystem(v0, v1, v2, o))
    case None => None
    case Some((t, beta, gamma)) =>
      if t < o.start || !AtMost(t, o.end) then None
      else if gamma < 0.0 || gamma > 1.0 then None
      else if beta < 0.0 || beta > 1.0 - gamma then None
      else Some(t)
  }

  /**
   * The two generations accept the same hits: gamma in [0, 1] with beta in [0, 1 - gamma]
   * is the region beta in [0, 1], gamma >= 0, beta + gamma <= 1 the second generation tests.
   */
  lemma Triangle1AgreesWithRay2(v0: V3, v1: V3, v2: V3, o: Ray)
    ensures Triangle1Hit(v0, v1, v2, o) == TriangleHit(v0, v1, v2, o)
  {
    match Cramer(TriangleSystem(v0, v1, v2, o))
    case None =>
    case Some((t, beta, gamma)) =>
      assert (gamma >= 0.0 && gamma <= 1.0 && beta >= 0.0 && beta <= 1.0 - gamma)
         <==> (beta >= 0.0 && beta <= 1.0 && gamma >= 0.0 && gamma + beta <= 1.0);
  }

  /**
   * A triangle hit of the first generation lands on the triangle, and every point of the
   * triangle in the window is found, when the ray is not parallel to its plane.
   */
  lemma Triangle1HitExact(v0: V3, v1: V3, v2: V3, o: Ray, beta: real, gamma: real, t: real)
    ensures Triangle1Hit(v0, v1, v2, o).Some? ==>
      exists b, g :: InTriangle(b, g) && PointAt(o, Triangle1Hit(v0, v1, v2, o).value) == Bary(v0, v1, v2, b, g)
    ensures Det3(TriangleSystem(v0, v1, v2, o)) != 0.0 && InTriangle(beta, gamma)
      && o.start <= t && AtMost(t, o.end) && PointAt(o, t) == Bary(v0, v1, v2, beta, gamma)
      ==> Triangle1Hit(v0, v1, v2, o) == Some(t)
  {
    Triangle1AgreesWithRay2(v0, v1, v2, o);
    if Triangle1Hit(v0, v1, v2, o).Some? {
      TriangleHitOnTriangle(v0, v1, v2, o);
    }
    if Det3(TriangleSystem(v0, v1, v2, o)) != 0.0 && InTriangle(beta, gamma)
      && o.start <= t && AtMost(t, o.end) && PointAt(o, t) == Bary(v0, v1, v2, beta, gamma)
    {
      TriangleHitComplete(v0, v1, v2, o, beta, gamma, t);
    }
  }

  /**
   * The record: the hit point o + t d with no transform; the flat normal or the blended
   * vertex normals, normalised; the blended uvs when the face has them, else (0, 0). The
   * weights are the barycentric coordinates of the hit point.
   */
  function Triangle1Record(sqrt: real -> real, mesh: ObjMesh, f: ObjFace, o: Ray): (rec: Option<Record>)
    requires IsSqrt(sqrt) && FaceInRange(mesh, f)
    ensures var (v0, v1, v2) := Corners3(mesh, f);
      rec.Some? <==> Triangle1Hit(v0, v1, v2, o).Some?
    ensures var (v0, v1, v2) := Corners3(mesh, f);
      rec.Some? ==> rec.value.t == Triangle1Hit(v0, v1, v2, o).value && rec.value.location == PointAt(o, rec.value.t)
    ensures rec.Some? ==> rec.value.normal == Zero() || Dot(rec.value.normal, rec.value.normal) == 1.0
    ensures var (v0, v1, v2) := Corners3(mesh, f);
      rec.Some? ==> exists beta, gamma ::
        InTriangle(beta, gamma) && rec.value.location == Bary(v0, v1, v2, beta, gamma)
        && rec.value.normal == Unit(sqrt, ShadingBase(sqrt, mesh, f, beta, gamma))
        && rec.value.uv == ShadingUv(mesh, f, beta, gamma)
  {
    var (v0, v1, v2) := Corners3(mesh, f);
    match Triangle1Hit(v0, v1, v2, o)
    case None => None
    case Some(t) =>
      var w := Cramer(TriangleSystem(v0, v1, v2, o)).value;
      var beta, gamma := w.1, w.2;
      Triangle1AgreesWithRay2(v0, v1, v2, o);
      TriangleHitOnTriangle(v0, v1, v2, o);
      Some(Record(t, PointAt(o, t), Unit(sqrt, ShadingBase(sqrt, mesh, f, beta, gamma)), ShadingUv(mesh, f, beta, gamma)))
  }

  /**
   * Any barycentric pair of the hit point gives the recorded normal and uv: the weights
   * the record shades with are determined by where the ray meets the triangle.
   */
  lemma Triangle1RecordShading(sqrt: real -> real, mesh: ObjMesh, f: ObjFace, o: Ray, beta: real, gamma: real)
    requires IsSqrt(sqrt) && FaceInRange(mesh, f)
    requires Triangle1Record(sqrt, mesh, f, o).Some?
    requires var (v0, v1, v2) := Corners3(mesh, f);
      Triangle1Record(sqrt, mesh, f, o).value.location == Bary(v0, v1, v2, beta, gamma)
    ensures var rec := Triangle1Record(sqrt, mesh, f, o).value;
      rec.normal == Unit(sqrt, ShadingBase(sqrt, mesh, f, beta, gamma)) && rec.uv == ShadingUv(mesh, f, beta, gamma)
  {
    var (v0, v1, v2) := Corners3(mesh, f);
    Triangle1AgreesWithRay2(v0, v1, v2, o);
    WeightsUnique(v0, v1, v2, o, Triangle1Hit(v0, v1, v2, o).value, beta, gamma);
  }

  // ---------------------------------------------------------------- sphere

  /**
   * `ray1.surface.Sphere.intersect` as written: no hit for a negative discriminant; for a
   * zero discriminant the single root -B / A, whatever the window; otherwise the lower
   * root if strictly inside the window, else the upper one if it is. A zero direction
   * makes Java divide 0 by 0; the model reports no hit.
   */
  function Sphere1Hit(sqrt: real -> real, c: V3, radius: real, o: Ray): (r: Option<real>)
    requires IsSqrt(sqrt)
    ensures r.Some? && Discriminant(SphereQuadratic(c, radius, o)) != 0.0 ==> o.start < r.value && Below(r.value, o.end)
  {
    var k := SphereQuadratic(c, radius, o);
    var disc := Discriminant(k);
    if disc < 0.0 || k.dd == 0.0 then None
    else if disc == 0.0 then Some(-k.qd / k.dd)
    else
      var s := sqrt(disc);
      FirstInWindow((-k.qd - s) / k.dd, (-k.qd + s) / k.dd, o.start, o.end)
  }

  /** Every reported hit, the tangent one included, lies on the sphere. */
  lemma Sphere1HitOnSphere(sqrt: real -> real, c: V3, radius: real, o: Ray)
    requires IsSqrt(sqrt)
    ensures Sphere1Hit(sqrt, c, radius, o).Some? ==> OnSphere(c, radius, PointAt(o, Sphere1Hit(sqrt, c, radius, o).value))
  {
    var k := SphereQuadratic(c, radius, o);
    var disc := Discriminant(k);
    if disc == 0.0 && k.dd != 0.0 {
      RootIsOnSphere(sqrt, c, radius, o, -k.qd / k.dd, 0.0);
    } else if disc > 0.0 && k.dd != 0.0 {
      var s := sqrt(disc);
      RootIsOnSphere(sqrt, c, radius, o, (-k.qd - s) / k.dd, -s);
      RootIsOnSphere(sqrt, c, radius, o, (-k.qd + s) / k.dd, s);
    }
  }

  /**
   * A ray from (0, 1, z), z > 0, leaving along +z only grazes the unit sphere behind its
   * origin, at t = -z; the tangent branch still reports that hit although t lies before
   * the window's start (z = 5 gives the hit at -5).
   */
  lemma TangentHitBehindOrigin(sqrt: real -> real, z: real, o: Ray)
    requires IsSqrt(sqrt) && z > 0.0
    requires o == Ray(V3(0.0, 1.0, z), V3(0.0, 0.0, 1.0), 0.0, PosInf)
    ensures Sphere1Hit(sqrt, Zero(), 1.0, o) == Some(-z) && -z < o.start
  {
    var k := SphereQuadratic(Zero(), 1.0, o);
    assert k == Quadratic(1.0, z, 1.0 + z * z, 1.0);
    TangentDiscriminant(z);
    assert Discriminant(k) == 0.0;
    assert -k.qd / k.dd == -z;
    Sphere1Tangent(sqrt, Zero(), 1.0, o);
    assert Sphere1Hit(sqrt, Zero(), 1.0, o) == Some(-k.qd / k.dd);
  }

  lemma TangentDiscriminant(z: real)
    ensures z * z - 1.0 * (1.0 + z * z - 1.0) == 0.0
  {
  }

  /** On a tangent ray the single root is reported as it is. */
  lemma Sphere1Tangent(sqrt: real -> real, c: V3, radius: real, o: Ray)
    requires IsSqrt(sqrt)
    requires var k := SphereQuadratic(c, radius, o); Discriminant(k) == 0.0 && k.dd != 0.0
    ensures var k := SphereQuadratic(c, radius, o); Sphere1Hit(sqrt, c, radius, o) == Some(-k.qd / k.dd)
  {
  }

  /**
   * The tangent case with the window check every other branch makes: the single root is
   * kept only when it lies strictly inside the window.
   */
  function Sphere1HitChecked(sqrt: real -> real, c: V3, radius: real, o: Ray): (r: Option<real>)
    requires IsSqrt(sqrt)
    ensures r.Some? ==> o.start < r.value && Below(r.value, o.end) && OnSphere(c, radius, PointAt(o, r.value))
  {
    var k := SphereQuadratic(c, radius, o);
    var disc := Discriminant(k);
    if disc < 0.0 || k.dd == 0.0 then None
    else if disc == 0.0 then
      var t := -k.qd / k.dd;
      RootIsOnSphere(sqrt, c, radius, o, t, 0.0);
      if o.start < t && Below(t, o.end) then Some(t) else None
    else
      var s := sqrt(disc);
      var t1 := (-k.qd - s) / k.dd;
      var t2 := (-k.qd + s) / k.dd;
      RootIsOnSphere(sqrt, c, radius, o, t1, -s);
      RootIsOnSphere(sqrt, c, radius, o, t2, s);
      FirstInWindow(t1, t2, o.start, o.end)
  }

  /**
   * With the window checked, the first generation's sphere is the second generation's:
   * both report the nearest point of the sphere strictly inside the window.
   */
  lemma Sphere1CheckedAgreesWithRay2(sqrt: real -> real, c: V3, radius: real, o: Ray)
    requires IsSqrt(sqrt)
    ensures Sphere1HitChecked(sqrt, c, radius, o) == SphereHit(sqrt, c, radius, o)
  {
    var k := SphereQuadratic(c, radius, o);
    if Discriminant(k) == 0.0 && k.dd != 0.0 {
      SqrtAt(sqrt, 0.0);
      ProductZero(sqrt(0.0), sqrt(0.0));
      assert (-k.qd - 0.0) / k.dd == -k.qd / k.dd;
    }
  }

  /** As written, the two generations differ only on tangent rays. */
  lemma Sphere1DiffersOnlyWhenTangent(sqrt: real -> real, c: V3, radius: real, o: Ray)
    requires IsSqrt(sqrt)
    ensures Discriminant(SphereQuadratic(c, radius, o)) != 0.0 ==>
      Sphere1Hit(sqrt, c, radius, o) == SphereHit(sqrt, c, radius, o)
    ensures Sphere1Hit(sqrt, c, radius, o) != SphereHit(sqrt, c, radius, o) ==>
      Sphere1Hit(sqrt, c, radius, o).Some? && !(o.start < Sphere1Hit(sqrt, c, radius, o).value && Below(Sphere1Hit(sqrt, c, radius, o).value, o.end))
  {
    Sphere1CheckedAgreesWithRay2(sqrt, c, radius, o);
  }

  /**
   * The record: the hit point o + t d with no transform and the normal
   * normalize(2 (location - center)), which points straight out of the sphere. It is
   * filled for the corrected hit, so the tangent hit outside the window that the code as
   * written reports gets no record here.
   */
  function Sphere1Record(sqrt: real -> real, c: V3, radius: real, o: Ray, uvOf: V3 -> V2): (rec: Option<Record>)
    requires IsSqrt(sqrt)
    ensures rec.Some? <==> Sphere1HitChecked(sqrt, c, radius, o).Some?
    ensures rec.Some? ==>
      rec.value.t == Sphere1HitChecked(sqrt, c, radius, o).value && rec.value.location == PointAt(o, rec.value.t)
  {
    match Sphere1HitChecked(sqrt, c, radius, o)
    case None => None
    case Some(t) =>
      var p := PointAt(o, t);
      Some(Record(t, p, Unit(sqrt, Scale(2.0, Sub(p, c))), uvOf(Unit(sqrt, Sub(p, c)))))
  }

  /** The recorded normal is a unit vector pointing from the centre to the hit point. */
  lemma Sphere1NormalOutward(sqrt: real -> real, c: V3, radius: real, o: Ray, uvOf: V3 -> V2)
    requires IsSqrt(sqrt) && radius != 0.0
    ensures var rec := Sphere1Record(sqrt, c, radius, o, uvOf);
      rec.Some? ==> Dot(rec.value.normal, rec.value.normal) == 1.0
                    && SameDirection(rec.value.normal, Sub(rec.value.location, c))
  {
    var rec := Sphere1Record(sqrt, c, radius, o, uvOf);
    if rec.Some? {
      OutwardNormal(sqrt, Sub(rec.value.location, c), radius);
    }
  }

  lemma OutwardNormal(sqrt: real -> real, out: V3, radius: real)
    requires IsSqrt(sqrt)
    ensures Dot(out, out) == radius * radius && radius != 0.0 ==>
      Dot(Unit(sqrt, Scale(2.0, out)), Unit(sqrt, Scale(2.0, out))) == 1.0
      && SameDirection(Unit(sqrt, Scale(2.0, out)), out)
  {
    if Dot(out, out) == radius * radius && radius != 0.0 {
      if out == Zero() {
        assert radius * radius == 0.0;
        ProductZero(radius, radius);
        assert false;
      }
      assert Scale(2.0, out) != Zero();
      Cameras.PositiveScaleSame(2.0, out);
      Cameras.SameDirectionTrans(Unit(sqrt, Scale(2.0, out)), Scale(2.0, out), out);
    }
  }
}
