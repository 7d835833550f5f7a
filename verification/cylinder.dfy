/**
 * `Cylinder.intersect` (ray2): a capped cylinder whose axis is parallel to z, given by its
 * center, radius and height, intersected in object space.
 *
 * The code as written keeps `t = 0` when neither root of the side quadratic lies in the
 * window and still accepts the ray whenever the clamped window passes the cap test, so it
 * can report a hit at a point off the cylinder (see `AsWrittenReportsOrigin`); and it reports
 * the cap only when the chosen side root lies before the slab, so a ray that enters through
 * a cap and leaves through the side is reported at its exit (see `CapEntryRayAsWritten`). The model
 * keeps that version, and `CylinderHit` is the intended one the rest of the model uses: the
 * nearest of the side and cap points strictly inside the window.
 */
module CylinderHits {
  import opened Wrappers
  import opened Geometry
  import opened Shaders
  import opened Intersections
  import BvhTraversal

  /** An object-space cylinder hit: the parameter and the normal before it is transformed. */
  datatype CylHit = CylHit(t: real, normal: V3)

  /** The projection of a point or direction onto the xy plane. */
  function Flat(v: V3): V3 { V3(v.x, v.y, 0.0) }

  /** The ray's shadow on the xy plane, with the same window. */
  function FlatRay(o: Ray): Ray {
    o.(origin := Flat(o.origin), direction := Flat(o.direction))
  }

  /** The squared distance of p from the cylinder's axis through c. */
  function AxisDist2(c: V3, p: V3): real {
    Dot(Sub(Flat(p), Flat(c)), Sub(Flat(p), Flat(c)))
  }

  lemma FlatAlong(o: Ray, t: real)
    ensures Flat(PointAt(o, t)) == PointAt(FlatRay(o), t)
  {
  }

  function ZMin(c: V3, height: real): real { c.z - height / 2.0 }
  function ZMax(c: V3, height: real): real { c.z + height / 2.0 }

  /** The point lies on the curved side, between the two cap planes. */
  predicate OnSide(c: V3, radius: real, height: real, p: V3) {
    AxisDist2(c, p) == radius * radius && ZMin(c, height) <= p.z <= ZMax(c, height)
  }

  /** The point lies on one of the two end discs. */
  predicate OnCap(c: V3, radius: real, height: real, p: V3) {
    (p.z == ZMin(c, height) || p.z == ZMax(c, height)) && AxisDist2(c, p) <= radius * radius
  }

  predicate OnCylinder(c: V3, radius: real, height: real, p: V3) {
    OnSide(c, radius, height, p) || OnCap(c, radius, height, p)
  }

  /**
   * The quadratic dd t^2 + 2 qd t + (qq - r^2) of the side: the sphere's quadratic for the
   * shadows of the ray and of the center on the xy plane.
   */
  function SideQuadratic(c: V3, radius: real, o: Ray): Quadratic {
    SphereQuadratic(Flat(c), radius, FlatRay(o))
  }

  /** On the shadow plane the side is the circle around the axis. */
  lemma SideIsFlatSphere(c: V3, radius: real, o: Ray, t: real)
    ensures AxisDist2(c, PointAt(o, t)) == radius * radius
        <==> OnSphere(Flat(c), radius, PointAt(FlatRay(o), t))
  {
    FlatAlong(o, t);
  }

  /** The normal turned, if need be, so that it does not point along the direction d. */
  function FaceAgainst(n: V3, d: V3): (r: V3)
    ensures Dot(r, d) <= 0.0
    ensures r == n || r == Neg(n)
    ensures Dot(n, d) <= 0.0 ==> r == n
  {
    DotNeg(d, n);
    if Dot(n, d) > 0.0 then Neg(n) else n
  }

  /** The side normal at p: from the axis to p, with no z part. */
  function SideNormal(c: V3, p: V3): V3 {
    V3(p.x - c.x, p.y - c.y, 0.0)
  }

  // ------------------------------------------------------------- as written

  /**
   * `td1 <= td2` in the code: the parameters at which the ray crosses the two cap planes,
   * taken in the order the sign of d.z gives.
   */
  function CapTimes(c: V3, height: real, o: Ray): (real, real)
    requires o.direction.z != 0.0
  {
    var dz := o.direction.z;
    if dz >= 0.0 then ((ZMin(c, height) - o.origin.z) / dz, (ZMax(c, height) - o.origin.z) / dz)
    else ((ZMax(c, height) - o.origin.z) / dz, (ZMin(c, height) - o.origin.z) / dz)
  }

  /**
   * `double t = 0` followed by the two window tests on the roots. With dd = d.x^2 + d.y^2
   * zero the direction runs along the axis, and Java divides by zero: the NaN or infinite
   * roots pass neither test and t stays 0. Otherwise a non-zero t is a root of the side
   * quadratic strictly inside the window (and `SideChoiceNearest` shows it is the first).
   */
  function SideChoice(sqrt: real -> real, k: Quadratic, start: real, end: Ext): (t: real)
    requires IsSqrt(sqrt) && Discriminant(k) >= 0.0
    ensures k.dd == 0.0 ==> t == 0.0
    ensures k.dd != 0.0 && t != 0.0 ==> start < t && Below(t, end) && QuadraticAt(k, t) == 0.0
  {
    if k.dd == 0.0 then 0.0
    else
      var s := sqrt(Discriminant(k));
      SqrtAt(sqrt, Discriminant(k));
      QuotientRoot(k, s, (-k.qd + s) / k.dd);
      QuotientRoot(k, -s, (-k.qd - s) / k.dd);
      match FirstInWindow((-k.qd - s) / k.dd, (-k.qd + s) / k.dd, start, end)
      case Some(t) => t
      case None => 0.0
  }

  /**
   * When some root of the side quadratic (dd > 0) lies strictly inside the window, the
   * choice is a root inside the window no later than it: the first side crossing.
   */
  lemma SideChoiceNearest(sqrt: real -> real, k: Quadratic, start: real, end: Ext, u: real)
    requires IsSqrt(sqrt) && k.dd > 0.0
    requires QuadraticAt(k, u) == 0.0 && start < u && Below(u, end)
    ensures Discriminant(k) >= 0.0
    ensures var t := SideChoice(sqrt, k, start, end);
      start < t && Below(t, end) && QuadraticAt(k, t) == 0.0 && t <= u
  {
    QuadraticRootIsComputed(sqrt, k, u);
    var s := sqrt(Discriminant(k));
    FirstInWindowIsNearest((-k.qd - s) / k.dd, (-k.qd + s) / k.dd, u, start, end);
    SqrtAt(sqrt, Discriminant(k));
    QuotientRoot(k, s, (-k.qd + s) / k.dd);
    QuotientRoot(k, -s, (-k.qd - s) / k.dd);
  }

  /**
   * `Cylinder.intersect` as written, in object space, with the normal before it is
   * transformed: clamp the window to the slab between the cap planes, reject a negative
   * discriminant, pick t as above, reject only when t is outside the clamped window and
   * both ends of the clamped window are outside the radius, and report the cap when t lies
   * before the slab. For a direction with no z part Java's double division gives infinite
   * cap times (NaN when the origin lies on a cap plane), so a horizontal ray between the
   * cap planes keeps its own window and can still hit the side; the model reports no hit
   * for every such ray.
   */
  function CylinderHitAsWritten(sqrt: real -> real, c: V3, radius: real, height: real, o: Ray): (r: Option<CylHit>)
    requires IsSqrt(sqrt)
    ensures r.Some? ==> Dot(r.value.normal, o.direction) <= 0.0
  {
    if o.direction.z == 0.0 then None
    else
      var (td1, td2) := CapTimes(c, height, o);
      if o.start > td2 || !AtMost(td1, o.end) then None
      else
        var k := SideQuadratic(c, radius, o);
        if Discriminant(k) < 0.0 then None
        else AcceptAsWritten(c, radius, o, td1, td2, SideChoice(sqrt, k, o.start, o.end))
  }

  /**
   * The rest of `Cylinder.intersect` once the side root t is chosen: clamp the window to the
   * slab [td1, td2], reject when t lies outside it and both of its ends lie outside the
   * radius, and otherwise report the cap when t lies before the slab and the side at t if not.
   */
  function AcceptAsWritten(c: V3, radius: real, o: Ray, td1: real, td2: real, t: real): (r: Option<CylHit>)
    requires o.start <= td2 && AtMost(td1, o.end)
    ensures r.Some? ==> Dot(r.value.normal, o.direction) <= 0.0
  {
    var tMin := if td1 > o.start then td1 else o.start;
    var tMax := if Below(td2, o.end) then td2 else o.end.v;
    if (t < tMin || t > tMax)
       && AxisDist2(c, PointAt(o, tMin)) > radius * radius && AxisDist2(c, PointAt(o, tMax)) > radius * radius
    then None
    else
      var tside := if td1 <= td2 then td1 else td2;
      if t < tside then Some(CylHit(tside, FaceAgainst(V3(0.0, 0.0, 1.0), o.direction)))
      else Some(CylHit(t, FaceAgainst(SideNormal(c, PointAt(o, t)), o.direction)))
  }

  /**
   * A ray that starts at parameter 0 outside the radius, inside the slab between the cap
   * planes, and moves away from the axis, on a line that crossed the cylinder's side
   * behind it (the discriminant is not negative). Such a ray never meets the cylinder.
   */
  predicate LeavesOutward(c: V3, radius: real, height: real, o: Ray) {
    var k := SideQuadratic(c, radius, o);
    o.direction.z != 0.0 && k.dd > 0.0 && k.qd > 0.0 && k.qq > k.rr && Discriminant(k) >= 0.0
    && o.start == 0.0 && AtMost(0.0, o.end)
    && CapTimes(c, height, o).0 <= 0.0 <= CapTimes(c, height, o).1
  }

  /** Both roots lie behind a ray that starts outside the radius moving away from the axis. */
  lemma RootsBehind(sqrt: real -> real, k: Quadratic, start: real, end: Ext)
    requires IsSqrt(sqrt) && k.dd > 0.0 && k.qd > 0.0 && k.qq > k.rr && Discriminant(k) >= 0.0
    requires start >= 0.0
    ensures SideChoice(sqrt, k, start, end) == 0.0
  {
    var s := sqrt(Discriminant(k));
    SqrtAt(sqrt, Discriminant(k));
    RootsNegative(k.dd, k.qd, k.qq - k.rr, s);
    assert FirstInWindow((-k.qd - s) / k.dd, (-k.qd + s) / k.dd, start, end).None?;
  }

  /**
   * With dd > 0, qd > 0 and a positive constant term p, both roots (-qd -/+ s) / dd of
   * dd t^2 + 2 qd t + p are negative, s being the root of the discriminant.
   */
  lemma RootsNegative(dd: real, qd: real, p: real, s: real)
    requires dd > 0.0 && qd > 0.0 && p > 0.0 && s >= 0.0 && s * s == qd * qd - dd * p
    ensures (-qd - s) / dd < 0.0 && (-qd + s) / dd < 0.0
  {
    PositiveProduct(dd, p);
    LessThanSquare(s * s, qd * qd, dd * p);
    SmallerRoot(s, qd);
    NegativeQuotient(-qd + s, dd);
    NegativeQuotient(-qd - s, dd);
  }

  lemma SmallerRoot(s: real, q: real)
    requires s >= 0.0 && q > 0.0 && s * s < q * q
    ensures s < q
  {
  }

  lemma LessThanSquare(s2: real, q2: real, p: real)
    requires s2 == q2 - p && p > 0.0
    ensures s2 < q2
  {
  }

  lemma PositiveProduct(a: real, b: real)
    requires a > 0.0 && b > 0.0
    ensures a * b > 0.0
  {
  }

  lemma NegativeQuotient(a: real, b: real)
    requires a < 0.0 && b > 0.0
    ensures a / b < 0.0
  {
  }

  /**
   * The code as written reports a hit at the origin of every such ray: both side roots lie
   * behind it, so t keeps its initial 0, and 0 lies inside the clamped window, so neither
   * rejection applies. The reported point is not on the cylinder.
   */
  lemma AsWrittenReportsOrigin(sqrt: real -> real, c: V3, radius: real, height: real, o: Ray)
    requires IsSqrt(sqrt) && LeavesOutward(c, radius, height, o)
    ensures CylinderHitAsWritten(sqrt, c, radius, height, o)
         == Some(CylHit(0.0, FaceAgainst(SideNormal(c, PointAt(o, 0.0)), o.direction)))
    ensures !OnCylinder(c, radius, height, PointAt(o, 0.0))
  {
    var k := SideQuadratic(c, radius, o);
    var (td1, td2) := CapTimes(c, height, o);
    RootsBehind(sqrt, k, o.start, o.end);
    AcceptSide(c, radius, o, td1, td2, 0.0);
    assert PointAt(o, 0.0) == o.origin;
  }

  /** Inside the clamped window and after the first cap plane, the side at t is reported. */
  lemma AcceptSide(c: V3, radius: real, o: Ray, td1: real, td2: real, t: real)
    requires o.start <= td2 && AtMost(td1, o.end) && td1 <= td2
    requires td1 <= t && o.start <= t && t <= td2 && AtMost(t, o.end)
    ensures AcceptAsWritten(c, radius, o, td1, td2, t)
         == Some(CylHit(t, FaceAgainst(SideNormal(c, PointAt(o, t)), o.direction)))
  {
  }

  /** The ray from (5, 0, 0) along (1, 0, 1). */
  function EscapingRay(): Ray {
    Ray(V3(5.0, 0.0, 0.0), V3(1.0, 0.0, 1.0), 0.0, PosInf)
  }

  /** The escaping ray and the cylinder of radius 1 and height 1 centred at the origin. */
  lemma EscapingRayLeavesOutward(o: Ray)
    requires o == EscapingRay()
    ensures LeavesOutward(Zero(), 1.0, 1.0, o)
  {
    EscapingQuadratic();
    EscapingCaps();
  }

  lemma EscapingQuadratic()
    ensures SideQuadratic(Zero(), 1.0, EscapingRay()) == Quadratic(1.0, 5.0, 25.0, 1.0)
    ensures Discriminant(Quadratic(1.0, 5.0, 25.0, 1.0)) == 1.0
  {
  }

  lemma EscapingCaps()
    ensures CapTimes(Zero(), 1.0, EscapingRay()) == (-0.5, 0.5)
  {
  }

  /**
   * The ray from (0, 0, 5) along (0.2, 0, -1), starting at eps. Against the cylinder of
   * radius 1 and height 2 centred at the origin it enters through the top cap at t = 4,
   * at (0.8, 0, 1), and leaves through the side at t = 5, at (1, 0, 0).
   */
  function CapEntryRay(eps: real): Ray {
    Ray(V3(0.0, 0.0, 5.0), V3(0.2, 0.0, -1.0), eps, PosInf)
  }

  /**
   * The code as written reports the exit through the side for a ray that enters through a
   * cap: the first side root in the window is the far one (the near one lies behind the
   * ray), and the cap is reported only when that root lies before the slab. Stated for any
   * ray and cylinder with the cap times and side quadratic of `CapEntryRay`.
   */
  lemma CapEntryAsWritten(sqrt: real -> real, c: V3, radius: real, height: real, o: Ray)
    requires IsSqrt(sqrt) && o.direction.z != 0.0 && 0.0 < o.start < 4.0 && o.end == PosInf
    requires CapTimes(c, height, o) == (4.0, 6.0)
    requires SideQuadratic(c, radius, o) == Quadratic(0.04, 0.0, 0.0, 1.0)
    ensures CylinderHitAsWritten(sqrt, c, radius, height, o)
         == Some(CylHit(5.0, FaceAgainst(SideNormal(c, PointAt(o, 5.0)), o.direction)))
  {
    var k := SideQuadratic(c, radius, o);
    assert Discriminant(k) == 0.04;
    SqrtAt(sqrt, 0.04);
    assert 0.2 * 0.2 == 0.04;
    SquareRootUnique(sqrt(0.04), 0.2);
    assert (-0.0 - 0.2) / 0.04 == -5.0 && (-0.0 + 0.2) / 0.04 == 5.0;
    assert SideChoice(sqrt, k, o.start, o.end) == 5.0;
    AcceptSide(c, radius, o, 4.0, 6.0, 5.0);
  }

  /** `CapEntryRay` has those cap times and that quadratic, and its point at t = 4 is on the top cap. */
  lemma CapEntryRayFacts(eps: real)
    ensures CapEntryRay(eps).direction.z != 0.0 && CapEntryRay(eps).end == PosInf
    ensures CapTimes(Zero(), 2.0, CapEntryRay(eps)) == (4.0, 6.0)
    ensures SideQuadratic(Zero(), 1.0, CapEntryRay(eps)) == Quadratic(0.04, 0.0, 0.0, 1.0)
    ensures PointAt(CapEntryRay(eps), 4.0) == V3(0.8, 0.0, 1.0)
    ensures OnCap(Zero(), 1.0, 2.0, V3(0.8, 0.0, 1.0))
  {
  }

  /**
   * The cap entry ray, as written: reported at t = 5, at its exit through the side, though
   * at t = 4 it is already on the top cap.
   */
  lemma CapEntryRayAsWritten(sqrt: real -> real, eps: real)
    requires IsSqrt(sqrt) && 0.0 < eps < 4.0
    ensures CylinderHitAsWritten(sqrt, Zero(), 1.0, 2.0, CapEntryRay(eps)).Some?
    ensures CylinderHitAsWritten(sqrt, Zero(), 1.0, 2.0, CapEntryRay(eps)).value.t == 5.0
    ensures OnCap(Zero(), 1.0, 2.0, PointAt(CapEntryRay(eps), 4.0))
  {
    CapEntryRayFacts(eps);
    CapEntryAsWritten(sqrt, Zero(), 1.0, 2.0, CapEntryRay(eps));
  }

  /** The corrected intersection reports the cap entry, or something nearer, for the same ray. */
  lemma CapEntryCorrected(sqrt: real -> real, eps: real)
    requires IsSqrt(sqrt) && 0.0 < eps < 4.0
    ensures CylinderHit(sqrt, Zero(), 1.0, 2.0, CapEntryRay(eps)).Some?
    ensures CylinderHit(sqrt, Zero(), 1.0, 2.0, CapEntryRay(eps)).value.t <= 4.0
  {
    CapEntryRayFacts(eps);
    CylinderHitIsNearest(sqrt, Zero(), 1.0, 2.0, CapEntryRay(eps), 4.0);
  }

  // --------------------------------------------------------------- corrected

  /** Keep a candidate when its check holds and it lies strictly inside the window. */
  function Keep(t: real, ok: bool, n: V3, o: Ray): (r: Option<CylHit>)
    ensures r.Some? <==> ok && o.start < t && Below(t, o.end)
    ensures r.Some? ==> r.value == CylHit(t, n)
  {
    if ok && o.start < t && Below(t, o.end) then Some(CylHit(t, n)) else None
  }

  /** The nearer of two candidates, the first on a tie. */
  function Nearer(a: Option<CylHit>, b: Option<CylHit>): (r: Option<CylHit>)
    ensures r.Some? <==> a.Some? || b.Some?
    ensures r.Some? ==> r == a || r == b
    ensures a.Some? ==> r.value.t <= a.value.t
    ensures b.Some? ==> r.value.t <= b.value.t
  {
    if a.None? then b
    else if b.None? then a
    else if a.value.t <= b.value.t then a else b
  }

  /** A root of the side quadratic is a side hit when its point lies between the cap planes. */
  function SideAt(c: V3, height: real, o: Ray, t: real): (r: Option<CylHit>)
    ensures r.Some? ==> r.value.t == t && Dot(r.value.normal, o.direction) <= 0.0
  {
    var p := PointAt(o, t);
    Keep(t, ZMin(c, height) <= p.z <= ZMax(c, height), FaceAgainst(SideNormal(c, p), o.direction), o)
  }

  /** The side hits: the two roots of the side quadratic, each checked against the slab. */
  function SideCandidates(sqrt: real -> real, c: V3, radius: real, height: real, o: Ray): (r: Option<CylHit>)
    requires IsSqrt(sqrt)
    ensures r.Some? ==> OnSide(c, radius, height, PointAt(o, r.value.t))
    ensures r.Some? ==> o.start < r.value.t && Below(r.value.t, o.end)
    ensures r.Some? ==> Dot(r.value.normal, o.direction) <= 0.0
  {
    var k := SideQuadratic(c, radius, o);
    if Discriminant(k) < 0.0 || k.dd == 0.0 then None
    else
      var s := sqrt(Discriminant(k));
      var t1 := (-k.qd - s) / k.dd;
      var t2 := (-k.qd + s) / k.dd;
      RootIsOnSphere(sqrt, Flat(c), radius, FlatRay(o), t1, -s);
      RootIsOnSphere(sqrt, Flat(c), radius, FlatRay(o), t2, s);
      SideIsFlatSphere(c, radius, o, t1);
      SideIsFlatSphere(c, radius, o, t2);
      Nearer(SideAt(c, height, o, t1), SideAt(c, height, o, t2))
  }

  /** The parameter at which the ray crosses the plane z = zc. */
  function CapTime(o: Ray, zc: real): real
    requires o.direction.z != 0.0
  {
    (zc - o.origin.z) / o.direction.z
  }

  /** A crossing of a cap plane is a cap hit when it lies within the radius. */
  function CapKeep(c: V3, radius: real, o: Ray, t: real): Option<CylHit> {
    Keep(t, AxisDist2(c, PointAt(o, t)) <= radius * radius, FaceAgainst(V3(0.0, 0.0, 1.0), o.direction), o)
  }

  /** The ray crosses the cap plane z = zc; the crossing is a cap hit when it lies within the radius. */
  function CapAt(c: V3, radius: real, o: Ray, zc: real): (r: Option<CylHit>)
    requires o.direction.z != 0.0
    ensures r.Some? ==> PointAt(o, r.value.t).z == zc && AxisDist2(c, PointAt(o, r.value.t)) <= radius * radius
    ensures r.Some? ==> o.start < r.value.t && Below(r.value.t, o.end)
    ensures r.Some? ==> Dot(r.value.normal, o.direction) <= 0.0
  {
    CapPlaneAt(o, zc);
    CapKeep(c, radius, o, CapTime(o, zc))
  }

  lemma CapPlaneAt(o: Ray, zc: real)
    requires o.direction.z != 0.0
    ensures PointAt(o, (zc - o.origin.z) / o.direction.z).z == zc
  {
    QuotientTimes(zc - o.origin.z, o.direction.z);
  }

  /** The ray meets the plane z = zc exactly at (zc - o.z) / d.z. */
  lemma CapPlaneTime(o: Ray, zc: real, t: real)
    requires o.direction.z != 0.0
    ensures PointAt(o, t).z == zc <==> t == (zc - o.origin.z) / o.direction.z
  {
    QuotientTimes(zc - o.origin.z, o.direction.z);
    CancelQuotient(zc - o.origin.z, t, o.direction.z);
    CancelFactor(t, (zc - o.origin.z) / o.direction.z, o.direction.z);
  }

  /** The cap hits; a ray parallel to the caps meets them nowhere but along their plane. */
  function CapCandidates(c: V3, radius: real, height: real, o: Ray): (r: Option<CylHit>)
    ensures r.Some? ==> OnCap(c, radius, height, PointAt(o, r.value.t))
    ensures r.Some? ==> o.start < r.value.t && Below(r.value.t, o.end)
    ensures r.Some? ==> Dot(r.value.normal, o.direction) <= 0.0
  {
    if o.direction.z == 0.0 then None
    else Nearer(CapAt(c, radius, o, ZMin(c, height)), CapAt(c, radius, o, ZMax(c, height)))
  }

  /**
   * The intersection the code evidently intends: the nearest point of the side or the caps
   * strictly inside the window, with its normal turned against the ray.
   */
  function CylinderHit(sqrt: real -> real, c: V3, radius: real, height: real, o: Ray): (r: Option<CylHit>)
    requires IsSqrt(sqrt)
    ensures r.Some? ==> o.start < r.value.t && Below(r.value.t, o.end)
    ensures r.Some? ==> OnCylinder(c, radius, height, PointAt(o, r.value.t))
    ensures r.Some? ==> Dot(r.value.normal, o.direction) <= 0.0
  {
    Nearer(SideCandidates(sqrt, c, radius, height, o), CapCandidates(c, radius, height, o))
  }

  /**
   * The cylinder hit is the nearest point of the cylinder strictly inside the window: any t'
   * there whose point is on the side (for a ray that is not parallel to the axis) or on a
   * cap (for a ray that is not parallel to the caps) bounds the reported hit.
   */
  lemma CylinderHitIsNearest(sqrt: real -> real, c: V3, radius: real, height: real, o: Ray, t': real)
    requires IsSqrt(sqrt)
    requires o.start < t' && Below(t', o.end)
    requires var p := PointAt(o, t');
      (OnSide(c, radius, height, p) && SideQuadratic(c, radius, o).dd != 0.0)
      || (OnCap(c, radius, height, p) && o.direction.z != 0.0)
    ensures CylinderHit(sqrt, c, radius, height, o).Some?
    ensures CylinderHit(sqrt, c, radius, height, o).value.t <= t'
  {
    var p := PointAt(o, t');
    if OnSide(c, radius, height, p) && SideQuadratic(c, radius, o).dd != 0.0 {
      SideIsCandidate(sqrt, c, radius, height, o, t');
    } else {
      CapIsCandidate(c, radius, height, o, t');
    }
  }

  lemma SideIsCandidate(sqrt: real -> real, c: V3, radius: real, height: real, o: Ray, t': real)
    requires IsSqrt(sqrt)
    requires o.start < t' && Below(t', o.end)
    requires OnSide(c, radius, height, PointAt(o, t')) && SideQuadratic(c, radius, o).dd != 0.0
    ensures SideCandidates(sqrt, c, radius, height, o).Some?
    ensures SideCandidates(sqrt, c, radius, height, o).value.t <= t'
  {
    SideRoot(sqrt, c, radius, height, o, t');
    assert SideAt(c, height, o, t').Some?;
  }

  /** A parameter whose point is on the side is one of the two roots of the side quadratic. */
  lemma SideRoot(sqrt: real -> real, c: V3, radius: real, height: real, o: Ray, t': real)
    requires IsSqrt(sqrt)
    requires OnSide(c, radius, height, PointAt(o, t')) && SideQuadratic(c, radius, o).dd != 0.0
    ensures var k := SideQuadratic(c, radius, o);
      Discriminant(k) >= 0.0
      && var s := sqrt(Discriminant(k));
      t' == (-k.qd - s) / k.dd || t' == (-k.qd + s) / k.dd
  {
    var k := SideQuadratic(c, radius, o);
    DotSelfNonNegative(Flat(o.direction));
    SideIsFlatSphere(c, radius, o, t');
    SphereDistanceExpands(Flat(c), radius, FlatRay(o), t');
    RealRootsNeedDiscriminant(k.dd, k.qd, k.qq - k.rr, t');
    var s := sqrt(Discriminant(k));
    SqrtAt(sqrt, Discriminant(k));
    RootIsOneOf(k.dd, k.qd, k.qq - k.rr, s, t');
  }

  lemma CapIsCandidate(c: V3, radius: real, height: real, o: Ray, t': real)
    requires o.start < t' && Below(t', o.end)
    requires OnCap(c, radius, height, PointAt(o, t')) && o.direction.z != 0.0
    ensures CapCandidates(c, radius, height, o).Some?
    ensures CapCandidates(c, radius, height, o).value.t <= t'
  {
    var zc := PointAt(o, t').z;
    CapPlaneTime(o, zc, t');
    assert CapTime(o, zc) == t';
    assert CapKeep(c, radius, o, t').Some?;
    assert CapAt(c, radius, o, zc) == CapKeep(c, radius, o, t');
  }

  /** Keep a hit only when it lies strictly before e (`Filter` on hits that carry a normal). */
  function FilterHit(h: Option<CylHit>, e: Ext): (r: Option<CylHit>)
    ensures HitTime(r) == BvhTraversal.Filter(HitTime(h), e)
  {
    if h.Some? && Below(h.value.t, e) then h else None
  }

  function HitTime(h: Option<CylHit>): (r: Option<real>)
    ensures r.Some? <==> h.Some?
    ensures r.Some? ==> r.value == h.value.t
  {
    if h.Some? then Some(h.value.t) else None
  }

  lemma NearerFilter(a: Option<CylHit>, b: Option<CylHit>, e: Ext)
    ensures FilterHit(Nearer(a, b), e) == Nearer(FilterHit(a, e), FilterHit(b, e))
  {
  }

  lemma KeepShorter(t: real, ok: bool, n: V3, o: Ray, e: Ext)
    requires BvhTraversal.ExtLe(e, o.end)
    ensures Keep(t, ok, n, o.(end := e)) == FilterHit(Keep(t, ok, n, o), e)
  {
  }

  lemma SideAtShorter(c: V3, height: real, o: Ray, t: real, e: Ext)
    requires BvhTraversal.ExtLe(e, o.end)
    ensures SideAt(c, height, o.(end := e), t) == FilterHit(SideAt(c, height, o, t), e)
  {
    var p := PointAt(o, t);
    KeepShorter(t, ZMin(c, height) <= p.z <= ZMax(c, height), FaceAgainst(SideNormal(c, p), o.direction), o, e);
  }

  lemma CapKeepShorter(c: V3, radius: real, o: Ray, t: real, e: Ext)
    requires BvhTraversal.ExtLe(e, o.end)
    ensures CapKeep(c, radius, o.(end := e), t) == FilterHit(CapKeep(c, radius, o, t), e)
  {
    KeepShorter(t, AxisDist2(c, PointAt(o, t)) <= radius * radius, FaceAgainst(V3(0.0, 0.0, 1.0), o.direction), o, e);
  }

  lemma CapAtShorter(c: V3, radius: real, o: Ray, zc: real, e: Ext)
    requires o.direction.z != 0.0 && BvhTraversal.ExtLe(e, o.end)
    ensures CapAt(c, radius, o.(end := e), zc) == FilterHit(CapAt(c, radius, o, zc), e)
  {
    var t := CapTime(o, zc);
    assert CapTime(o.(end := e), zc) == t;
    CapKeepShorter(c, radius, o, t, e);
    assert CapAt(c, radius, o.(end := e), zc) == CapKeep(c, radius, o.(end := e), t);
  }

  lemma SideCandidatesShorter(sqrt: real -> real, c: V3, radius: real, height: real, o: Ray, e: Ext)
    requires IsSqrt(sqrt) && BvhTraversal.ExtLe(e, o.end)
    ensures SideCandidates(sqrt, c, radius, height, o.(end := e))
         == FilterHit(SideCandidates(sqrt, c, radius, height, o), e)
  {
    var k := SideQuadratic(c, radius, o);
    assert SideQuadratic(c, radius, o.(end := e)) == k;
    if Discriminant(k) >= 0.0 && k.dd != 0.0 {
      var s := sqrt(Discriminant(k));
      var t1 := (-k.qd - s) / k.dd;
      var t2 := (-k.qd + s) / k.dd;
      SideAtShorter(c, height, o, t1, e);
      SideAtShorter(c, height, o, t2, e);
      NearerFilter(SideAt(c, height, o, t1), SideAt(c, height, o, t2), e);
    }
  }

  lemma CapCandidatesShorter(c: V3, radius: real, height: real, o: Ray, e: Ext)
    requires BvhTraversal.ExtLe(e, o.end)
    ensures CapCandidates(c, radius, height, o.(end := e)) == FilterHit(CapCandidates(c, radius, height, o), e)
  {
    if o.direction.z != 0.0 {
      CapAtShorter(c, radius, o, ZMin(c, height), e);
      CapAtShorter(c, radius, o, ZMax(c, height), e);
      NearerFilter(CapAt(c, radius, o, ZMin(c, height)), CapAt(c, radius, o, ZMax(c, height)), e);
    }
  }

  /** A shorter window keeps the cylinder's hit exactly when it lies before the new end. */
  lemma CylinderHitShorter(sqrt: real -> real, c: V3, radius: real, height: real, o: Ray, e: Ext)
    requires IsSqrt(sqrt) && BvhTraversal.ExtLe(e, o.end)
    ensures CylinderHit(sqrt, c, radius, height, o.(end := e))
         == FilterHit(CylinderHit(sqrt, c, radius, height, o), e)
  {
    SideCandidatesShorter(sqrt, c, radius, height, o, e);
    CapCandidatesShorter(c, radius, height, o, e);
    NearerFilter(SideCandidates(sqrt, c, radius, height, o), CapCandidates(c, radius, height, o), e);
  }

  /**
   * Along a ray that starts outside the radius and moves away from the axis, the distance
   * from the axis only grows.
   */
  lemma OutwardStaysOutside(c: V3, radius: real, o: Ray, t: real)
    requires var k := SideQuadratic(c, radius, o); k.dd > 0.0 && k.qd > 0.0 && k.qq > k.rr
    requires t > 0.0
    ensures AxisDist2(c, PointAt(o, t)) > radius * radius
  {
    var k := SideQuadratic(c, radius, o);
    FlatAlong(o, t);
    SphereDistanceExpands(Flat(c), radius, FlatRay(o), t);
    PositiveProduct(k.dd, t);
    PositiveProduct(k.dd * t, t);
    PositiveProduct(2.0 * k.qd, t);
  }

  /**
   * The corrected intersection reports no hit for the rays the code as written hits at
   * their origin: the side roots lie behind them and the cap crossings outside the radius.
   */
  lemma CorrectedMissesOutward(sqrt: real -> real, c: V3, radius: real, height: real, o: Ray)
    requires IsSqrt(sqrt) && LeavesOutward(c, radius, height, o)
    ensures CylinderHit(sqrt, c, radius, height, o).None?
  {
    SideMissesOutward(sqrt, c, radius, height, o);
    CapsMissOutward(c, radius, height, o);
  }

  /** Both side roots lie behind such a ray. */
  lemma SideMissesOutward(sqrt: real -> real, c: V3, radius: real, height: real, o: Ray)
    requires IsSqrt(sqrt) && LeavesOutward(c, radius, height, o)
    ensures SideCandidates(sqrt, c, radius, height, o).None?
  {
    var k := SideQuadratic(c, radius, o);
    var s := sqrt(Discriminant(k));
    SqrtAt(sqrt, Discriminant(k));
    RootsNegative(k.dd, k.qd, k.qq - k.rr, s);
  }

  /** Both cap crossings of such a ray lie behind it or outside the radius. */
  lemma CapsMissOutward(c: V3, radius: real, height: real, o: Ray)
    requires LeavesOutward(c, radius, height, o)
    ensures CapCandidates(c, radius, height, o).None?
  {
    var ta := CapTime(o, ZMin(c, height));
    var tb := CapTime(o, ZMax(c, height));
    if ta > 0.0 {
      OutwardStaysOutside(c, radius, o, ta);
    }
    if tb > 0.0 {
      OutwardStaysOutside(c, radius, o, tb);
    }
    assert CapKeep(c, radius, o, ta).None? && CapKeep(c, radius, o, tb).None?;
  }
}
