/**
 * The surfaces' `intersect` routines: a world ray is taken into object space with the
 * inverse matrix, intersected there, and the hit point and normal are taken back out with
 * the matrix and the inverse transpose.
 *
 * The square root is a parameter (see `Geometry.IsSqrt`), and so is the sphere's texture
 * mapping, which Java computes with `asin` and `atan2`.
 */
module Intersections {
  import opened Wrappers
  import opened Geometry
  import opened Shaders
  import opened Surfaces
  import BvhTraversal

  // ---------------------------------------------------------------- object space

  /** `Surface.untransformRay`: origin and direction through the inverse; the window is kept. */
  function Untransform(xf: Xform, r: Ray): (o: Ray)
    ensures o.start == r.start && o.end == r.end
    ensures o.origin == MulPos(xf.inv, r.origin) && o.direction == MulDir(xf.inv, r.direction)
  {
    Ray(MulPos(xf.inv, r.origin), MulDir(xf.inv, r.direction), r.start, r.end)
  }

  /** `inv` undoes `m` on points, as `tMatInv` does for `tMat`. */
  ghost predicate Inverts(m: Affine, inv: Affine) {
    forall x :: MulPos(m, MulPos(inv, x)) == x
  }

  /** An affine map takes the point at t along a line to the point at t along the image line. */
  lemma MulPosAlong(m: Affine, o: V3, d: V3, t: real)
    ensures MulPos(m, Add(o, Scale(t, d))) == Add(MulPos(m, o), Scale(t, MulDir(m, d)))
  {
    var p := Add(o, Scale(t, d));
    DotAlong(m.r0, o, d, t);
    DotAlong(m.r1, o, d, t);
    DotAlong(m.r2, o, d, t);
    assert MulPos(m, p) == V3(Dot(m.r0, p) + m.t.x, Dot(m.r1, p) + m.t.y, Dot(m.r2, p) + m.t.z);
    assert Add(MulPos(m, o), Scale(t, MulDir(m, d)))
        == V3((Dot(m.r0, o) + m.t.x) + t * Dot(m.r0, d), (Dot(m.r1, o) + m.t.y) + t * Dot(m.r1, d),
              (Dot(m.r2, o) + m.t.z) + t * Dot(m.r2, d));
  }

  lemma DotAlong(r: V3, o: V3, d: V3, t: real)
    ensures Dot(r, Add(o, Scale(t, d))) == Dot(r, o) + t * Dot(r, d)
  {
    ScalarAlong(r.x, r.y, r.z, o.x, o.y, o.z, d.x, d.y, d.z, t);
  }

  lemma ScalarAlong(a: real, b: real, c: real, ox: real, oy: real, oz: real, dx: real, dy: real, dz: real, t: real)
    ensures a * (ox + t * dx) + b * (oy + t * dy) + c * (oz + t * dz) == (a * ox + b * oy + c * oz) + t * (a * dx + b * dy + c * dz)
  {
  }

  /** The linear part is the difference of two images. */
  lemma MulDirDifference(m: Affine, a: V3, b: V3)
    ensures MulDir(m, Sub(a, b)) == Sub(MulPos(m, a), MulPos(m, b))
  {
    DotDifference(m.r0, a, b);
    DotDifference(m.r1, a, b);
    DotDifference(m.r2, a, b);
  }

  lemma DotDifference(r: V3, a: V3, b: V3)
    ensures Dot(r, Sub(a, b)) == Dot(r, a) - Dot(r, b)
  {
    ScalarDifference(r.x, r.y, r.z, a.x, a.y, a.z, b.x, b.y, b.z);
  }

  lemma ScalarDifference(p: real, q: real, r: real, a1: real, a2: real, a3: real, b1: real, b2: real, b3: real)
    ensures p * (a1 - b1) + q * (a2 - b2) + r * (a3 - b3) == (p * a1 + q * a2 + r * a3) - (p * b1 + q * b2 + r * b3)
  {
  }

  /** A map that undoes m on points also undoes its linear part on directions. */
  lemma InvertsDirections(m: Affine, inv: Affine, d: V3)
    requires Inverts(m, inv)
    ensures MulDir(m, MulDir(inv, d)) == d
  {
    MulDirDifference(inv, d, Zero());
    assert MulDir(inv, d) == MulDir(inv, Sub(d, Zero()));
    MulDirDifference(m, MulPos(inv, d), MulPos(inv, Zero()));
    assert MulPos(m, MulPos(inv, d)) == d;
    assert MulPos(m, MulPos(inv, Zero())) == Zero();
  }

  /**
   * Mapping the object-space point at t back with the matrix gives the world-space point at
   * the same t: object-space parameters are world-space parameters.
   */
  lemma UntransformKeepsParameter(xf: Xform, r: Ray, t: real)
    ensures Inverts(xf.m, xf.inv) ==> MulPos(xf.m, PointAt(Untransform(xf, r), t)) == PointAt(r, t)
  {
    if Inverts(xf.m, xf.inv) {
      var o := Untransform(xf, r);
      MulPosAlong(xf.m, o.origin, o.direction, t);
      InvertsDirections(xf.m, xf.inv, r.direction);
    }
  }

  // ---------------------------------------------------------------- sphere

  /** The quantities `Sphere.intersect` computes for the quadratic dd t^2 + 2 qd t + (qq - r^2). */
  datatype Quadratic = Quadratic(dd: real, qd: real, qq: real, rr: real)

  function SphereQuadratic(c: V3, radius: real, o: Ray): Quadratic {
    var q := Sub(o.origin, c);
    Quadratic(Dot(o.direction, o.direction), Dot(q, o.direction), Dot(q, q), radius * radius)
  }

  /** `qd * qd - dd * (qq - r * r)`. */
  function Discriminant(k: Quadratic): real {
    k.qd * k.qd - k.dd * (k.qq - k.rr)
  }

  /** The value of the quadratic at t. */
  function QuadraticAt(k: Quadratic, t: real): real {
    k.dd * t * t + 2.0 * k.qd * t + (k.qq - k.rr)
  }

  /** The point at t lies on the sphere of center c and radius |radius|. */
  ghost predicate OnSphere(c: V3, radius: real, p: V3) {
    Dot(Sub(p, c), Sub(p, c)) == radius * radius
  }

  /**
   * `Sphere.intersect` in object space: no hit when the discriminant is negative; otherwise
   * the smaller root if it lies strictly inside the window, else the larger one if it does.
   * A zero direction makes Java divide 0 by 0, and NaN passes no comparison: no hit.
   */
  function SphereHit(sqrt: real -> real, c: V3, radius: real, o: Ray): (r: Option<real>)
    requires IsSqrt(sqrt)
    ensures r.Some? ==> o.start < r.value && Below(r.value, o.end)
    ensures r.Some? ==> OnSphere(c, radius, PointAt(o, r.value))
  {
    var k := SphereQuadratic(c, radius, o);
    var disc := Discriminant(k);
    if disc < 0.0 || k.dd == 0.0 then None
    else
      var s := sqrt(disc);
      var t1 := (-k.qd - s) / k.dd;
      var t2 := (-k.qd + s) / k.dd;
      RootsOnSphere(sqrt, c, radius, o);
      FirstInWindow(t1, t2, o.start, o.end)
  }

  /** Both roots `SphereHit` picks between lie on the sphere. */
  lemma RootsOnSphere(sqrt: real -> real, c: V3, radius: real, o: Ray)
    requires IsSqrt(sqrt)
    requires var k := SphereQuadratic(c, radius, o); Discriminant(k) >= 0.0 && k.dd != 0.0
    ensures var k := SphereQuadratic(c, radius, o); var s := sqrt(Discriminant(k));
      OnSphere(c, radius, PointAt(o, (-k.qd - s) / k.dd)) && OnSphere(c, radius, PointAt(o, (-k.qd + s) / k.dd))
  {
    var k := SphereQuadratic(c, radius, o);
    var s := sqrt(Discriminant(k));
    assert s * s == Discriminant(k);
    assert (-s) * (-s) == s * s;
    RootIsOnSphere(sqrt, c, radius, o, (-k.qd - s) / k.dd, -s);
    RootIsOnSphere(sqrt, c, radius, o, (-k.qd + s) / k.dd, s);
  }

  /** |q + t d|^2 expands to the quadratic in t. */
  lemma SphereDistanceExpands(c: V3, radius: real, o: Ray, t: real)
    ensures var k := SphereQuadratic(c, radius, o);
      Dot(Sub(PointAt(o, t), c), Sub(PointAt(o, t), c)) - radius * radius == QuadraticAt(k, t)
  {
    var q := Sub(o.origin, c);
    var d := o.direction;
    assert Sub(PointAt(o, t), c) == Add(q, Scale(t, d));
    ExpandSquare(q.x, d.x, t);
    ExpandSquare(q.y, d.y, t);
    ExpandSquare(q.z, d.z, t);
  }

  lemma ExpandSquare(q: real, d: real, t: real)
    ensures (q + t * d) * (q + t * d) == d * d * t * t + 2.0 * (q * d) * t + q * q
  {
  }

  /** (-qd +- s) / dd is a root when s^2 is the discriminant. */
  lemma RootIsOnSphere(sqrt: real -> real, c: V3, radius: real, o: Ray, t: real, s: real)
    requires var k := SphereQuadratic(c, radius, o);
      k.dd != 0.0 && s * s == Discriminant(k) && t == (-k.qd + s) / k.dd
    ensures OnSphere(c, radius, PointAt(o, t))
  {
    QuotientRoot(SphereQuadratic(c, radius, o), s, t);
    SphereDistanceExpands(c, radius, o, t);
  }

  /** (-qd + s) / dd solves the quadratic when s^2 is its discriminant. */
  lemma QuotientRoot(k: Quadratic, s: real, t: real)
    requires k.dd != 0.0 && s * s == Discriminant(k) && t == (-k.qd + s) / k.dd
    ensures QuadraticAt(k, t) == 0.0
  {
    QuotientTimes(-k.qd + s, k.dd);
    ScalarRoot(k.dd, k.qd, k.qq - k.rr, s, t);
  }

  lemma QuotientTimes(a: real, b: real)
    requires b != 0.0
    ensures a / b * b == a
  {
  }

  /** With u = t dd = -qd + s: dd (dd t^2 + 2 qd t + e) = (u + qd)^2 - qd^2 + dd e = 0. */
  lemma ScalarRoot(dd: real, qd: real, e: real, s: real, t: real)
    requires dd != 0.0 && s * s == qd * qd - dd * e && t * dd == -qd + s
    ensures dd * t * t + 2.0 * qd * t + e == 0.0
  {
    var u := t * dd;
    assert (u + qd) * (u + qd) == s * s;
    assert u * u + 2.0 * qd * u + dd * e == 0.0;
    assert dd * (dd * t * t + 2.0 * qd * t + e) == u * u + 2.0 * qd * u + dd * e;
    ProductZero(dd, dd * t * t + 2.0 * qd * t + e);
  }

  /** Every root of the quadratic is one of the two the code computes. */
  lemma ScalarRootsAreKnown(dd: real, qd: real, e: real, s: real, t: real)
    requires dd != 0.0 && s >= 0.0 && s * s == qd * qd - dd * e && dd * t * t + 2.0 * qd * t + e == 0.0
    ensures t * dd == -qd + s || t * dd == -qd - s
  {
    var u := t * dd;
    assert dd * (dd * t * t + 2.0 * qd * t + e) == u * u + 2.0 * qd * u + dd * e;
    assert u * u + 2.0 * qd * u + dd * e == 0.0;
    assert (u + qd - s) * (u + qd + s) == 0.0;
    ProductZero(u + qd - s, u + qd + s);
  }

  /**
   * The sphere hit is the nearest point of the sphere strictly inside the window: whenever
   * some t' in the window lands on the sphere, a hit is reported, and it is no later than t'.
   * (A zero direction is excluded: Java's 0 / 0 then misses even a ray starting on the sphere.)
   */
  lemma SphereHitIsNearest(sqrt: real -> real, c: V3, radius: real, o: Ray, t': real)
    requires IsSqrt(sqrt)
    requires o.direction != Zero()
    requires o.start < t' && Below(t', o.end) && OnSphere(c, radius, PointAt(o, t'))
    ensures SphereHit(sqrt, c, radius, o).Some?
    ensures SphereHit(sqrt, c, radius, o).value <= t'
  {
    var k := SphereQuadratic(c, radius, o);
    SphereDistanceExpands(c, radius, o, t');
    DotSelfNonNegative(o.direction);
    QuadraticRootIsComputed(sqrt, k, t');
    var s := sqrt(Discriminant(k));
    FirstInWindowIsNearest((-k.qd - s) / k.dd, (-k.qd + s) / k.dd, t', o.start, o.end);
  }

  /** A root of a quadratic with positive leading coefficient is one of the two ordered roots the code computes. */
  lemma QuadraticRootIsComputed(sqrt: real -> real, k: Quadratic, t: real)
    requires IsSqrt(sqrt) && k.dd > 0.0 && QuadraticAt(k, t) == 0.0
    ensures Discriminant(k) >= 0.0
    ensures var s := sqrt(Discriminant(k));
      (t == (-k.qd - s) / k.dd || t == (-k.qd + s) / k.dd) && (-k.qd - s) / k.dd <= (-k.qd + s) / k.dd
  {
    RealRootsNeedDiscriminant(k.dd, k.qd, k.qq - k.rr, t);
    SqrtAt(sqrt, Discriminant(k));
    OrderedRoots(k.dd, k.qd, k.qq - k.rr, sqrt(Discriminant(k)), t);
  }

  lemma OrderedRoots(dd: real, qd: real, e: real, s: real, t: real)
    requires dd > 0.0 && s >= 0.0 && s * s == qd * qd - dd * e && dd * t * t + 2.0 * qd * t + e == 0.0
    ensures (t == (-qd - s) / dd || t == (-qd + s) / dd) && (-qd - s) / dd <= (-qd + s) / dd
  {
    RootIsOneOf(dd, qd, e, s, t);
    RootsOrdered(dd, qd, s);
  }

  /** A root of the quadratic is one of the two quotients the code computes. */
  lemma RootIsOneOf(dd: real, qd: real, e: real, s: real, t: real)
    requires dd > 0.0 && s >= 0.0 && s * s == qd * qd - dd * e && dd * t * t + 2.0 * qd * t + e == 0.0
    ensures t == (-qd - s) / dd || t == (-qd + s) / dd
  {
    ScalarRootsAreKnown(dd, qd, e, s, t);
    QuotientTimes(-qd + s, dd);
    QuotientTimes(-qd - s, dd);
    CancelFactor(t, (-qd + s) / dd, dd);
    CancelFactor(t, (-qd - s) / dd, dd);
  }

  /**
   * The selection both quadrics make: the first root if it lies strictly inside the window,
   * else the second if it does.
   */
  function FirstInWindow(t1: real, t2: real, start: real, end: Ext): (r: Option<real>)
    ensures r.Some? ==> start < r.value && Below(r.value, end) && (r.value == t1 || r.value == t2)
  {
    if start < t1 && Below(t1, end) then Some(t1)
    else if start < t2 && Below(t2, end) then Some(t2)
    else None
  }

  /** With ordered roots, the selection finds the nearer of the roots inside the window. */
  lemma FirstInWindowIsNearest(t1: real, t2: real, t: real, start: real, end: Ext)
    requires t1 <= t2 && (t == t1 || t == t2) && start < t && Below(t, end)
    ensures FirstInWindow(t1, t2, start, end).Some? && FirstInWindow(t1, t2, start, end).value <= t
  {
  }

  lemma CancelFactor(a: real, b: real, m: real)
    requires m != 0.0
    ensures a * m == b * m ==> a == b
  {
    if a * m == b * m {
      assert (a - b) * m == 0.0;
      ProductZero(a - b, m);
    }
  }

  /** A real root forces a non-negative discriminant. */
  lemma RealRootsNeedDiscriminant(dd: real, qd: real, e: real, t: real)
    requires dd != 0.0 && dd * t * t + 2.0 * qd * t + e == 0.0
    ensures qd * qd - dd * e >= 0.0
  {
    var u := t * dd + qd;
    assert dd * (dd * t * t + 2.0 * qd * t + e) == u * u - (qd * qd - dd * e);
    SquareNonNegative(u);
  }

  /** With dd > 0 and s >= 0 the first root is the smaller. */
  lemma RootsOrdered(dd: real, qd: real, s: real)
    requires dd > 0.0 && s >= 0.0
    ensures (-qd - s) / dd <= (-qd + s) / dd
  {
  }

  /** Shortening the window keeps the selection's answer when it lies before the new end. */
  lemma FirstInWindowShorter(t1: real, t2: real, start: real, end: Ext, e: Ext)
    requires t1 <= t2 && BvhTraversal.ExtLe(e, end)
    ensures FirstInWindow(t1, t2, start, e) == BvhTraversal.Filter(FirstInWindow(t1, t2, start, end), e)
  {
  }

  /** The sphere reports the same hit for a shorter window when the hit lies before its end. */
  lemma SphereHitShorter(sqrt: real -> real, c: V3, radius: real, o: Ray, e: Ext)
    requires IsSqrt(sqrt) && BvhTraversal.ExtLe(e, o.end)
    ensures SphereHit(sqrt, c, radius, o.(end := e)) == BvhTraversal.Filter(SphereHit(sqrt, c, radius, o), e)
  {
    var k := SphereQuadratic(c, radius, o);
    if Discriminant(k) >= 0.0 && k.dd != 0.0 {
      DotSelfNonNegative(o.direction);
      var s := sqrt(Discriminant(k));
      SqrtAt(sqrt, Discriminant(k));
      RootsOrdered(k.dd, k.qd, s);
      FirstInWindowShorter((-k.qd - s) / k.dd, (-k.qd + s) / k.dd, o.start, o.end, e);
    }
  }

  // ---------------------------------------------------------------- triangle

  /**
   * The triangle's linear system, with Java's names: columns (a, b, c) = v0 - v1,
   * (d, e, f) = v0 - v2 and (g, h, i) = the direction; right side (j, k, l) = v0 - origin.
   */
  datatype System = System(a: real, b: real, c: real, d: real, e: real, f: real,
                           g: real, h: real, i: real, j: real, k: real, l: real)

  function TriangleSystem(v0: V3, v1: V3, v2: V3, o: Ray): System {
    System(v0.x - v1.x, v0.y - v1.y, v0.z - v1.z, v0.x - v2.x, v0.y - v2.y, v0.z - v2.z,
           o.direction.x, o.direction.y, o.direction.z, v0.x - o.origin.x, v0.y - o.origin.y, v0.z - o.origin.z)
  }

  /** The determinant M. */
  function Det3(q: System): real {
    q.a * (q.e * q.i - q.h * q.f) + q.b * (q.g * q.f - q.d * q.i) + q.c * (q.d * q.h - q.e * q.g)
  }

  /** Cramer's numerators for t, beta and gamma, as the code writes them. */
  function NumT(q: System): real {
    -(q.f * (q.a * q.k - q.j * q.b) + q.e * (q.j * q.c - q.a * q.l) + q.d * (q.b * q.l - q.k * q.c))
  }

  function NumBeta(q: System): real {
    q.j * (q.e * q.i - q.h * q.f) + q.k * (q.g * q.f - q.d * q.i) + q.l * (q.d * q.h - q.e * q.g)
  }

  function NumGamma(q: System): real {
    q.i * (q.a * q.k - q.j * q.b) + q.h * (q.j * q.c - q.a * q.l) + q.g * (q.b * q.l - q.k * q.c)
  }

  /** The three equations beta (a, b, c) + gamma (d, e, f) + t (g, h, i) = (j, k, l). */
  predicate Solves(q: System, beta: real, gamma: real, t: real) {
    q.a * beta + q.d * gamma + q.g * t == q.j
    && q.b * beta + q.e * gamma + q.h * t == q.k
    && q.c * beta + q.f * gamma + q.i * t == q.l
  }

  /** Cramer's rule, scaled by M: the numerators solve the system times M. */
  lemma CramerScaled(q: System)
    ensures q.a * NumBeta(q) + q.d * NumGamma(q) + q.g * NumT(q) == q.j * Det3(q)
    ensures q.b * NumBeta(q) + q.e * NumGamma(q) + q.h * NumT(q) == q.k * Det3(q)
    ensures q.c * NumBeta(q) + q.f * NumGamma(q) + q.i * NumT(q) == q.l * Det3(q)
  {
    CofactorRows(q.a, q.b, q.c, q.d, q.e, q.f, q.g, q.h, q.i, q.j, q.k, q.l);
  }

  /** The cofactor expansions behind Cramer's rule, over plain numbers. */
  lemma CofactorRows(a: real, b: real, c: real, d: real, e: real, f: real, g: real, h: real, i: real,
                     j: real, k: real, l: real)
    ensures a * (j * (e * i - h * f) + k * (g * f - d * i) + l * (d * h - e * g))
          + d * (i * (a * k - j * b) + h * (j * c - a * l) + g * (b * l - k * c))
          + g * -(f * (a * k - j * b) + e * (j * c - a * l) + d * (b * l - k * c))
         == j * (a * (e * i - h * f) + b * (g * f - d * i) + c * (d * h - e * g))
    ensures b * (j * (e * i - h * f) + k * (g * f - d * i) + l * (d * h - e * g))
          + e * (i * (a * k - j * b) + h * (j * c - a * l) + g * (b * l - k * c))
          + h * -(f * (a * k - j * b) + e * (j * c - a * l) + d * (b * l - k * c))
         == k * (a * (e * i - h * f) + b * (g * f - d * i) + c * (d * h - e * g))
    ensures c * (j * (e * i - h * f) + k * (g * f - d * i) + l * (d * h - e * g))
          + f * (i * (a * k - j * b) + h * (j * c - a * l) + g * (b * l - k * c))
          + i * -(f * (a * k - j * b) + e * (j * c - a * l) + d * (b * l - k * c))
         == l * (a * (e * i - h * f) + b * (g * f - d * i) + c * (d * h - e * g))
  {
  }

  /** Any solution of the system gives back the numerators when multiplied by M. */
  lemma CramerUnique(q: System, beta: real, gamma: real, t: real)
    requires Solves(q, beta, gamma, t)
    ensures NumT(q) == t * Det3(q) && NumBeta(q) == beta * Det3(q) && NumGamma(q) == gamma * Det3(q)
  {
    CramerSolution(q.a, q.b, q.c, q.d, q.e, q.f, q.g, q.h, q.i, q.j, q.k, q.l, beta, gamma, t);
  }

  /** Substituting a solution into the numerators gives it times the determinant, over plain numbers. */
  lemma CramerSolution(a: real, b: real, c: real, d: real, e: real, f: real, g: real, h: real, i: real,
                       j: real, k: real, l: real, beta: real, gamma: real, t: real)
    requires a * beta + d * gamma + g * t == j
    requires b * beta + e * gamma + h * t == k
    requires c * beta + f * gamma + i * t == l
    ensures -(f * (a * k - j * b) + e * (j * c - a * l) + d * (b * l - k * c))
            == t * (a * (e * i - h * f) + b * (g * f - d * i) + c * (d * h - e * g))
    ensures j * (e * i - h * f) + k * (g * f - d * i) + l * (d * h - e * g)
            == beta * (a * (e * i - h * f) + b * (g * f - d * i) + c * (d * h - e * g))
    ensures i * (a * k - j * b) + h * (j * c - a * l) + g * (b * l - k * c)
            == gamma * (a * (e * i - h * f) + b * (g * f - d * i) + c * (d * h - e * g))
  {
  }

  /** The point with barycentric weights (1 - beta - gamma, beta, gamma) on v0, v1, v2. */
  function Bary(v0: V3, v1: V3, v2: V3, beta: real, gamma: real): V3 {
    Add(Add(Scale(1.0 - beta - gamma, v0), Scale(beta, v1)), Scale(gamma, v2))
  }

  /** Solving the system is landing the ray on the triangle's plane at those weights. */
  lemma SolvesIsPoint(v0: V3, v1: V3, v2: V3, o: Ray, beta: real, gamma: real, t: real)
    ensures Solves(TriangleSystem(v0, v1, v2, o), beta, gamma, t) <==> PointAt(o, t) == Bary(v0, v1, v2, beta, gamma)
  {
    if Solves(TriangleSystem(v0, v1, v2, o), beta, gamma, t) {
      SolvesToPoint(v0, v1, v2, o, beta, gamma, t);
    }
    if PointAt(o, t) == Bary(v0, v1, v2, beta, gamma) {
      PointToSolves(v0, v1, v2, o, beta, gamma, t);
    }
  }

  lemma SolvesToPoint(v0: V3, v1: V3, v2: V3, o: Ray, beta: real, gamma: real, t: real)
    requires Solves(TriangleSystem(v0, v1, v2, o), beta, gamma, t)
    ensures PointAt(o, t) == Bary(v0, v1, v2, beta, gamma)
  {
    SolvesRow(v0.x, v1.x, v2.x, o.origin.x, o.direction.x, beta, gamma, t);
    SolvesRow(v0.y, v1.y, v2.y, o.origin.y, o.direction.y, beta, gamma, t);
    SolvesRow(v0.z, v1.z, v2.z, o.origin.z, o.direction.z, beta, gamma, t);
  }

  lemma PointToSolves(v0: V3, v1: V3, v2: V3, o: Ray, beta: real, gamma: real, t: real)
    requires PointAt(o, t) == Bary(v0, v1, v2, beta, gamma)
    ensures Solves(TriangleSystem(v0, v1, v2, o), beta, gamma, t)
  {
    var p := PointAt(o, t);
    var w := Bary(v0, v1, v2, beta, gamma);
    assert p.x == w.x && p.y == w.y && p.z == w.z;
    SolvesRow(v0.x, v1.x, v2.x, o.origin.x, o.direction.x, beta, gamma, t);
    SolvesRow(v0.y, v1.y, v2.y, o.origin.y, o.direction.y, beta, gamma, t);
    SolvesRow(v0.z, v1.z, v2.z, o.origin.z, o.direction.z, beta, gamma, t);
  }

  /** One coordinate of that equivalence. */
  lemma SolvesRow(v0: real, v1: real, v2: real, o: real, d: real, beta: real, gamma: real, t: real)
    ensures (v0 - v1) * beta + (v0 - v2) * gamma + d * t == v0 - o
        <==> o + t * d == ((1.0 - beta - gamma) * v0 + beta * v1) + gamma * v2
  {
  }

  /** t, beta and gamma as `Triangle.intersect` divides them out, or None when M is zero. */
  function Cramer(q: System): (r: Option<(real, real, real)>)
    ensures r.Some? <==> Det3(q) != 0.0
    ensures r.Some? ==> Solves(q, r.value.1, r.value.2, r.value.0)
  {
    var m := Det3(q);
    if m == 0.0 then None
    else
      var sol := (NumT(q) / m, NumBeta(q) / m, NumGamma(q) / m);
      CramerScaled(q);
      SolvesScaled(q, NumBeta(q), NumGamma(q), NumT(q), m);
      Some(sol)
  }

  /** Numerators that solve the system times m give, divided by m, a solution of it. */
  lemma SolvesScaled(q: System, nb: real, ng: real, nt: real, m: real)
    requires m != 0.0
    requires q.a * nb + q.d * ng + q.g * nt == q.j * m
    requires q.b * nb + q.e * ng + q.h * nt == q.k * m
    requires q.c * nb + q.f * ng + q.i * nt == q.l * m
    ensures Solves(q, nb / m, ng / m, nt / m)
  {
    DivideRow(q.a, q.d, q.g, nb, ng, nt, q.j, m);
    DivideRow(q.b, q.e, q.h, nb, ng, nt, q.k, m);
    DivideRow(q.c, q.f, q.i, nb, ng, nt, q.l, m);
  }

  /** One equation a B + d G + g T = j M divided through by M. */
  lemma DivideRow(a: real, d: real, g: real, nb: real, ng: real, nt: real, j: real, m: real)
    requires m != 0.0 && a * nb + d * ng + g * nt == j * m
    ensures a * (nb / m) + d * (ng / m) + g * (nt / m) == j
  {
    assert a * (nb / m) + d * (ng / m) + g * (nt / m) == (a * nb + d * ng + g * nt) / m;
  }

  /**
   * `Triangle.intersect` in object space: solve for (t, beta, gamma); reject t after the
   * end or before the start, beta outside [0, 1], and gamma < 0 or beta + gamma > 1.
   * A zero M makes Java divide by zero; the model reports no hit.
   */
  function TriangleHit(v0: V3, v1: V3, v2: V3, o: Ray): (r: Option<real>)
    ensures r.Some? ==> o.start <= r.value && AtMost(r.value, o.end)
  {
    match Cramer(TriangleSystem(v0, v1, v2, o))
    case None => None
    case Some((t, beta, gamma)) =>
      if !AtMost(t, o.end) || t < o.start then None
      else if beta < 0.0 || beta > 1.0 then None
      else if gamma < 0.0 || gamma + beta > 1.0 then None
      else Some(t)
  }

  /** Weights in the triangle. */
  predicate InTriangle(beta: real, gamma: real) {
    beta >= 0.0 && gamma >= 0.0 && beta + gamma <= 1.0
  }

  /**
   * The triangle hit lands on the triangle: the point at t is a convex combination of the
   * three corners, with the weights the code computes.
   */
  lemma TriangleHitOnTriangle(v0: V3, v1: V3, v2: V3, o: Ray)
    requires TriangleHit(v0, v1, v2, o).Some?
    ensures var w := Cramer(TriangleSystem(v0, v1, v2, o)).value;
      w.0 == TriangleHit(v0, v1, v2, o).value && InTriangle(w.1, w.2)
      && PointAt(o, w.0) == Bary(v0, v1, v2, w.1, w.2)
  {
    var w := Cramer(TriangleSystem(v0, v1, v2, o)).value;
    SolvesIsPoint(v0, v1, v2, o, w.1, w.2, w.0);
  }

  /**
   * Conversely, when the ray is not parallel to the triangle's plane (M is not zero), a
   * point of the triangle at some t in [start, end] is found, at that t.
   */
  lemma TriangleHitComplete(v0: V3, v1: V3, v2: V3, o: Ray, beta: real, gamma: real, t: real)
    requires Det3(TriangleSystem(v0, v1, v2, o)) != 0.0
    requires InTriangle(beta, gamma) && o.start <= t && AtMost(t, o.end)
    requires PointAt(o, t) == Bary(v0, v1, v2, beta, gamma)
    ensures TriangleHit(v0, v1, v2, o) == Some(t)
  {
    var q := TriangleSystem(v0, v1, v2, o);
    SolvesIsPoint(v0, v1, v2, o, beta, gamma, t);
    CramerFinds(q, beta, gamma, t);
  }

  /** With M non-zero, Cramer's rule returns the solution the system has. */
  lemma CramerFinds(q: System, beta: real, gamma: real, t: real)
    requires Det3(q) != 0.0 && Solves(q, beta, gamma, t)
    ensures Cramer(q) == Some((t, beta, gamma))
  {
    CramerUnique(q, beta, gamma, t);
    CancelQuotient(NumT(q), t, Det3(q));
    CancelQuotient(NumBeta(q), beta, Det3(q));
    CancelQuotient(NumGamma(q), gamma, Det3(q));
  }

  lemma CancelQuotient(n: real, x: real, m: real)
    ensures m != 0.0 && n == x * m ==> n / m == x
  {
  }

  /**
   * The triangle ignores the window's end except to reject hits after it, so a shorter
   * window keeps the hit exactly when it lies before the new end (the test the BVH makes).
   */
  lemma TriangleHitShorter(v0: V3, v1: V3, v2: V3, o: Ray, e: Ext)
    requires BvhTraversal.ExtLe(e, o.end)
    ensures BvhTraversal.Filter(TriangleHit(v0, v1, v2, o.(end := e)), e)
         == BvhTraversal.Filter(TriangleHit(v0, v1, v2, o), e)
  {
  }

  // ---------------------------------------------------------------- records

  /** `tinv` is the inverse transpose of `m`: it carries normals so that angles to images of directions are kept. */
  ghost predicate TransposesInverse(m: Affine, tinv: Affine) {
    forall n, e :: Dot(MulDir(tinv, n), MulDir(m, e)) == Dot(n, e)
  }

  /**
   * The record a sphere fills in: the hit point taken back to world space, the unit
   * vector from the center to the object-space hit point taken through the inverse
   * transpose (Java does not normalise it again), and the texture coordinates of that unit
   * vector.
   */
  function SphereRecord(sqrt: real -> real, uvOf: V3 -> V2, s: Surface, r: Ray): (rec: Option<Record>)
    requires IsSqrt(sqrt) && s.Sphere?
    ensures rec.Some? <==> SphereHit(sqrt, s.center, s.radius, Untransform(s.xf, r)).Some?
    ensures rec.Some? ==> rec.value.t == SphereHit(sqrt, s.center, s.radius, Untransform(s.xf, r)).value
    ensures rec.Some? && Inverts(s.xf.m, s.xf.inv) ==> rec.value.location == PointAt(r, rec.value.t)
  {
    var o := Untransform(s.xf, r);
    match SphereHit(sqrt, s.center, s.radius, o)
    case None => None
    case Some(t) =>
      UntransformKeepsParameter(s.xf, r, t);
      Some(SphereRecordAt(sqrt, uvOf, s, o, t))
  }

  /** The record filled in for the object-space hit at t. */
  function SphereRecordAt(sqrt: real -> real, uvOf: V3 -> V2, s: Surface, o: Ray, t: real): (rec: Record)
    requires s.Sphere?
    ensures rec.t == t && rec.location == MulPos(s.xf.m, PointAt(o, t))
  {
    var p := PointAt(o, t);
    var n := Unit(sqrt, Sub(p, s.center));
    Record(t, MulPos(s.xf.m, p), MulDir(s.xf.tinv, n), uvOf(n))
  }

  /**
   * In object space the sphere's normal is the outward unit radius at the hit point (any
   * point other than the centre); the record holds its image under the inverse transpose.
   */
  lemma SphereNormalIsRadius(sqrt: real -> real, uvOf: V3 -> V2, s: Surface, o: Ray, t: real) returns (n: V3)
    requires IsSqrt(sqrt) && s.Sphere? && PointAt(o, t) != s.center
    ensures Dot(n, n) == 1.0 && SameDirection(n, Sub(PointAt(o, t), s.center))
    ensures SphereRecordAt(sqrt, uvOf, s, o, t).normal == MulDir(s.xf.tinv, n)
  {
    var v := Sub(PointAt(o, t), s.center);
    n := Unit(sqrt, v);
  }

  /** The three corners of a face. */
  function Corners3(mesh: ObjMesh, f: ObjFace): (V3, V3, V3)
    requires FaceInRange(mesh, f)
  {
    (mesh.positions[f.pos.c0], mesh.positions[f.pos.c1], mesh.positions[f.pos.c2])
  }

  /** `norm`, set in the constructor when the face has no vertex normals: the unit e0 x e1. */
  function FlatNormal(sqrt: real -> real, v0: V3, v1: V3, v2: V3): V3 {
    Unit(sqrt, Cross(Sub(v1, v0), Sub(v2, v0)))
  }

  /** `addMultiple(1 - beta - gamma, n0).addMultiple(beta, n1).addMultiple(gamma, n2)`. */
  function Blend(a: V3, b: V3, c: V3, beta: real, gamma: real): V3 {
    Add(Add(Scale(1.0 - beta - gamma, a), Scale(beta, b)), Scale(gamma, c))
  }

  function Blend2(a: V2, b: V2, c: V2, beta: real, gamma: real): V2 {
    var w := 1.0 - beta - gamma;
    V2(w * a.x + beta * b.x + gamma * c.x, w * a.y + beta * b.y + gamma * c.y)
  }

  /**
   * The object-space normal at weights (beta, gamma) before it is mapped and normalised:
   * the flat normal when the face has no vertex normals, else the vertex normals blended.
   */
  function ShadingBase(sqrt: real -> real, mesh: ObjMesh, f: ObjFace, beta: real, gamma: real): V3
    requires FaceInRange(mesh, f)
  {
    match f.normal
    case None => var (v0, v1, v2) := Corners3(mesh, f); FlatNormal(sqrt, v0, v1, v2)
    case Some(nc) => Blend(mesh.normals[nc.c0], mesh.normals[nc.c1], mesh.normals[nc.c2], beta, gamma)
  }

  /** The texture coordinates at weights (beta, gamma): the vertex uvs blended, or (0, 0) without them. */
  function ShadingUv(mesh: ObjMesh, f: ObjFace, beta: real, gamma: real): V2
    requires FaceInRange(mesh, f)
  {
    match f.uv
    case None => V2(0.0, 0.0)
    case Some(uc) => Blend2(mesh.uvs[uc.c0], mesh.uvs[uc.c1], mesh.uvs[uc.c2], beta, gamma)
  }

  /**
   * The record a triangle fills in: the world hit point; the flat normal, or the vertex
   * normals blended with the hit's weights, taken through the inverse transpose and
   * normalised; the vertex uvs blended likewise when the face has them, else (0, 0).
   * The weights are the barycentric coordinates of the object-space hit point.
   */
  function TriangleRecord(sqrt: real -> real, s: Surface, r: Ray): (rec: Option<Record>)
    requires IsSqrt(sqrt) && s.Triangle? && FaceInRange(s.owner, s.face)
    ensures var (v0, v1, v2) := Corners3(s.owner, s.face);
      rec.Some? <==> TriangleHit(v0, v1, v2, Untransform(s.xf, r)).Some?
    ensures var (v0, v1, v2) := Corners3(s.owner, s.face);
      rec.Some? ==> rec.value.t == TriangleHit(v0, v1, v2, Untransform(s.xf, r)).value
    ensures rec.Some? && Inverts(s.xf.m, s.xf.inv) ==> rec.value.location == PointAt(r, rec.value.t)
    ensures rec.Some? ==> rec.value.normal == Zero() || Dot(rec.value.normal, rec.value.normal) == 1.0
    ensures var (v0, v1, v2) := Corners3(s.owner, s.face);
      rec.Some? ==> exists beta, gamma ::
        InTriangle(beta, gamma) && PointAt(Untransform(s.xf, r), rec.value.t) == Bary(v0, v1, v2, beta, gamma)
        && rec.value.normal == Unit(sqrt, MulDir(s.xf.tinv, ShadingBase(sqrt, s.owner, s.face, beta, gamma)))
        && rec.value.uv == ShadingUv(s.owner, s.face, beta, gamma)
  {
    var (v0, v1, v2) := Corners3(s.owner, s.face);
    var o := Untransform(s.xf, r);
    match TriangleHit(v0, v1, v2, o)
    case None => None
    case Some(t) =>
      var w := Cramer(TriangleSystem(v0, v1, v2, o)).value;
      var beta, gamma := w.1, w.2;
      var normal := Unit(sqrt, MulDir(s.xf.tinv, ShadingBase(sqrt, s.owner, s.face, beta, gamma)));
      TriangleHitOnTriangle(v0, v1, v2, o);
      UntransformKeepsParameter(s.xf, r, t);
      Some(Record(t, MulPos(s.xf.m, PointAt(o, t)), normal, ShadingUv(s.owner, s.face, beta, gamma)))
  }

  /**
   * The weights a triangle record shades with are the only barycentric coordinates of the
   * hit point: any (beta, gamma) that puts the corners' combination at the hit gives the
   * recorded normal and uv.
   */
  lemma TriangleRecordShading(sqrt: real -> real, s: Surface, r: Ray, beta: real, gamma: real)
    requires IsSqrt(sqrt) && s.Triangle? && FaceInRange(s.owner, s.face)
    requires TriangleRecord(sqrt, s, r).Some?
    requires var (v0, v1, v2) := Corners3(s.owner, s.face);
      PointAt(Untransform(s.xf, r), TriangleRecord(sqrt, s, r).value.t) == Bary(v0, v1, v2, beta, gamma)
    ensures var rec := TriangleRecord(sqrt, s, r).value;
      rec.normal == Unit(sqrt, MulDir(s.xf.tinv, ShadingBase(sqrt, s.owner, s.face, beta, gamma)))
      && rec.uv == ShadingUv(s.owner, s.face, beta, gamma)
  {
    var (v0, v1, v2) := Corners3(s.owner, s.face);
    var o := Untransform(s.xf, r);
    var t := TriangleHit(v0, v1, v2, o).value;
    WeightsUnique(v0, v1, v2, o, t, beta, gamma);
  }

  /** When the ray meets the triangle's plane, Cramer's rule returns every barycentric pair of the hit point. */
  lemma WeightsUnique(v0: V3, v1: V3, v2: V3, o: Ray, t: real, beta: real, gamma: real)
    requires Cramer(TriangleSystem(v0, v1, v2, o)).Some?
    requires PointAt(o, t) == Bary(v0, v1, v2, beta, gamma)
    ensures Cramer(TriangleSystem(v0, v1, v2, o)) == Some((t, beta, gamma))
  {
    SolvesIsPoint(v0, v1, v2, o, beta, gamma, t);
    CramerFinds(TriangleSystem(v0, v1, v2, o), beta, gamma, t);
  }

  /**
   * Without vertex normals, the triangle's world normal is perpendicular to both world
   * edges from v0, when the matrices are consistent.
   */
  lemma FlatNormalPerpendicular(sqrt: real -> real, s: Surface, r: Ray)
    requires IsSqrt(sqrt) && s.Triangle? && FaceInRange(s.owner, s.face) && s.face.normal.None?
    requires TransposesInverse(s.xf.m, s.xf.tinv)
    requires TriangleRecord(sqrt, s, r).Some?
    ensures var (v0, v1, v2) := Corners3(s.owner, s.face);
      var n := TriangleRecord(sqrt, s, r).value.normal;
      Dot(n, Sub(MulPos(s.xf.m, v1), MulPos(s.xf.m, v0))) == 0.0
      && Dot(n, Sub(MulPos(s.xf.m, v2), MulPos(s.xf.m, v0))) == 0.0
  {
    var (v0, v1, v2) := Corners3(s.owner, s.face);
    var e0, e1 := Sub(v1, v0), Sub(v2, v0);
    var cr := Cross(e0, e1);
    CrossPerpendicular(e0, e1);
    var base := FlatNormal(sqrt, v0, v1, v2);
    PerpendicularScaled(sqrt, cr, e0);
    PerpendicularScaled(sqrt, cr, e1);
    var wn := MulDir(s.xf.tinv, base);
    assert Dot(wn, MulDir(s.xf.m, e0)) == 0.0;
    assert Dot(wn, MulDir(s.xf.m, e1)) == 0.0;
    MulDirDifference(s.xf.m, v1, v0);
    MulDirDifference(s.xf.m, v2, v0);
    PerpendicularScaled(sqrt, wn, MulDir(s.xf.m, e0));
    PerpendicularScaled(sqrt, wn, MulDir(s.xf.m, e1));
  }

  /** Normalising keeps a vector perpendicular to whatever it was perpendicular to. */
  lemma PerpendicularScaled(sqrt: real -> real, a: V3, e: V3)
    requires Dot(a, e) == 0.0
    ensures Dot(Unit(sqrt, a), e) == 0.0
  {
    if a != Zero() && sqrt(Dot(a, a)) != 0.0 {
      DotScale(1.0 / sqrt(Dot(a, a)), a, e);
    }
  }
}
