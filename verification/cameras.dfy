/**
 * The cameras of both ray tracers: an affine map from image coordinates (u, v) in
 * [0, 1]^2 to rays.
 *
 * `ray2` cameras (`ParallelCamera`, `PerspectiveCamera`) build their frame in `init`,
 * which the scene calls once. `ray1` cameras (`OrthographicCamera`, `PerspectiveCamera`)
 * build it lazily on the first `getRay`, so their `getRay` returns the camera as well.
 * Rays leave with start `eps` and no end, as `makeOffsetRay` sets them.
 */
module Cameras {
  import opened Wrappers
  import opened Geometry
  import Lights

  /** The fields every camera reads from the scene file. */
  datatype View = View(viewPoint: V3, viewDir: V3, viewUp: V3, projNormal: V3,
                       viewWidth: real, viewHeight: real)

  /** A camera as constructed: at the origin looking down -z with +y up and a unit window. */
  function DefaultView(): View {
    View(Zero(), V3(0.0, 0.0, -1.0), V3(0.0, 1.0, 0.0), Zero(), 1.0, 1.0)
  }

  /** The derived values of a `ray2` camera: the basis U, V, W and the centre direction. */
  datatype Frame = Frame(u: V3, v: V3, w: V3, centerDir: V3)

  datatype Projection = Parallel | Perspective(projDistance: real)

  /** A `ray2` camera after `init`. */
  datatype Camera = Camera(proj: Projection, view: View, frame: Frame)

  // ---------------------------------------------------------------- direction facts

  /** Pointing the same way is transitive. */
  lemma SameDirectionTrans(a: V3, b: V3, c: V3)
    requires SameDirection(a, b) && SameDirection(b, c)
    ensures SameDirection(a, c)
  {
    var k :| k > 0.0 && a == Scale(k, b);
    var j :| j > 0.0 && b == Scale(j, c);
    assert a == Scale(k * j, c);
  }

  lemma PositiveScaleSame(k: real, a: V3)
    requires k > 0.0
    ensures SameDirection(Scale(k, a), a)
  {
  }

  /** Two unit vectors pointing the same way are equal. */
  lemma UnitsAlike(a: V3, b: V3)
    requires Dot(a, a) == 1.0 && Dot(b, b) == 1.0 && SameDirection(a, b)
    ensures a == b
  {
    var k :| k > 0.0 && a == Scale(k, b);
    DotScale(k, b, b);
    DotScale(k, b, a);
    assert Dot(a, a) == k * (k * Dot(b, b));
    assert k * k == 1.0;
    assert (k - 1.0) * (k + 1.0) == 0.0;
  }

  /** Two unit vectors pointing the way of the same vector are equal. */
  lemma UnitsOfSame(a: V3, b: V3, x: V3)
    requires Dot(a, a) == 1.0 && Dot(b, b) == 1.0 && SameDirection(a, x) && SameDirection(b, x)
    ensures a == b
  {
    var j :| j > 0.0 && b == Scale(j, x);
    assert x == Scale(1.0 / j, b);
    PositiveScaleSame(1.0 / j, b);
    SameDirectionTrans(a, x, b);
    UnitsAlike(a, b);
  }

  /** The sign of a dot product survives a positive rescaling of one side. */
  lemma SameDirectionDot(a: V3, b: V3, c: V3)
    requires SameDirection(a, b)
    ensures Dot(b, c) <= 0.0 ==> Dot(a, c) <= 0.0
    ensures Dot(b, c) == 0.0 ==> Dot(a, c) == 0.0
    ensures Dot(b, c) > 0.0 ==> Dot(a, c) > 0.0
  {
    var k :| k > 0.0 && a == Scale(k, b);
    DotScale(k, b, c);
  }

  lemma CrossScaleRight(a: V3, k: real, b: V3)
    ensures Cross(a, Scale(k, b)) == Scale(k, Cross(a, b))
  {
    assert a.y * (k * b.z) - a.z * (k * b.y) == k * (a.y * b.z - a.z * b.y);
    assert a.z * (k * b.x) - a.x * (k * b.z) == k * (a.z * b.x - a.x * b.z);
    assert a.x * (k * b.y) - a.y * (k * b.x) == k * (a.x * b.y - a.y * b.x);
  }

  lemma CrossNegSwap(a: V3, b: V3)
    ensures Cross(b, Neg(a)) == Cross(a, b)
  {
  }

  // ---------------------------------------------------------------- the ray2 frame

  /**
   * W = normalize(w0), U = normalize(up x W), V = normalize(W x U): the basis both `ray2`
   * cameras build, from the direction w0 the image plane faces.
   */
  function ViewFrame(sqrt: real -> real, w0: V3, up: V3): (b: Lights.Basis) {
    var w := Unit(sqrt, w0);
    var u := Unit(sqrt, Cross(up, w));
    Lights.Basis(u, Unit(sqrt, Cross(w, u)), w)
  }

  /**
   * Unless `up` is parallel to w0, the frame is orthonormal and right-handed in the
   * sense V = W x U, with W pointing along w0.
   */
  lemma ViewFrameOrthonormal(sqrt: real -> real, w0: V3, up: V3)
    requires IsSqrt(sqrt) && Cross(up, w0) != Zero()
    ensures var b := ViewFrame(sqrt, w0, up);
      Dot(b.u, b.u) == 1.0 && Dot(b.v, b.v) == 1.0 && Dot(b.w, b.w) == 1.0
      && Dot(b.u, b.v) == 0.0 && Dot(b.u, b.w) == 0.0 && Dot(b.v, b.w) == 0.0
      && SameDirection(b.w, w0) && b.v == Cross(b.w, b.u)
  {
    var w := Unit(sqrt, w0);
    FrameW(sqrt, w0, up);
    FrameU(sqrt, w, up);
    FrameV(sqrt, w, Unit(sqrt, Cross(up, w)));
  }

  lemma FrameW(sqrt: real -> real, w0: V3, up: V3)
    requires IsSqrt(sqrt) && Cross(up, w0) != Zero()
    ensures var w := Unit(sqrt, w0);
      Dot(w, w) == 1.0 && SameDirection(w, w0) && Cross(up, w) != Zero()
  {
    var w := Unit(sqrt, w0);
    var kw :| kw > 0.0 && w == Scale(kw, w0);
    CrossScaleRight(up, kw, w0);
    assert Cross(up, w) == Scale(kw, Cross(up, w0));
  }

  lemma FrameU(sqrt: real -> real, w: V3, up: V3)
    requires IsSqrt(sqrt) && Cross(up, w) != Zero()
    ensures var u := Unit(sqrt, Cross(up, w));
      Dot(u, u) == 1.0 && Dot(u, w) == 0.0
  {
    var cr := Cross(up, w);
    CrossPerpendicular(up, w);
    SameDirectionDot(Unit(sqrt, cr), cr, w);
  }

  lemma FrameV(sqrt: real -> real, w: V3, u: V3)
    requires IsSqrt(sqrt) && Dot(w, w) == 1.0 && Dot(u, u) == 1.0 && Dot(u, w) == 0.0
    ensures var v := Unit(sqrt, Cross(w, u));
      v == Cross(w, u) && Dot(v, v) == 1.0 && Dot(u, v) == 0.0 && Dot(v, w) == 0.0
  {
    var c2 := Cross(w, u);
    Lagrange(w, u);
    assert Dot(w, u) == 0.0;
    assert Dot(c2, c2) == 1.0 * 1.0 - 0.0 * 0.0;
    UnitOfUnit(sqrt, c2);
    CrossPerpendicular(w, u);
  }

  /** normalize leaves a unit vector unchanged. */
  lemma UnitOfUnit(sqrt: real -> real, a: V3)
    requires IsSqrt(sqrt) && Dot(a, a) == 1.0
    ensures Unit(sqrt, a) == a
  {
    PositiveScaleSame(1.0, a);
    assert Scale(1.0, a) == a;
    UnitsOfSame(Unit(sqrt, a), a, a);
  }

  // ---------------------------------------------------------------- ray2 init

  /** normalize keeps a dot product's sign. */
  lemma UnitDot(sqrt: real -> real, a: V3, c: V3)
    requires IsSqrt(sqrt)
    ensures Dot(a, c) <= 0.0 ==> Dot(Unit(sqrt, a), c) <= 0.0
  {
    if a != Zero() {
      SameDirectionDot(Unit(sqrt, a), a, c);
    }
  }

  /** A positive multiple of normalize(d) points along d. */
  lemma ScaledUnit(sqrt: real -> real, k: real, d: V3)
    requires IsSqrt(sqrt)
    ensures d != Zero() && k > 0.0 ==> SameDirection(Scale(k, Unit(sqrt, d)), d)
  {
    if d != Zero() && k > 0.0 {
      PositiveScaleSame(k, Unit(sqrt, d));
      SameDirectionTrans(Scale(k, Unit(sqrt, d)), Unit(sqrt, d), d);
    }
  }

  /** The image-plane normal `ParallelCamera.init` uses: projNormal, or viewDir when it is zero. */
  function ProjNormal(view: View): (n: V3)
    ensures view.projNormal != Zero() ==> n == view.projNormal
    ensures view.projNormal == Zero() ==> n == view.viewDir
  {
    if view.projNormal == Zero() then view.viewDir else view.projNormal
  }

  /**
   * `ParallelCamera.init`: a zero projNormal is replaced by viewDir; W is projNormal,
   * flipped if needed so that it does not point along viewDir.
   */
  function InitParallel(sqrt: real -> real, view: View): (c: Camera)
    requires IsSqrt(sqrt)
    ensures c.proj == Parallel && c.view == view.(projNormal := ProjNormal(view))
    ensures Dot(c.frame.w, view.viewDir) <= 0.0
    ensures ProjNormal(view) != Zero() ==>
      Dot(c.frame.w, c.frame.w) == 1.0
      && (SameDirection(c.frame.w, ProjNormal(view)) || SameDirection(c.frame.w, Neg(ProjNormal(view))))
    ensures view.viewDir != Zero() ==>
      Dot(c.frame.centerDir, c.frame.centerDir) == 1.0 && SameDirection(c.frame.centerDir, view.viewDir)
  {
    var pn := ProjNormal(view);
    var w0 := if Dot(pn, view.viewDir) > 0.0 then Neg(pn) else pn;
    DotNeg(view.viewDir, pn);
    assert Dot(w0, view.viewDir) <= 0.0;
    var b := ViewFrame(sqrt, w0, view.viewUp);
    UnitDot(sqrt, w0, view.viewDir);
    Camera(Parallel, view.(projNormal := pn), Frame(b.u, b.v, b.w, Unit(sqrt, view.viewDir)))
  }

  /**
   * `PerspectiveCamera.init`: W = -normalize(viewDir), and the centre direction is
   * normalize(viewDir) scaled by projDistance.
   */
  function InitPerspective(sqrt: real -> real, view: View, projDistance: real): (c: Camera)
    requires IsSqrt(sqrt)
    ensures c.proj == Perspective(projDistance) && c.view == view
    ensures view.viewDir != Zero() ==>
      Dot(c.frame.w, c.frame.w) == 1.0 && SameDirection(c.frame.w, Neg(view.viewDir))
    ensures view.viewDir != Zero() && projDistance > 0.0 ==> SameDirection(c.frame.centerDir, view.viewDir)
  {
    var b := ViewFrame(sqrt, Neg(view.viewDir), view.viewUp);
    var cd := Scale(projDistance, Unit(sqrt, view.viewDir));
    ScaledUnit(sqrt, projDistance, view.viewDir);
    Camera(Perspective(projDistance), view, Frame(b.u, b.v, b.w, cd))
  }

  // ---------------------------------------------------------------- ray2 getRay

  /** The window offset of image coordinate x: 2x - 1, scaled by half the extent. */
  function WindowOffset(x: real, extent: real): (o: real)
    ensures x == 0.5 ==> o == 0.0
    ensures x == 0.0 ==> o == -extent / 2.0
    ensures x == 1.0 ==> o == extent / 2.0
  {
    (x * 2.0 - 1.0) * extent / 2.0
  }

  /** The point of the view window at (inU, inV), relative to the window's centre. */
  function WindowVector(c: Camera, inU: real, inV: real): V3 {
    Add(Scale(WindowOffset(inU, c.view.viewWidth), c.frame.u), Scale(WindowOffset(inV, c.view.viewHeight), c.frame.v))
  }

  /**
   * `getRay(outRay, inU, inV)`. The parallel camera shifts the origin across the window
   * and keeps the centre direction; the perspective camera keeps the origin at the eye
   * and aims through the window point at the centre direction's tip.
   */
  function GetRay(sqrt: real -> real, eps: real, c: Camera, inU: real, inV: real): (r: Ray)
    ensures r.start == eps && r.end == PosInf
    ensures c.proj.Parallel? ==> r.direction == c.frame.centerDir
    ensures c.proj.Perspective? ==> r.origin == c.view.viewPoint
  {
    var q := WindowVector(c, inU, inV);
    match c.proj
    case Parallel => Ray(Add(c.view.viewPoint, q), c.frame.centerDir, eps, PosInf)
    case Perspective(_) => Ray(c.view.viewPoint, Unit(sqrt, Add(c.frame.centerDir, q)), eps, PosInf)
  }

  lemma GetRayParts(sqrt: real -> real, eps: real, c: Camera, inU: real, inV: real)
    ensures c.proj.Parallel? ==>
      GetRay(sqrt, eps, c, inU, inV).origin == Add(c.view.viewPoint, WindowVector(c, inU, inV))
    ensures c.proj.Perspective? ==>
      GetRay(sqrt, eps, c, inU, inV).direction == Unit(sqrt, Add(c.frame.centerDir, WindowVector(c, inU, inV)))
  {
  }

  /** Both window offsets are zero at the centre (0.5, 0.5). */
  lemma CentreWindow(c: Camera, h: real)
    requires h == 0.5
    ensures WindowVector(c, h, h) == Zero()
  {
    NoOffset(WindowOffset(h, c.view.viewWidth), c.frame.u, WindowOffset(h, c.view.viewHeight), c.frame.v);
  }

  /** The centre of the image: the parallel ray starts at the view point. */
  lemma ParallelCentre(sqrt: real -> real, eps: real, c: Camera, h: real)
    requires c.proj.Parallel? && h == 0.5
    ensures GetRay(sqrt, eps, c, h, h).origin == c.view.viewPoint
  {
    GetRayParts(sqrt, eps, c, h, h);
    CentreWindow(c, h);
    AddZero(c.view.viewPoint, WindowVector(c, h, h));
  }

  /**
   * A perspective camera whose centre direction points along viewDir, as `init` makes it
   * for a positive projDistance, looks along viewDir at the image centre.
   */
  lemma PerspectiveCentre(sqrt: real -> real, eps: real, c: Camera, h: real)
    requires IsSqrt(sqrt) && c.proj.Perspective? && h == 0.5
    requires c.view.viewDir != Zero() && SameDirection(c.frame.centerDir, c.view.viewDir)
    ensures SameDirection(GetRay(sqrt, eps, c, h, h).direction, c.view.viewDir)
  {
    GetRayParts(sqrt, eps, c, h, h);
    CentreWindow(c, h);
    var cd := c.frame.centerDir;
    AddZero(cd, WindowVector(c, h, h));
    var k :| k > 0.0 && cd == Scale(k, c.view.viewDir);
    NonZeroScale(k, c.view.viewDir);
    SameDirectionTrans(Unit(sqrt, cd), cd, c.view.viewDir);
  }

  lemma NonZeroScale(k: real, v: V3)
    requires k > 0.0 && v != Zero()
    ensures Scale(k, v) != Zero()
  {
    if v.x != 0.0 {
      assert k * v.x != 0.0;
    } else if v.y != 0.0 {
      assert k * v.y != 0.0;
    } else {
      assert k * v.z != 0.0;
    }
  }

  /**
   * Over an orthonormal frame, the window vector has coordinates (2u - 1) w / 2 along U and
   * (2v - 1) h / 2 along V, and none along W: it lies in the image plane.
   */
  lemma WindowCoordinates(c: Camera, inU: real, inV: real)
    requires Dot(c.frame.u, c.frame.u) == 1.0 && Dot(c.frame.v, c.frame.v) == 1.0
    requires Dot(c.frame.u, c.frame.v) == 0.0 && Dot(c.frame.u, c.frame.w) == 0.0 && Dot(c.frame.v, c.frame.w) == 0.0
    ensures Dot(WindowVector(c, inU, inV), c.frame.u) == WindowOffset(inU, c.view.viewWidth)
    ensures Dot(WindowVector(c, inU, inV), c.frame.v) == WindowOffset(inV, c.view.viewHeight)
    ensures Dot(WindowVector(c, inU, inV), c.frame.w) == 0.0
  {
    var a := WindowOffset(inU, c.view.viewWidth);
    var b := WindowOffset(inV, c.view.viewHeight);
    var u := c.frame.u;
    var v := c.frame.v;
    DotAddScaled(a, u, b, v, u);
    DotAddScaled(a, u, b, v, v);
    DotAddScaled(a, u, b, v, c.frame.w);
    assert Dot(v, u) == 0.0;
  }

  lemma DotAddScaled(a: real, p: V3, b: real, q: V3, m: V3)
    ensures Dot(Add(Scale(a, p), Scale(b, q)), m) == a * Dot(p, m) + b * Dot(q, m)
  {
    assert (a * p.x + b * q.x) * m.x == a * (p.x * m.x) + b * (q.x * m.x);
    assert (a * p.y + b * q.y) * m.y == a * (p.y * m.y) + b * (q.y * m.y);
    assert (a * p.z + b * q.z) * m.z == a * (p.z * m.z) + b * (q.z * m.z);
  }

  /**
   * The image coordinates of a window offset: the inverse of `getRay`'s (u, v) mapping
   * along one axis, for a window of non-zero extent.
   */
  function ImageCoordinate(offset: real, extent: real): real
    requires extent != 0.0
  {
    (offset * 2.0 / extent + 1.0) / 2.0
  }

  lemma ImageCoordinateInverts(x: real, extent: real)
    requires extent != 0.0
    ensures ImageCoordinate(WindowOffset(x, extent), extent) == x
  {
    var o := WindowOffset(x, extent);
    assert o * 2.0 == (x * 2.0 - 1.0) * extent;
    DivCancel(x * 2.0 - 1.0, extent);
  }

  lemma DivCancel(y: real, e: real)
    requires e != 0.0
    ensures (y * e) / e == y
  {
  }

  /**
   * The parallel camera's map from image to rays is one to one: over an orthonormal frame
   * and a window of non-zero size, the image point is recovered from the ray's origin.
   */
  lemma ParallelRayRecoversImagePoint(sqrt: real -> real, eps: real, c: Camera, inU: real, inV: real)
    requires c.proj.Parallel? && c.view.viewWidth != 0.0 && c.view.viewHeight != 0.0
    requires Dot(c.frame.u, c.frame.u) == 1.0 && Dot(c.frame.v, c.frame.v) == 1.0
    requires Dot(c.frame.u, c.frame.v) == 0.0 && Dot(c.frame.u, c.frame.w) == 0.0 && Dot(c.frame.v, c.frame.w) == 0.0
    ensures var p := Sub(GetRay(sqrt, eps, c, inU, inV).origin, c.view.viewPoint);
      ImageCoordinate(Dot(p, c.frame.u), c.view.viewWidth) == inU
      && ImageCoordinate(Dot(p, c.frame.v), c.view.viewHeight) == inV
      && Dot(p, c.frame.w) == 0.0
  {
    var q := WindowVector(c, inU, inV);
    assert Sub(Add(c.view.viewPoint, q), c.view.viewPoint) == q;
    WindowCoordinates(c, inU, inV);
    ImageCoordinateInverts(inU, c.view.viewWidth);
    ImageCoordinateInverts(inV, c.view.viewHeight);
  }

  /**
   * The perspective ray passes through the window point: at parameter |centerDir + q| it
   * reaches the eye plus the centre direction plus the window vector q.
   */
  lemma PerspectiveRayThroughWindow(sqrt: real -> real, eps: real, c: Camera, inU: real, inV: real)
    requires IsSqrt(sqrt) && c.proj.Perspective?
    requires Add(c.frame.centerDir, WindowVector(c, inU, inV)) != Zero()
    ensures var a := Add(c.frame.centerDir, WindowVector(c, inU, inV));
      PointAt(GetRay(sqrt, eps, c, inU, inV), Len(sqrt, a)) == Add(c.view.viewPoint, a)
  {
    var a := Add(c.frame.centerDir, WindowVector(c, inU, inV));
    var l := Len(sqrt, a);
    NormalizeIs(sqrt, a);
    assert Unit(sqrt, a) == Scale(1.0 / l, a);
    assert l * (1.0 / l) == 1.0;
    assert Scale(l, Scale(1.0 / l, a)) == a;
  }

  // ---------------------------------------------------------------- ray1 cameras

  /** A `ray1` camera; its basis is None until the first `getRay` builds it. */
  datatype Camera1 = Camera1(proj: Projection, view: View, basis: Option<Lights.Basis>)

  /**
   * `ray1` `init`: W = normalize(-viewDir), U = normalize(viewDir x viewUp), V = W x U,
   * the same frame `RectangleLight.init` builds from its normal and up direction.
   */
  function Init1(sqrt: real -> real, c: Camera1): (r: Camera1)
    ensures r.basis.Some? && r.proj == c.proj && r.view == c.view
  {
    c.(basis := Some(Lights.RectBasis(sqrt, c.view.viewDir, c.view.viewUp)))
  }

  /** The window vector remapU(inU) U + remapV(inV) V over a `ray1` basis. */
  function Offset1(c: Camera1, b: Lights.Basis, inU: real, inV: real): V3 {
    Add(Scale(Remap(inU, c.view.viewWidth), b.u), Scale(Remap(inV, c.view.viewHeight), b.v))
  }

  /** `remapU` / `remapV`: [0, 1] onto [-extent / 2, extent / 2] by the affine map of the source. */
  function Remap(x: real, extent: real): (r: real) {
    (x - 0.0) * (extent / 2.0 - -extent / 2.0) / (1.0 - 0.0) + -extent / 2.0
  }

  /** Remap sends 0 and 1 to the window's edges and 1/2 to its centre, and is affine with slope `extent`. */
  lemma RemapAffine(x: real, y: real, extent: real)
    ensures Remap(0.0, extent) == -extent / 2.0 && Remap(1.0, extent) == extent / 2.0
    ensures Remap(0.5, extent) == 0.0
    ensures Remap(x, extent) - Remap(y, extent) == (x - y) * extent
    ensures Remap(x, extent) == WindowOffset(x, extent)
  {
  }

  /**
   * `ray1` `getRay`: builds the basis first if it is missing. The orthographic camera
   * moves the origin across the window and looks along viewDir; the perspective camera
   * starts at the eye and aims at -projDistance W + remapU U + remapV V, unnormalised.
   */
  function GetRay1(sqrt: real -> real, eps: real, c: Camera1, inU: real, inV: real): (res: (Ray, Camera1))
    ensures res.1 == (if c.basis.None? then Init1(sqrt, c) else c)
    ensures res.0.start == eps && res.0.end == PosInf
    ensures c.proj.Parallel? ==> res.0.direction == c.view.viewDir
    ensures c.proj.Perspective? ==> res.0.origin == c.view.viewPoint
  {
    var c' := if c.basis.None? then Init1(sqrt, c) else c;
    var b := c'.basis.value;
    var q := Offset1(c, b, inU, inV);
    match c.proj
    case Parallel => (Ray(Add(c.view.viewPoint, q), c.view.viewDir, eps, PosInf), c')
    case Perspective(d) => (Ray(c.view.viewPoint, Add(Neg(Scale(d, b.w)), q), eps, PosInf), c')
  }

  /**
   * The lazy initialisation is invisible: a camera gives the same ray whether or not its
   * basis was built before, and the first call leaves it built, so later calls change
   * nothing.
   */
  lemma LazyInitInvisible(sqrt: real -> real, eps: real, c: Camera1, inU: real, inV: real, u2: real, v2: real)
    requires c.basis.None?
    ensures GetRay1(sqrt, eps, c, inU, inV).0 == GetRay1(sqrt, eps, Init1(sqrt, c), inU, inV).0
    ensures var c' := GetRay1(sqrt, eps, c, inU, inV).1;
      c'.basis.Some? && GetRay1(sqrt, eps, c', u2, v2).1 == c'
  {
  }

  lemma ScaleByZero(a: real, u: V3)
    requires a == 0.0
    ensures Scale(a, u) == Zero()
  {
    assert a * u.x == 0.0;
    assert a * u.y == 0.0;
    assert a * u.z == 0.0;
  }

  lemma AddZero(p: V3, z: V3)
    requires z == Zero()
    ensures Add(p, z) == p && Add(z, p) == p
  {
  }

  lemma AddZeros(p: V3, q: V3)
    requires p == Zero() && q == Zero()
    ensures Add(p, q) == Zero()
  {
  }

  lemma NoOffset(a: real, u: V3, b: real, v: V3)
    requires a == 0.0 && b == 0.0
    ensures Add(Scale(a, u), Scale(b, v)) == Zero()
  {
    ScaleByZero(a, u);
    ScaleByZero(b, v);
    AddZeros(Scale(a, u), Scale(b, v));
  }

  lemma GetRay1Parts(sqrt: real -> real, eps: real, c: Camera1, inU: real, inV: real)
    ensures var r := GetRay1(sqrt, eps, c, inU, inV);
      var q := Offset1(c, r.1.basis.value, inU, inV);
      (c.proj.Parallel? ==> r.0.origin == Add(c.view.viewPoint, q))
      && (c.proj.Perspective? ==> r.0.direction == Add(Neg(Scale(c.proj.projDistance, r.1.basis.value.w)), q))
  {
  }

  /** At the image centre the orthographic ray starts at the view point. */
  lemma OrthographicCentre(sqrt: real -> real, eps: real, c: Camera1, h: real)
    requires c.proj.Parallel? && h == 0.5
    ensures GetRay1(sqrt, eps, c, h, h).0.origin == c.view.viewPoint
  {
    var b := GetRay1(sqrt, eps, c, h, h).1.basis.value;
    GetRay1Parts(sqrt, eps, c, h, h);
    RemapAffine(h, h, c.view.viewWidth);
    RemapAffine(h, h, c.view.viewHeight);
    NoOffset(Remap(h, c.view.viewWidth), b.u, Remap(h, c.view.viewHeight), b.v);
    AddZero(c.view.viewPoint, Offset1(c, b, h, h));
  }

  /** At the image centre the `ray1` perspective ray is -projDistance W. */
  lemma PerspectiveCentre1(sqrt: real -> real, eps: real, c: Camera1, h: real)
    requires c.proj.Perspective? && h == 0.5
    ensures var b := GetRay1(sqrt, eps, c, h, h).1.basis.value;
      GetRay1(sqrt, eps, c, h, h).0.direction == Neg(Scale(c.proj.projDistance, b.w))
  {
    var b := GetRay1(sqrt, eps, c, h, h).1.basis.value;
    GetRay1Parts(sqrt, eps, c, h, h);
    RemapAffine(h, h, c.view.viewWidth);
    RemapAffine(h, h, c.view.viewHeight);
    NoOffset(Remap(h, c.view.viewWidth), b.u, Remap(h, c.view.viewHeight), b.v);
    AddZero(Neg(Scale(c.proj.projDistance, b.w)), Offset1(c, b, h, h));
  }

  /**
   * Both generations build the same frame for a perspective camera: whenever viewDir is
   * not parallel to viewUp, the `ray1` basis equals the `ray2` one.
   */
  lemma Ray1FrameMatchesRay2(sqrt: real -> real, viewDir: V3, viewUp: V3)
    requires IsSqrt(sqrt) && Cross(viewDir, viewUp) != Zero()
    ensures Lights.RectBasis(sqrt, viewDir, viewUp) == ViewFrame(sqrt, Neg(viewDir), viewUp)
  {
    var a := Lights.RectBasis(sqrt, viewDir, viewUp);
    var b := ViewFrame(sqrt, Neg(viewDir), viewUp);
    CrossNegSwap(viewDir, viewUp);
    assert Cross(viewUp, Neg(viewDir)) == Cross(viewDir, viewUp);
    ViewFrameOrthonormal(sqrt, Neg(viewDir), viewUp);
    Lights.RectBasisOrthonormal(sqrt, viewDir, viewUp);
    assert a.w == b.w;
    // U: both normalise a positive multiple of viewDir x viewUp.
    var kw :| kw > 0.0 && b.w == Scale(kw, Neg(viewDir));
    CrossScaleRight(viewUp, kw, Neg(viewDir));
    var cr := Cross(viewDir, viewUp);
    assert Cross(viewUp, b.w) == Scale(kw, cr);
    assert Scale(kw, cr) != Zero();
    SameDirectionTrans(b.u, Scale(kw, cr), cr);
    UnitsOfSame(a.u, b.u, cr);
    UnitOfUnit(sqrt, Cross(b.w, b.u));
  }
}
