/**
 * Light sources and their sampling records (`PointLight`, `DirectionalLight`,
 * `RectangleLight`). Sampling a light at a shading point yields the direction toward the
 * light, the attenuation, the distance to the sampled point and the probability density
 * with which it was chosen.
 *
 * The random draws a rectangle light takes from `java.util.Random` are parameters.
 */
module Lights {
  import opened Wrappers
  import opened Geometry

  /** The orthonormal frame of a rectangle light: U along its width, V along its height, W its back. */
  datatype Basis = Basis(u: V3, v: V3, w: V3)

  datatype Light =
    | PointLight(intensity: Color, position: V3)
    | DirectionalLight(intensity: Color, direction: V3)
    | RectangleLight(intensity: Color, position: V3, normalDir: V3, upDir: V3,
                     width: real, height: real, basis: Option<Basis>)

  /** `LightSamplingRecord`; a directional light is infinitely far away. */
  datatype LightSample = LightSample(direction: V3, attenuation: real, distance: Ext,
                                     probability: real)

  /** `a.distSq(b)`. */
  function DistSq(a: V3, b: V3): real {
    Dot(Sub(a, b), Sub(a, b))
  }

  /**
   * `1.0 / d2` for a squared distance. Java gives +infinity when the shading point is the
   * light's own point; the model gives 0 there, and the shaders discard that sample anyway
   * because its direction is zero.
   */
  function InverseSquare(d2: real): (r: real)
    ensures d2 != 0.0 ==> r * d2 == 1.0
    ensures d2 > 0.0 ==> r > 0.0
  {
    if d2 == 0.0 then 0.0 else 1.0 / d2
  }

  /** A default rectangle light: a unit square at the origin facing -z, not yet initialised. */
  function DefaultRectangleLight(): Light {
    RectangleLight(V3(1.0, 1.0, 1.0), Zero(), V3(0.0, 0.0, -1.0), V3(0.0, 1.0, 0.0), 1.0, 1.0, None)
  }

  /** `RectangleLight.init`: W = -n, U = n x up (both normalised), V = W x U. */
  function RectBasis(sqrt: real -> real, normalDir: V3, upDir: V3): (b: Basis)
    ensures b.v == Cross(b.w, b.u)
  {
    var w := Unit(sqrt, Neg(normalDir));
    var u := Unit(sqrt, Cross(normalDir, upDir));
    Basis(u, Cross(w, u), w)
  }

  /**
   * The rectangle's frame is orthonormal whenever the normal is not parallel to the up
   * direction, with W facing away from the lit side.
   */
  lemma RectBasisOrthonormal(sqrt: real -> real, normalDir: V3, upDir: V3)
    requires IsSqrt(sqrt) && Cross(normalDir, upDir) != Zero()
    ensures var b := RectBasis(sqrt, normalDir, upDir);
      Dot(b.u, b.u) == 1.0 && Dot(b.v, b.v) == 1.0 && Dot(b.w, b.w) == 1.0
      && Dot(b.u, b.v) == 0.0 && Dot(b.u, b.w) == 0.0 && Dot(b.v, b.w) == 0.0
      && SameDirection(b.w, Neg(normalDir))
  {
    var b := RectBasis(sqrt, normalDir, upDir);
    var cr := Cross(normalDir, upDir);
    if normalDir == Zero() {
      CrossZero(upDir);
    }
    assert Neg(normalDir) != Zero();
    var ku :| ku > 0.0 && b.u == Scale(ku, cr);
    var kw :| kw > 0.0 && b.w == Scale(kw, Neg(normalDir));
    CrossPerpendicular(normalDir, upDir);
    DotNeg(cr, normalDir);
    DotScale(ku, cr, b.w);
    DotScale(kw, Neg(normalDir), cr);
    assert Dot(b.u, b.w) == 0.0;
    CrossPerpendicular(b.w, b.u);
    Lagrange(b.w, b.u);
    assert Dot(b.v, b.v) == Dot(b.w, b.w) * Dot(b.u, b.u) - 0.0 * 0.0;
  }

  /** `Light.init`: only the rectangle light computes anything. */
  function Init(sqrt: real -> real, l: Light): (r: Light)
    ensures r.RectangleLight? <==> l.RectangleLight?
    ensures !l.RectangleLight? ==> r == l
    ensures l.RectangleLight? ==>
      r.basis == Some(RectBasis(sqrt, l.normalDir, l.upDir)) && r == l.(basis := r.basis)
  {
    match l
    case RectangleLight(_, _, n, up, _, _, _) => l.(basis := Some(RectBasis(sqrt, n, up)))
    case _ => l
  }

  /** A draw of `Random.nextDouble()`, in [0, 1). */
  predicate IsDraw(r: real) { 0.0 <= r < 1.0 }

  /**
   * x lies in the span of an extent centred on zero: [-e/2, e/2) for a positive extent,
   * (e/2, -e/2] for a negative one (the setters accept any size), just 0 for no extent.
   */
  predicate InExtent(x: real, e: real) {
    (e > 0.0 ==> -e / 2.0 <= x < e / 2.0)
    && (e == 0.0 ==> x == 0.0)
    && (e < 0.0 ==> e / 2.0 < x <= -e / 2.0)
  }

  /** `min + (max - min) * r` for the rectangle's extent centred on zero. */
  function Spread(extent: real, r: real): (x: real)
    ensures IsDraw(r) ==> InExtent(x, extent)
  {
    DrawScales(extent, r);
    OffsetInExtent(extent, extent * r);
    assert (extent / 2.0 - -extent / 2.0) * r == extent * r;
    assert IsDraw(r) ==> InExtent(-extent / 2.0 + extent * r, extent);
    assert -extent / 2.0 + (extent / 2.0 - -extent / 2.0) * r == -extent / 2.0 + extent * r;
    -extent / 2.0 + (extent / 2.0 - -extent / 2.0) * r
  }

  /** An offset that a draw scales into [0, e) or (e, 0] puts -e/2 + offset in the extent. */
  lemma OffsetInExtent(e: real, er: real)
    ensures (e > 0.0 ==> 0.0 <= er < e) && (e < 0.0 ==> e < er <= 0.0) && (e == 0.0 ==> er == 0.0)
            ==> InExtent(-e / 2.0 + er, e)
  {
  }

  /** A draw scales an extent e into [0, e) when e is positive and into (e, 0] when negative. */
  lemma DrawScales(e: real, r: real)
    ensures (e / 2.0 - -e / 2.0) * r == e * r
    ensures IsDraw(r) ==>
      (e > 0.0 ==> 0.0 <= e * r < e) && (e < 0.0 ==> e < e * r <= 0.0) && (e == 0.0 ==> e * r == 0.0)
  {
    assert e / 2.0 - -e / 2.0 == e;
    assert e - e * r == e * (1.0 - r);
    if !IsDraw(r) {
    } else if e > 0.0 {
      assert e * (1.0 - r) > 0.0;
    } else if e < 0.0 {
      assert (-e) * (1.0 - r) > 0.0;
      assert (-e) * r >= 0.0;
    }
  }

  /** The point `sample` picks on a rectangle light: position + randY U + randX V. */
  function RectPoint(l: Light, r1: real, r2: real): V3
    requires l.RectangleLight? && l.basis.Some?
  {
    var b := l.basis.value;
    Add(Add(l.position, Scale(Spread(l.height, r2), b.u)), Scale(Spread(l.width, r1), b.v))
  }

  /**
   * `Light.sample` at shading point p. The rectangle light initialises its basis on first
   * use, so sampling returns the light too; r1 and r2 are the two random draws.
   */
  function Sample(sqrt: real -> real, l: Light, p: V3, r1: real, r2: real): (res: (LightSample, Light))
    requires IsSqrt(sqrt)
    ensures res.1 == (if l.RectangleLight? && l.basis.None? then Init(sqrt, l) else l)
    ensures res.0.distance.Fin? <==> !l.DirectionalLight?
    ensures !l.RectangleLight? ==> res.0.probability == 1.0
    ensures l.RectangleLight? ==> res.0.probability == Density(l.width, l.height)
  {
    match l
    case PointLight(_, pos) =>
      var dir := Sub(pos, p);
      (LightSample(dir, InverseSquare(DistSq(p, pos)), Fin(Len(sqrt, dir)), 1.0), l)
    case DirectionalLight(_, d) =>
      (LightSample(d, 1.0, PosInf, 1.0), l)
    case RectangleLight(_, pos, _, _, w, h, b) =>
      var l' := if b.None? then Init(sqrt, l) else l;
      var basis := l'.basis.value;
      var point := RectPoint(l', r1, r2);
      var dir := Sub(point, p);
      var att := InverseSquare(DistSq(p, point)) * Dot(Unit(sqrt, dir), basis.w);
      (LightSample(dir, att, Fin(Len(sqrt, dir)), Density(w, h)), l')
  }

  /**
   * The uniform density `1 / (height * width)` over a rectangle: its product with the
   * signed area is 1, so it has the area's sign. For a zero area Java divides by zero and
   * gets an infinite density; the model reports 0 there, and `Shaders.Contribution`
   * turns that density into the zero term Java's division by infinity gives.
   */
  function Density(w: real, h: real): (p: real)
    ensures h * w != 0.0 ==> p * (h * w) == 1.0
    ensures h * w == 0.0 ==> p == 0.0
    ensures p > 0.0 <==> h * w > 0.0
    ensures p < 0.0 <==> h * w < 0.0
  {
    var area := h * w;
    if area == 0.0 then 0.0
    else
      Reciprocal(area);
      1.0 / area
  }

  lemma Reciprocal(a: real)
    requires a != 0.0
    ensures (1.0 / a) * a == 1.0
    ensures a > 0.0 ==> 1.0 / a > 0.0
    ensures a < 0.0 ==> 1.0 / a < 0.0
  {
  }

  /** A point light's sample points at the light, at its distance, with inverse-square falloff. */
  lemma PointLightSample(sqrt: real -> real, intensity: Color, pos: V3, p: V3, r1: real, r2: real)
    requires IsSqrt(sqrt)
    ensures var s := Sample(sqrt, PointLight(intensity, pos), p, r1, r2).0;
      Add(p, s.direction) == pos
      && s.distance.Fin? && s.distance.v * s.distance.v == DistSq(p, pos)
      && (p != pos ==> s.attenuation * s.distance.v * s.distance.v == 1.0)
      && s.probability == 1.0
  {
    var s := Sample(sqrt, PointLight(intensity, pos), p, r1, r2).0;
    LenSquared(sqrt, Sub(pos, p));
    DistSymmetric(p, pos);
    if p != pos {
      assert Sub(p, pos) != Zero();
      DotSelfNonNegative(Sub(p, pos));
    }
  }

  lemma DistSymmetric(a: V3, b: V3)
    ensures DistSq(a, b) == Dot(Sub(b, a), Sub(b, a))
  {
  }

  /** A directional light ignores the shading point. */
  lemma DirectionalIgnoresPoint(sqrt: real -> real, l: Light, p: V3, q: V3, r1: real, r2: real)
    requires IsSqrt(sqrt) && l.DirectionalLight?
    ensures Sample(sqrt, l, p, r1, r2) == Sample(sqrt, l, q, r1, r2)
    ensures Sample(sqrt, l, p, r1, r2).0 == LightSample(l.direction, 1.0, PosInf, 1.0)
  {
  }

  /** The rectangle light's draws land on the rectangle. */
  lemma RectangleSampleOnLight(sqrt: real -> real, l: Light, p: V3, r1: real, r2: real)
    requires IsSqrt(sqrt) && l.RectangleLight? && IsDraw(r1) && IsDraw(r2)
    ensures exists x, y :: (InExtent(x, l.width) && InExtent(y, l.height)
        && OnRectangle(Sample(sqrt, l, p, r1, r2), p, x, y))
  {
    var res := Sample(sqrt, l, p, r1, r2);
    var point := RectPoint(res.1, r1, r2);
    var x, y := Spread(l.width, r1), Spread(l.height, r2);
    assert res.0.direction == Sub(point, p);
    AddSubCancel(p, point);
    assert OnRectangle(res, p, x, y);
  }

  lemma AddSubCancel(p: V3, q: V3)
    ensures Add(p, Sub(q, p)) == q
  {
  }

  /** The sampled point p + direction is position + y U + x V in the light's frame. */
  ghost predicate OnRectangle(res: (LightSample, Light), p: V3, x: real, y: real)
    requires res.1.RectangleLight? && res.1.basis.Some?
  {
    var b := res.1.basis.value;
    Add(p, res.0.direction) == Add(Add(res.1.position, Scale(y, b.u)), Scale(x, b.v))
  }

  /**
   * The rectangle light's attenuation has the sign of direction . W: positive in front of
   * the light and negative behind it, although the light is described as one-sided.
   */
  lemma RectangleAttenuationSign(sqrt: real -> real, l: Light, p: V3, r1: real, r2: real)
    requires IsSqrt(sqrt) && l.RectangleLight?
    ensures var (s, l') := Sample(sqrt, l, p, r1, r2);
      s.direction != Zero() ==>
        (s.attenuation > 0.0 <==> Dot(s.direction, l'.basis.value.w) > 0.0)
        && (s.attenuation < 0.0 <==> Dot(s.direction, l'.basis.value.w) < 0.0)
  {
    var (s, l') := Sample(sqrt, l, p, r1, r2);
    var q := RectPoint(l', r1, r2);
    var w := l'.basis.value.w;
    assert s.direction == Sub(q, p);
    assert s.attenuation == InverseSquare(DistSq(p, q)) * Dot(Unit(sqrt, Sub(q, p)), w);
    if s.direction != Zero() {
      AttenuationSign(sqrt, p, q, w);
    }
  }

  /** (1 / |q - p|^2) (unit(q - p) . w) has the sign of (q - p) . w. */
  lemma AttenuationSign(sqrt: real -> real, p: V3, q: V3, w: V3)
    requires IsSqrt(sqrt) && Sub(q, p) != Zero()
    ensures var a := InverseSquare(DistSq(p, q)) * Dot(Unit(sqrt, Sub(q, p)), w);
      (a > 0.0 <==> Dot(Sub(q, p), w) > 0.0) && (a < 0.0 <==> Dot(Sub(q, p), w) < 0.0)
  {
    var dir := Sub(q, p);
    assert Sub(p, q) == Neg(dir);
    DotSelfNonNegative(dir);
    assert DistSq(p, q) == Dot(dir, dir);
    var k := InverseSquare(DistSq(p, q));
    assert k > 0.0;
    var u := Unit(sqrt, dir);
    var c :| c > 0.0 && u == Scale(c, dir);
    DotScale(c, dir, w);
    SignOfProduct(k, c, Dot(dir, w));
  }

  lemma SignOfProduct(k: real, c: real, d: real)
    requires k > 0.0 && c > 0.0
    ensures k * (c * d) > 0.0 <==> d > 0.0
    ensures k * (c * d) < 0.0 <==> d < 0.0
  {
    assert k * c > 0.0;
    assert k * (c * d) == (k * c) * d;
  }
}
