/**
 * `ray2.RayTracer.shadeRay` and the shaders' `shade` methods, which call one another:
 * a ray is traced to its first hit and shaded by the hit surface's shader; glass and
 * glazes trace further rays one level deeper, and below depth `MAX_DEPTH` every ray is
 * black. The decreasing measure on the two functions is the proof that no path recurses
 * without raising the depth.
 *
 * What the tracer takes from outside is one `Env`: the square root, the offset epsilon
 * of `Ray.makeOffsetRay` and `makeOffsetSegment`, the BRDF of the non-Lambertian BRDF
 * shaders, the sphere's texture-coordinate map, and the random draws the light sampling
 * uses (a function of the ray being shaded and the light's index).
 */
module Tracer {
  import opened Wrappers
  import opened Geometry
  import opened Shaders
  import opened Surfaces
  import Lights
  import Cubemaps
  import BvhTraversal
  import SurfaceHits
  import Scenes

  /** `RayTracer.MAX_DEPTH`. */
  const MaxDepth: int := 12

  datatype Env = Env(
    sqrt: real -> real,
    eps: real,
    brdf: (nat, V3, V3, V3, Color) -> Color,
    uvOf: V3 -> V2,
    draw: (Ray, nat) -> (real, real))

  /** The scene is initialised and its cubemap, if any, holds a full cross image. */
  ghost predicate Ready(env: Env, s: Scenes.Scene) {
    IsSqrt(env.sqrt) && Scenes.Built(s) && (s.cubemap.Some? ==> Cubemaps.Valid(s.cubemap.value))
  }

  /** The number of levels left before the depth cut-off. */
  function Levels(depth: int): nat {
    if depth > MaxDepth then 0 else MaxDepth + 1 - depth
  }

  /** Below the cut-off one level deeper leaves one level fewer; past it none are left. */
  lemma LevelsDrop(depth: int)
    ensures depth <= MaxDepth ==> Levels(depth + 1) < Levels(depth)
    ensures depth > MaxDepth ==> Levels(depth + 1) == Levels(depth) == 0
  {
  }

  /** `new Ray(o, d)` followed by `makeOffsetRay`: the open ray from just past o. */
  function OffsetRay(env: Env, o: V3, d: V3): (r: Ray)
    ensures r.origin == o && r.direction == d && r.start == env.eps && r.end == PosInf
  {
    Ray(o, d, env.eps, PosInf)
  }

  /** What a ray that hits nothing sees: the cubemap in its direction, else the background. */
  function Background(s: Scenes.Scene, r: Ray): (c: Color)
    requires s.cubemap.Some? ==> Cubemaps.Valid(s.cubemap.value)
    ensures s.cubemap.None? ==> c == s.backColor
  {
    match s.cubemap
    case Some(cm) => Cubemaps.Evaluate(cm, r.direction)
    case None => s.backColor
  }

  /**
   * `Shader.isShadowed`: a segment from the shading point along the normalised light
   * direction, from just past the point to the light's distance, blocked by any surface.
   */
  function Shadowed(env: Env, s: Scenes.Scene, rec: Record, ls: Lights.LightSample): bool
    requires Ready(env, s)
  {
    Scenes.AnyIntersection(env.sqrt, s, ShadowRay(env, rec, ls))
  }

  function ShadowRay(env: Env, rec: Record, ls: Lights.LightSample): (r: Ray)
    ensures r.origin == rec.location && r.direction == Unit(env.sqrt, ls.direction)
    ensures r.start == env.eps && r.end == ls.distance
  {
    Ray(rec.location, Unit(env.sqrt, ls.direction), env.eps, ls.distance)
  }

  /**
   * `RayTracer.shadeRay`. Past the maximum depth the colour is black; a ray that hits
   * nothing takes the background; otherwise the hit surface's shader shades it at the same
   * depth. The record is the hit surface's own (its t is the hit the BVH found).
   */
  function ShadeRay(env: Env, s: Scenes.Scene, r: Ray, depth: int): (c: Color)
    requires Ready(env, s)
    ensures depth > MaxDepth ==> c == Zero()
    ensures depth <= MaxDepth && !Scenes.FirstIntersection(env.sqrt, s, r, None).0 ==> c == Background(s, r)
    decreases Levels(depth), 1, 0, 0
  {
    if depth > MaxDepth then Zero()
    else
      var res := Scenes.FirstIntersection(env.sqrt, s, r, None);
      Scenes.FirstIntersectionRecord(env.sqrt, s, r);
      if !res.0 then Background(s, r)
      else
        var surf := res.1.value.surf;
        match SurfaceHits.RecordOf(env.sqrt, env.uvOf, surf, r)
        // Not taken: the BVH reports only surfaces whose own intersection succeeded.
        case None => Zero()
        case Some(rec) => Shade(env, s, surf.shader, r, rec, depth)
  }

  /**
   * `shader.shade(outIntensity, scene, ray, record, depth)`, dispatched on the kind of
   * shader.
   */
  function Shade(env: Env, s: Scenes.Scene, sh: Shader, r: Ray, rec: Record, depth: int): (c: Color)
    requires Ready(env, s)
    decreases Levels(depth), if depth > MaxDepth then 2 else 0, Size(sh), 2
  {
    LevelsDrop(depth);
    match sh
    case Lambertian(_, _) => ShadeBRDF(env, s, sh, r, rec)
    case OtherBRDF(_, _, _) => ShadeBRDF(env, s, sh, r, rec)
    case RGBNormals => NormalColor(rec.normal)
    case Glass(eta) => ShadeGlass(env, s, eta, r, rec, depth)
    case Glazed(eta, sub) =>
      var refl := ShadeRay(env, s, GlazeMirrorRay(env, r, rec), depth + 1);
      var under := Shade(env, s, sub, r, rec, depth + 1);
      Blend(GlazeWeight(env, eta, r, rec), refl, under)
  }

  /**
   * `Glass.shade`: the reflected colour alone under total internal reflection, otherwise
   * the reflected and refracted colours blended by the Fresnel weight.
   */
  function ShadeGlass(env: Env, s: Scenes.Scene, eta: real, r: Ray, rec: Record, depth: int): Color
    requires Ready(env, s)
    decreases Levels(depth), if depth > MaxDepth then 2 else 0, Size(Glass(eta)), 1
  {
    GlassTrace(env, s, GlassInterface(env.sqrt, eta, r.origin, rec), r, rec, depth)
  }

  /** The rest of `Glass.shade` once the interface g at the hit is known. */
  function GlassTrace(env: Env, s: Scenes.Scene, g: Interface, r: Ray, rec: Record, depth: int): Color
    requires Ready(env, s)
    decreases Levels(depth), if depth > MaxDepth then 2 else 0, 1, 0
  {
    LevelsDrop(depth);
    var refl := ShadeRay(env, s, MirrorRay(env, g.n, g.d, rec), depth + 1);
    if Det(g) < 0.0 then refl
    else
      var refr := ShadeRay(env, s, RefractedRay(env, g, r, rec), depth + 1);
      Blend(g.fresnel, refl, refr)
  }

  /** The reflected ray from a hit, about the unit normal n, of the unit direction d toward the viewer. */
  function MirrorRay(env: Env, n: V3, d: V3, rec: Record): Ray {
    OffsetRay(env, rec.location, Unit(env.sqrt, Mirror(n, d)))
  }

  /** The refracted ray a glass hit traces when the interface lets light through. */
  function RefractedRay(env: Env, g: Interface, r: Ray, rec: Record): Ray
    requires Det(g) >= 0.0
  {
    var into := Unit(env.sqrt, Sub(rec.location, r.origin));
    OffsetRay(env, rec.location, Refract(env.sqrt, g, into))
  }

  /** The reflected ray a glaze traces, about the hit's own normal. */
  function GlazeMirrorRay(env: Env, r: Ray, rec: Record): Ray {
    MirrorRay(env, Unit(env.sqrt, rec.normal), Unit(env.sqrt, Sub(r.origin, rec.location)), rec)
  }

  /** The glaze's Fresnel weight of the reflected colour. */
  function GlazeWeight(env: Env, eta: real, r: Ray, rec: Record): real {
    Fresnel(env.sqrt, Unit(env.sqrt, rec.normal), Unit(env.sqrt, Sub(r.origin, rec.location)), eta)
  }

  /** `BRDFShader.shade` with the scene's lights, the ray's draws and the scene's shadow test. */
  function ShadeBRDF(env: Env, s: Scenes.Scene, sh: Shader, r: Ray, rec: Record): Color
    requires Ready(env, s) && (sh.Lambertian? || sh.OtherBRDF?)
  {
    BRDFShade(env.sqrt, env.brdf, sh, s.lights, rec, r.origin,
              (k: nat) => env.draw(r, k), ls => Shadowed(env, s, rec, ls))
  }

  /** Reflection weighted by R plus the other colour weighted by 1 - R, added to zero. */
  function Blend(weight: real, a: Color, b: Color): (c: Color)
  {
    Add(Add(Zero(), Scale(weight, a)), Scale(1.0 - weight, b))
  }

  /** Every channel of c lies between the matching channels of lo and hi. */
  predicate InBox(c: Color, lo: Color, hi: Color) {
    lo.x <= c.x <= hi.x && lo.y <= c.y <= hi.y && lo.z <= c.z <= hi.z
  }

  /** The two weights of a blend with R in [0, 1] sum to one, so the blend stays between its colours. */
  lemma BlendInBox(w: real, a: Color, b: Color, lo: Color, hi: Color)
    requires 0.0 <= w <= 1.0 && InBox(a, lo, hi) && InBox(b, lo, hi)
    ensures InBox(Blend(w, a, b), lo, hi)
  {
    BetweenChannel(w, 1.0 - w, a.x, b.x, lo.x, hi.x);
    BetweenChannel(w, 1.0 - w, a.y, b.y, lo.y, hi.y);
    BetweenChannel(w, 1.0 - w, a.z, b.z, lo.z, hi.z);
  }

  lemma BetweenChannel(w: real, v: real, a: real, b: real, lo: real, hi: real)
    requires 0.0 <= w && 0.0 <= v && w + v == 1.0 && lo <= a <= hi && lo <= b <= hi
    ensures lo <= w * a + v * b <= hi
  {
    MulMono(w, lo, a);
    MulMono(v, lo, b);
    MulMono(w, a, hi);
    MulMono(v, b, hi);
    Partition(w, v, lo);
    Partition(w, v, hi);
    SumBetween(w * a, v * b, w * lo, v * lo, w * hi, v * hi, lo, hi);
  }

  /** Two terms between their own bounds sum to something between the bounds' sums. */
  lemma SumBetween(p: real, q: real, pLo: real, qLo: real, pHi: real, qHi: real, lo: real, hi: real)
    requires pLo <= p <= pHi && qLo <= q <= qHi && pLo + qLo == lo && pHi + qHi == hi
    ensures lo <= p + q <= hi
  {
  }

  lemma Partition(w: real, v: real, x: real)
    requires w + v == 1.0
    ensures w * x + v * x == x
  {
    assert v == 1.0 - w;
  }

  lemma MulMono(k: real, x: real, y: real)
    requires k >= 0.0 && x <= y
    ensures k * x <= k * y
  {
    assert k * y - k * x == k * (y - x);
  }

  // ---------------------------------------------------------------- depth

  /** A glass hit at the last level traces its new rays past the cut-off: it is black. */
  lemma LastLevelSpecularIsBlack(env: Env, s: Scenes.Scene, sh: Shader, r: Ray, rec: Record)
    requires Ready(env, s) && sh.Glass?
    ensures Shade(env, s, sh, r, rec, MaxDepth) == Zero()
  {
    assert Shade(env, s, sh, r, rec, MaxDepth) == ShadeGlass(env, s, sh.index, r, rec, MaxDepth);
    GlassPastCutOff(env, s, sh.index, r, rec, MaxDepth);
  }

  /** From the last level on, both rays glass traces are past the cut-off, so it is black. */
  lemma GlassPastCutOff(env: Env, s: Scenes.Scene, eta: real, r: Ray, rec: Record, depth: int)
    requires Ready(env, s) && depth >= MaxDepth
    ensures ShadeGlass(env, s, eta, r, rec, depth) == Zero()
  {
    TracePastCutOff(env, s, GlassInterface(env.sqrt, eta, r.origin, rec), r, rec, depth);
  }

  lemma TracePastCutOff(env: Env, s: Scenes.Scene, g: Interface, r: Ray, rec: Record, depth: int)
    requires Ready(env, s) && depth >= MaxDepth
    ensures GlassTrace(env, s, g, r, rec, depth) == Zero()
  {
    assert ShadeRay(env, s, MirrorRay(env, g.n, g.d, rec), depth + 1) == Zero();
    if Det(g) >= 0.0 {
      assert ShadeRay(env, s, RefractedRay(env, g, r, rec), depth + 1) == Zero();
      BlendOfBlack(g.fresnel);
    }
  }

  lemma BlendOfBlack(w: real)
    ensures Blend(w, Zero(), Zero()) == Zero()
  {
  }

  // ---------------------------------------------------------------- specular scenes

  /** Glass or a glaze with a positive index, over a specular substrate: no light is sampled. */
  predicate Specular(sh: Shader) {
    match sh
    case Glass(eta) => eta > 0.0
    case Glazed(eta, sub) => eta > 0.0 && Specular(sub)
    case _ => false
  }

  /**
   * For a positive index the glass's reflectance weight lies in [0, 1], inside, outside
   * and at grazing incidence.
   */
  lemma GlassWeight(sqrt: real -> real, eta: real, o: V3, rec: Record)
    requires IsSqrt(sqrt) && eta > 0.0
    ensures 0.0 <= GlassInterface(sqrt, eta, o, rec).fresnel <= 1.0
  {
    assert Quotient(1.0, eta) == 1.0 / eta;
    assert 1.0 / eta > 0.0;
  }

  /** A scene built by `init` whose renderable surfaces all carry specular shaders. */
  ghost predicate MirrorScene(env: Env, invert: Affine -> Affine, s0: Scenes.Scene, s: Scenes.Scene) {
    IsSqrt(env.sqrt) && Scenes.Init(env.sqrt, invert, s0) == Some(s) && s.cubemap.None?
    && Scenes.Invertible(Scenes.Renderables(s.surfaces))
    && forall x :: x in Scenes.Renderables(s.surfaces) ==> Specular(x.shader)
  }

  /**
   * In a scene of glass and glazes every traced colour lies in any box that holds the
   * background and black: reflection and refraction only mix what the rays see, with
   * weights that sum to one, so nothing is brighter than the brightest background.
   */
  lemma {:induction false} MirrorSceneBounded(env: Env, invert: Affine -> Affine, s0: Scenes.Scene, s: Scenes.Scene,
                                              r: Ray, depth: int, lo: Color, hi: Color)
    requires MirrorScene(env, invert, s0, s) && AtMost(r.start, r.end)
    requires InBox(s.backColor, lo, hi) && InBox(Zero(), lo, hi)
    ensures Ready(env, s)
    ensures InBox(ShadeRay(env, s, r, depth), lo, hi)
    decreases Levels(depth), 1, 0, 1
  {
    var res := Scenes.FirstIntersection(env.sqrt, s, r, None);
    Scenes.FirstIntersectionRecord(env.sqrt, s, r);
    if depth <= MaxDepth && res.0 {
      HitBounded(env, invert, s0, s, r, depth, lo, hi);
    }
  }

  /** The colour of a ray that hits a surface of the scene is its shader's, which stays in the box. */
  lemma {:induction false} HitBounded(env: Env, invert: Affine -> Affine, s0: Scenes.Scene, s: Scenes.Scene,
                                      r: Ray, depth: int, lo: Color, hi: Color)
    requires MirrorScene(env, invert, s0, s) && AtMost(r.start, r.end) && depth <= MaxDepth
    requires InBox(s.backColor, lo, hi) && InBox(Zero(), lo, hi)
    requires Scenes.FirstIntersection(env.sqrt, s, r, None).0
    ensures Ready(env, s)
    ensures InBox(ShadeRay(env, s, r, depth), lo, hi)
    decreases Levels(depth), 1, 0, 0
  {
    var res := Scenes.FirstIntersection(env.sqrt, s, r, None);
    Scenes.FirstIntersectionRecord(env.sqrt, s, r);
    var surf := res.1.value.surf;
    Scenes.FirstIntersectionIsNearest(env.sqrt, invert, s0, r, None);
    var rs := Scenes.Renderables(s.surfaces);
    var i :| 0 <= i < |rs| && rs[i] == surf && BvhTraversal.HitBelow(SurfaceHits.HitFn(env.sqrt), rs[i], r) == Some(res.1.value.t);
    assert surf in rs;
    match SurfaceHits.RecordOf(env.sqrt, env.uvOf, surf, r)
    case None =>
    case Some(rec) =>
      ShadeBounded(env, invert, s0, s, surf.shader, r, rec, depth, lo, hi);
  }

  lemma {:induction false} ShadeBounded(env: Env, invert: Affine -> Affine, s0: Scenes.Scene, s: Scenes.Scene,
                                        sh: Shader, r: Ray, rec: Record, depth: int, lo: Color, hi: Color)
    requires MirrorScene(env, invert, s0, s) && Specular(sh)
    requires InBox(s.backColor, lo, hi) && InBox(Zero(), lo, hi)
    ensures Ready(env, s)
    ensures InBox(Shade(env, s, sh, r, rec, depth), lo, hi)
    decreases Levels(depth), if depth > MaxDepth then 2 else 0, Size(sh), 2
  {
    match sh
    case Glass(eta) => GlassBounded(env, invert, s0, s, eta, r, rec, depth, lo, hi);
    case Glazed(eta, sub) => GlazeBounded(env, invert, s0, s, eta, sub, r, rec, depth, lo, hi);
  }

  /** A glass hit blends its reflected and refracted colours with weights that sum to one. */
  lemma {:induction false} GlassBounded(env: Env, invert: Affine -> Affine, s0: Scenes.Scene, s: Scenes.Scene,
                                        eta: real, r: Ray, rec: Record, depth: int, lo: Color, hi: Color)
    requires MirrorScene(env, invert, s0, s) && eta > 0.0
    requires InBox(s.backColor, lo, hi) && InBox(Zero(), lo, hi)
    ensures Ready(env, s)
    ensures InBox(ShadeGlass(env, s, eta, r, rec, depth), lo, hi)
    decreases Levels(depth), if depth > MaxDepth then 2 else 0, Size(Glass(eta)), 1
  {
    GlassReflectedBounded(env, invert, s0, s, eta, r, rec, depth, lo, hi);
    GlassRefractedBounded(env, invert, s0, s, eta, r, rec, depth, lo, hi);
    GlassWeight(env.sqrt, eta, r.origin, rec);
    GlassBlendInBox(env, s, GlassInterface(env.sqrt, eta, r.origin, rec), r, rec, depth, lo, hi);
  }

  /** The ray glass reflects sees a colour in the box. */
  lemma {:induction false} GlassReflectedBounded(env: Env, invert: Affine -> Affine, s0: Scenes.Scene,
                                                 s: Scenes.Scene, eta: real, r: Ray, rec: Record, depth: int,
                                                 lo: Color, hi: Color)
    requires MirrorScene(env, invert, s0, s)
    requires InBox(s.backColor, lo, hi) && InBox(Zero(), lo, hi)
    ensures var g := GlassInterface(env.sqrt, eta, r.origin, rec);
      InBox(ShadeRay(env, s, MirrorRay(env, g.n, g.d, rec), depth + 1), lo, hi)
    decreases Levels(depth), if depth > MaxDepth then 2 else 0, Size(Glass(eta)), 0
  {
    LevelsDrop(depth);
    var g := GlassInterface(env.sqrt, eta, r.origin, rec);
    MirrorSceneBounded(env, invert, s0, s, MirrorRay(env, g.n, g.d, rec), depth + 1, lo, hi);
  }

  /** The ray glass refracts, when the interface lets light through, sees a colour in the box. */
  lemma {:induction false} GlassRefractedBounded(env: Env, invert: Affine -> Affine, s0: Scenes.Scene,
                                                 s: Scenes.Scene, eta: real, r: Ray, rec: Record, depth: int,
                                                 lo: Color, hi: Color)
    requires MirrorScene(env, invert, s0, s)
    requires InBox(s.backColor, lo, hi) && InBox(Zero(), lo, hi)
    ensures var g := GlassInterface(env.sqrt, eta, r.origin, rec);
      Det(g) >= 0.0 ==> InBox(ShadeRay(env, s, RefractedRay(env, g, r, rec), depth + 1), lo, hi)
    decreases Levels(depth), if depth > MaxDepth then 2 else 0, Size(Glass(eta)), 0
  {
    LevelsDrop(depth);
    var g := GlassInterface(env.sqrt, eta, r.origin, rec);
    if Det(g) >= 0.0 {
      MirrorSceneBounded(env, invert, s0, s, RefractedRay(env, g, r, rec), depth + 1, lo, hi);
    }
  }

  /** When the rays glass traces are in the box and its weight lies in [0, 1], so is the glass colour. */
  lemma GlassBlendInBox(env: Env, s: Scenes.Scene, g: Interface, r: Ray, rec: Record, depth: int,
                        lo: Color, hi: Color)
    requires Ready(env, s) && 0.0 <= g.fresnel <= 1.0
    requires InBox(ShadeRay(env, s, MirrorRay(env, g.n, g.d, rec), depth + 1), lo, hi)
    requires Det(g) >= 0.0 ==> InBox(ShadeRay(env, s, RefractedRay(env, g, r, rec), depth + 1), lo, hi)
    ensures InBox(GlassTrace(env, s, g, r, rec, depth), lo, hi)
  {
    if Det(g) >= 0.0 {
      BlendInBox(g.fresnel, ShadeRay(env, s, MirrorRay(env, g.n, g.d, rec), depth + 1),
                 ShadeRay(env, s, RefractedRay(env, g, r, rec), depth + 1), lo, hi);
    }
  }

  /** A glaze blends its reflected colour with its specular substrate's, weighted by Fresnel. */
  lemma {:induction false} GlazeBounded(env: Env, invert: Affine -> Affine, s0: Scenes.Scene, s: Scenes.Scene,
                                        eta: real, sub: Shader, r: Ray, rec: Record, depth: int, lo: Color, hi: Color)
    requires MirrorScene(env, invert, s0, s) && eta > 0.0 && Specular(sub)
    requires InBox(s.backColor, lo, hi) && InBox(Zero(), lo, hi)
    ensures Ready(env, s)
    ensures InBox(Shade(env, s, Glazed(eta, sub), r, rec, depth), lo, hi)
    decreases Levels(depth), if depth > MaxDepth then 2 else 0, Size(Glazed(eta, sub)), 0
  {
    MirrorSceneBounded(env, invert, s0, s, GlazeMirrorRay(env, r, rec), depth + 1, lo, hi);
    ShadeBounded(env, invert, s0, s, sub, r, rec, depth + 1, lo, hi);
    GlazeBlendInBox(env, s, eta, sub, r, rec, depth, lo, hi);
  }

  /** When the glaze's reflected ray and its substrate are in the box, so is the glaze. */
  lemma GlazeBlendInBox(env: Env, s: Scenes.Scene, eta: real, sub: Shader, r: Ray, rec: Record, depth: int,
                        lo: Color, hi: Color)
    requires Ready(env, s) && eta > 0.0
    requires InBox(ShadeRay(env, s, GlazeMirrorRay(env, r, rec), depth + 1), lo, hi)
    requires InBox(Shade(env, s, sub, r, rec, depth + 1), lo, hi)
    ensures InBox(Shade(env, s, Glazed(eta, sub), r, rec, depth), lo, hi)
  {
    var w := GlazeWeight(env, eta, r, rec);
    var refl, under := ShadeRay(env, s, GlazeMirrorRay(env, r, rec), depth + 1), Shade(env, s, sub, r, rec, depth + 1);
    assert 0.0 <= w <= 1.0;
    BlendInBox(w, refl, under, lo, hi);
    GlazedUnfolds(env, s, eta, sub, r, rec, depth);
  }

  /** A glaze's colour is the Fresnel blend of its reflected colour and its substrate's. */
  lemma GlazedUnfolds(env: Env, s: Scenes.Scene, eta: real, sub: Shader, r: Ray, rec: Record, depth: int)
    requires Ready(env, s)
    ensures Shade(env, s, Glazed(eta, sub), r, rec, depth)
         == Blend(GlazeWeight(env, eta, r, rec), ShadeRay(env, s, GlazeMirrorRay(env, r, rec), depth + 1),
                  Shade(env, s, sub, r, rec, depth + 1))
  {
  }
}
