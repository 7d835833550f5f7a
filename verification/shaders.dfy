/**
 * The shaders' own algebra: the Fresnel reflectance, the RGB encoding of normals, the
 * BRDF shaders' sum over the lights, and the reflection and refraction geometry of
 * `Glass`. The parts of `Glass` and `Glazed` that trace further rays live with the
 * tracer, which they call back.
 *
 * `Phong` and `CookTorrance` evaluate their BRDFs with `pow` and `exp`; they are one
 * shader kind here whose BRDF is a parameter.
 */
module Shaders {
  import opened Wrappers
  import opened Geometry
  import opened Textures
  import opened Lights

  /**
   * The shaders a scene can use. Every BRDF shader has a diffuse colour (white unless
   * set) and an optional texture; `kind` tells the BRDF shaders with a parameterised BRDF
   * apart. A glaze covers a substrate shader.
   */
  datatype Shader =
    | Lambertian(diffuse: Color, texture: Option<Texture>)
    | OtherBRDF(kind: nat, diffuse: Color, texture: Option<Texture>)
    | Glass(index: real)
    | Glazed(eta: real, substrate: Shader)
    | RGBNormals

  /** `Shader.DEFAULT_SHADER`: a white Lambertian without a texture. */
  function DefaultShader(): Shader {
    Lambertian(V3(1.0, 1.0, 1.0), None)
  }

  /** The number of shaders in a glaze stack; it bounds the substrate recursion. */
  function Size(s: Shader): (n: nat)
    ensures n >= 1
    ensures s.Glazed? ==> n > Size(s.substrate)
  {
    match s
    case Glazed(_, sub) => 1 + Size(sub)
    case _ => 1
  }

  /** The part of an intersection record the shaders read. */
  datatype Record = Record(t: real, location: V3, normal: V3, uv: V2)

  // ---------------------------------------------------------------- Fresnel

  /** `a / b`. Java's 0 / 0 is NaN; the model's quotient by zero is 0. */
  function Quotient(a: real, b: real): (q: real)
    ensures b != 0.0 ==> q * b == a
    ensures b == 0.0 ==> q == 0.0
  {
    if b == 0.0 then 0.0 else a / b
  }

  /**
   * `Shader.fresnel`: the reflectance for light leaving along `outgoing` from a surface
   * with the given normal, for refractive index `eta`. Nothing is reflected from behind
   * the surface, total internal reflection reflects everything, and otherwise the result
   * is the mean of the squared parallel and perpendicular amplitude ratios.
   */
  function Fresnel(sqrt: real -> real, normal: V3, outgoing: V3, eta: real): (r: real)
    ensures Dot(outgoing, normal) < 0.0 ==> r == 0.0
    ensures (Dot(outgoing, normal) >= 0.0 && eta != 0.0
             && CosTransmittedSq(Dot(outgoing, normal), eta) < 0.0) ==> r == 1.0
    ensures r >= 0.0
    ensures IsSqrt(sqrt) && eta > 0.0 ==> r <= 1.0
  {
    var c1 := Dot(outgoing, normal);
    if c1 < 0.0 then 0.0
    else if eta == 0.0 then 1.0
    else
      var c2sq := CosTransmittedSq(c1, eta);
      if c2sq < 0.0 then 1.0
      else
        ReflectanceRange(sqrt, c1, c2sq, eta);
        Reflectance(sqrt, c1, c2sq, eta)
  }

  /**
   * The mean of the squared parallel and perpendicular amplitude ratios, for incident
   * cosine c1 and squared transmitted cosine c2sq.
   */
  function Reflectance(sqrt: real -> real, c1: real, c2sq: real, eta: real): (r: real)
    requires c1 >= 0.0 && c2sq >= 0.0
    ensures r >= 0.0
    ensures IsSqrt(sqrt) && eta > 0.0 ==> r <= 1.0
  {
    var c2 := sqrt(c2sq);
    var fp := Quotient(eta * c1 - c2, eta * c1 + c2);
    var fs := Quotient(c1 - eta * c2, c1 + eta * c2);
    ReflectanceBounded(sqrt, c1, c2sq, eta, fp, fs);
    0.5 * (fp * fp + fs * fs)
  }

  lemma ReflectanceRange(sqrt: real -> real, c1: real, c2sq: real, eta: real)
    requires c1 >= 0.0 && c2sq >= 0.0
    ensures Reflectance(sqrt, c1, c2sq, eta) >= 0.0
    ensures IsSqrt(sqrt) && eta > 0.0 ==> Reflectance(sqrt, c1, c2sq, eta) <= 1.0
  {
  }

  /** The mean of the squared amplitude ratios lies in [0, 1] for a positive index. */
  lemma ReflectanceBounded(sqrt: real -> real, c1: real, c2sq: real, eta: real, fp: real, fs: real)
    requires c1 >= 0.0 && c2sq >= 0.0
    requires fp == Quotient(eta * c1 - sqrt(c2sq), eta * c1 + sqrt(c2sq))
    requires fs == Quotient(c1 - eta * sqrt(c2sq), c1 + eta * sqrt(c2sq))
    ensures 0.5 * (fp * fp + fs * fs) >= 0.0
    ensures IsSqrt(sqrt) && eta > 0.0 ==> 0.5 * (fp * fp + fs * fs) <= 1.0
  {
    AmplitudesBounded(sqrt, c1, c2sq, eta);
    MeanOfSquares(fp, fs);
  }

  /** The mean of two squares is non-negative, and at most 1 when both squares are. */
  lemma MeanOfSquares(fp: real, fs: real)
    ensures 0.5 * (fp * fp + fs * fs) >= 0.0
    ensures fp * fp <= 1.0 && fs * fs <= 1.0 ==> 0.5 * (fp * fp + fs * fs) <= 1.0
  {
    SquareNonNegative(fp);
    SquareNonNegative(fs);
  }

  /** cos^2 of the transmitted angle by Snell's law: 1 - (1 - cos1^2) / eta^2. */
  function CosTransmittedSq(c1: real, eta: real): real
    requires eta != 0.0
  {
    1.0 - (1.0 - c1 * c1) / (eta * eta)
  }

  /** For a positive index both amplitude ratios lie in [-1, 1]. */
  lemma AmplitudesBounded(sqrt: real -> real, c1: real, c2sq: real, eta: real)
    requires c1 >= 0.0 && c2sq >= 0.0
    ensures IsSqrt(sqrt) && eta > 0.0 ==>
      Quotient(eta * c1 - sqrt(c2sq), eta * c1 + sqrt(c2sq))
        * Quotient(eta * c1 - sqrt(c2sq), eta * c1 + sqrt(c2sq)) <= 1.0
      && Quotient(c1 - eta * sqrt(c2sq), c1 + eta * sqrt(c2sq))
        * Quotient(c1 - eta * sqrt(c2sq), c1 + eta * sqrt(c2sq)) <= 1.0
  {
    if IsSqrt(sqrt) && eta > 0.0 {
      SqrtAt(sqrt, c2sq);
      ProductNonNegative(eta, c1);
      ProductNonNegative(eta, sqrt(c2sq));
      RatioBelowOne(eta * c1, sqrt(c2sq));
      RatioBelowOne(c1, eta * sqrt(c2sq));
    }
  }

  /** For non-negative a and b, (a - b) / (a + b) lies in [-1, 1]. */
  lemma RatioBelowOne(a: real, b: real)
    requires a >= 0.0 && b >= 0.0
    ensures Quotient(a - b, a + b) * Quotient(a - b, a + b) <= 1.0
  {
    if a + b != 0.0 {
      var q := (a - b) / (a + b);
      var m := a + b;
      assert q * m == a - b;
      assert (1.0 - q) * m == 2.0 * b;
      assert (1.0 + q) * m == 2.0 * a;
      FactorNonNegative(1.0 - q, m);
      FactorNonNegative(1.0 + q, m);
      ProductNonNegative(1.0 - q, 1.0 + q);
      assert 1.0 - q * q == (1.0 - q) * (1.0 + q);
    }
  }

  lemma ProductNonNegative(x: real, y: real)
    requires x >= 0.0 && y >= 0.0
    ensures x * y >= 0.0
  {
  }

  lemma FactorNonNegative(x: real, m: real)
    requires m > 0.0 && x * m >= 0.0
    ensures x >= 0.0
  {
    NegTimesPos(x, m);
  }

  /** At normal incidence the reflectance is ((eta - 1) / (eta + 1))^2. */
  lemma {:induction false} FresnelNormalIncidence(sqrt: real -> real, normal: V3, outgoing: V3, eta: real)
    requires IsSqrt(sqrt) && eta > 0.0 && Dot(outgoing, normal) == 1.0
    ensures Fresnel(sqrt, normal, outgoing, eta) == ((eta - 1.0) / (eta + 1.0)) * ((eta - 1.0) / (eta + 1.0))
  {
    assert CosTransmittedSq(1.0, eta) == 1.0;
    SqrtOne(sqrt);
    var q := (eta - 1.0) / (eta + 1.0);
    assert Quotient(eta * 1.0 - 1.0, eta * 1.0 + 1.0) == q;
    assert Quotient(1.0 - eta * 1.0, 1.0 + eta * 1.0) == -q;
  }

  lemma SqrtOne(sqrt: real -> real)
    requires IsSqrt(sqrt)
    ensures sqrt(1.0) == 1.0
  {
    SqrtAt(sqrt, 1.0);
    SquareRootUnique(sqrt(1.0), 1.0);
  }

  /** Two non-negative numbers with equal squares are equal. */
  lemma SquareRootUnique(a: real, b: real)
    requires a >= 0.0 && b >= 0.0 && a * a == b * b
    ensures a == b
  {
    assert (a - b) * (a + b) == a * a - b * b;
    ProductZero(a - b, a + b);
  }

  lemma ProductZero(x: real, y: real)
    requires x * y == 0.0
    ensures x == 0.0 || y == 0.0
  {
  }

  /**
   * At grazing incidence everything is reflected, for any positive index other than 1
   * (where Java computes 0 / 0).
   */
  lemma FresnelGrazing(sqrt: real -> real, normal: V3, outgoing: V3, eta: real)
    requires IsSqrt(sqrt) && eta > 0.0 && eta != 1.0 && Dot(outgoing, normal) == 0.0
    ensures Fresnel(sqrt, normal, outgoing, eta) == 1.0
  {
    var c2sq := CosTransmittedSq(0.0, eta);
    assert c2sq == 1.0 - 1.0 / (eta * eta);
    if c2sq >= 0.0 {
      assert eta * eta != 1.0 * 1.0 by {
        if eta * eta == 1.0 * 1.0 {
          SquareRootUnique(eta, 1.0);
        }
      }
      assert c2sq != 0.0;
      assert Fresnel(sqrt, normal, outgoing, eta) == Reflectance(sqrt, 0.0, c2sq, eta);
      ReflectanceGrazing(sqrt, c2sq, eta);
    }
  }

  lemma ReflectanceGrazing(sqrt: real -> real, c2sq: real, eta: real)
    requires IsSqrt(sqrt) && c2sq > 0.0 && eta > 0.0
    ensures Reflectance(sqrt, 0.0, c2sq, eta) == 1.0
  {
    var c2 := sqrt(c2sq);
    SqrtAt(sqrt, c2sq);
    assert Quotient(eta * 0.0 - c2, eta * 0.0 + c2) == -1.0;
    assert eta * c2 > 0.0;
    assert Quotient(0.0 - eta * c2, 0.0 + eta * c2) == -1.0;
  }

  /** The unit test's grazing case: normal (1, 1, 1), outgoing (-1, 1, 0), index 2. */
  lemma FresnelGrazingTest(sqrt: real -> real)
    requires IsSqrt(sqrt)
    ensures Fresnel(sqrt, V3(1.0, 1.0, 1.0), V3(-1.0, 1.0, 0.0), 2.0) == 1.0
  {
    FresnelGrazing(sqrt, V3(1.0, 1.0, 1.0), V3(-1.0, 1.0, 0.0), 2.0);
  }

  // ---------------------------------------------------------------- RGBNormals

  /** `RGBNormals.shade`: each channel is (normal component + 1) / 2. */
  function NormalColor(n: V3): (c: Color)
    ensures Add(Scale(2.0, c), V3(-1.0, -1.0, -1.0)) == n
  {
    V3((n.x + 1.0) / 2.0, (n.y + 1.0) / 2.0, (n.z + 1.0) / 2.0)
  }

  /** A unit normal encodes to a colour with every channel in [0, 1]. */
  lemma NormalColorInRange(n: V3)
    requires Dot(n, n) == 1.0
    ensures var c := NormalColor(n);
      0.0 <= c.x <= 1.0 && 0.0 <= c.y <= 1.0 && 0.0 <= c.z <= 1.0
  {
    UnitComponent(n.x, n.y * n.y + n.z * n.z);
    UnitComponent(n.y, n.x * n.x + n.z * n.z);
    UnitComponent(n.z, n.x * n.x + n.y * n.y);
  }

  lemma UnitComponent(a: real, rest: real)
    requires a * a + rest == 1.0 && rest >= 0.0
    ensures -1.0 <= a <= 1.0
  {
    assert (1.0 - a) * (1.0 + a) == rest;
    SignOfProductNonNegative(1.0 - a, 1.0 + a);
  }

  /** A non-negative product of two reals whose sum is positive has both factors non-negative. */
  lemma SignOfProductNonNegative(x: real, y: real)
    requires x * y >= 0.0 && x + y > 0.0
    ensures x >= 0.0 && y >= 0.0
  {
    NegTimesPos(x, y);
    NegTimesPos(y, x);
  }

  lemma NegTimesPos(x: real, y: real)
    ensures x < 0.0 && y > 0.0 ==> x * y < 0.0 && y * x < 0.0
  {
  }

  // ---------------------------------------------------------------- BRDF shaders

  /**
   * The BRDF of a BRDF shader (`evalBRDF`). Lambertian writes its own diffuse colour and
   * ignores kD, the directions and the normal; the other kinds use the parameter.
   */
  function EvalBRDF(brdf: (nat, V3, V3, V3, Color) -> Color, s: Shader, l: V3, v: V3, n: V3,
                    kD: Color): Color
    requires s.Lambertian? || s.OtherBRDF?
  {
    match s
    case Lambertian(diffuse, _) => diffuse
    case OtherBRDF(kind, _, _) => brdf(kind, l, v, n, kD)
  }

  /** Lambertian's BRDF is its diffuse colour, whatever the geometry and kD. */
  lemma LambertianConstant(brdf: (nat, V3, V3, V3, Color) -> Color, diffuse: Color, tex: Option<Texture>,
                           l: V3, v: V3, n: V3, kD: Color,
                           brdf': (nat, V3, V3, V3, Color) -> Color, l': V3, v': V3, n': V3, kD': Color)
    ensures EvalBRDF(brdf, Lambertian(diffuse, tex), l, v, n, kD)
         == EvalBRDF(brdf', Lambertian(diffuse, None), l', v', n', kD')
    ensures EvalBRDF(brdf, Lambertian(diffuse, tex), l, v, n, kD) == diffuse
  {
  }

  /** The diffuse colour at a point: the texture's colour if there is a texture. */
  function Diffuse(s: Shader, uv: V2): (c: Color)
    requires s.Lambertian? || s.OtherBRDF?
    ensures s.texture.None? ==> c == s.diffuse
    ensures s.texture.Some? ==> c == TexColor(s.texture.value, uv)
  {
    match s.texture
    case None => s.diffuse
    case Some(t) => TexColor(t, uv)
  }

  /** Componentwise product of colours, `Colord.mul(Colord)`. */
  function Mul(a: Color, b: Color): Color {
    V3(a.x * b.x, a.y * b.y, a.z * b.z)
  }

  /**
   * One unshadowed light's term: zero unless the light lies above the surface, otherwise
   * BRDF x intensity x (L . N) x attenuation / probability. A zero probability is the
   * model's stand-in for the infinite density of a zero-area light (`Lights.Density`);
   * Java divides the term by infinity, which gives zero.
   */
  function Contribution(sqrt: real -> real, brdf: (nat, V3, V3, V3, Color) -> Color, s: Shader,
                        intensity: Color, ls: LightSample, rec: Record, viewFrom: V3): (c: Color)
    requires s.Lambertian? || s.OtherBRDF?
    ensures Dot(rec.normal, ls.direction) <= 0.0 || ls.probability == 0.0 ==> c == Zero()
    ensures Dot(rec.normal, ls.direction) > 0.0 && ls.probability != 0.0 ==>
      exists f: Color, k: real :: c == Scale(k, Mul(f, intensity))
        && k * ls.probability == Dot(Unit(sqrt, ls.direction), rec.normal) * ls.attenuation
  {
    if Dot(rec.normal, ls.direction) > 0.0 && ls.probability != 0.0 then
      var l := Unit(sqrt, ls.direction);
      var v := Unit(sqrt, Sub(viewFrom, rec.location));
      var f := EvalBRDF(brdf, s, l, v, rec.normal, Diffuse(s, rec.uv));
      var k := Dot(l, rec.normal) * ls.attenuation / ls.probability;
      Scale(k, Mul(f, intensity))
    else Zero()
  }

  /**
   * Light `k` of the loop: sampled at the shading point with the k-th pair of random
   * draws, then skipped if shadowed.
   */
  function LightTerm(sqrt: real -> real, brdf: (nat, V3, V3, V3, Color) -> Color, s: Shader,
                     l: Light, k: nat, rec: Record, viewFrom: V3, draw: nat -> (real, real),
                     shadowed: LightSample -> bool): (c: Color)
    requires IsSqrt(sqrt) && (s.Lambertian? || s.OtherBRDF?)
  {
    var ls := Sample(sqrt, l, rec.location, draw(k).0, draw(k).1).0;
    if shadowed(ls) then Zero() else Contribution(sqrt, brdf, s, l.intensity, ls, rec, viewFrom)
  }

  /** The terms of the lights, one per light and in list order. */
  function Terms(sqrt: real -> real, brdf: (nat, V3, V3, V3, Color) -> Color, s: Shader,
                 lights: seq<Light>, rec: Record, viewFrom: V3, draw: nat -> (real, real),
                 shadowed: LightSample -> bool): (ts: seq<Color>)
    requires IsSqrt(sqrt) && (s.Lambertian? || s.OtherBRDF?)
    ensures |ts| == |lights|
    ensures forall k :: 0 <= k < |lights| ==>
      ts[k] == LightTerm(sqrt, brdf, s, lights[k], k, rec, viewFrom, draw, shadowed)
    decreases |lights|
  {
    if |lights| == 0 then []
    else
      var k := |lights| - 1;
      Terms(sqrt, brdf, s, lights[..k], rec, viewFrom, draw, shadowed)
        + [LightTerm(sqrt, brdf, s, lights[k], k, rec, viewFrom, draw, shadowed)]
  }

  /** `outIntensity.add(...)` over a list of colours, starting from zero, first to last. */
  function Accumulate(ts: seq<Color>): Color
    decreases |ts|
  {
    if |ts| == 0 then Zero() else Add(Accumulate(ts[..|ts| - 1]), ts[|ts| - 1])
  }

  /**
   * `BRDFShader.shade`: the output is zeroed and then gains each light's term, with the
   * lights taken in list order.
   */
  function BRDFShade(sqrt: real -> real, brdf: (nat, V3, V3, V3, Color) -> Color, s: Shader,
                     lights: seq<Light>, rec: Record, viewFrom: V3, draw: nat -> (real, real),
                     shadowed: LightSample -> bool): Color
    requires IsSqrt(sqrt) && (s.Lambertian? || s.OtherBRDF?)
  {
    Accumulate(Terms(sqrt, brdf, s, lights, rec, viewFrom, draw, shadowed))
  }

  /**
   * Accumulating two runs of terms one after the other adds their sums: every term is
   * counted once, wherever the list is split.
   */
  lemma {:induction false} AccumulateAppend(a: seq<Color>, b: seq<Color>)
    ensures Accumulate(a + b) == Add(Accumulate(a), Accumulate(b))
    decreases |b|
  {
    if |b| == 0 {
      assert a + b == a;
    } else {
      var k := |b| - 1;
      assert (a + b)[..|a + b| - 1] == a + b[..k];
      AccumulateAppend(a, b[..k]);
    }
  }

  /** Only zero terms accumulate to black. */
  lemma {:induction false} AccumulateZeros(ts: seq<Color>)
    requires forall k :: 0 <= k < |ts| ==> ts[k] == Zero()
    ensures Accumulate(ts) == Zero()
    decreases |ts|
  {
    if |ts| > 0 {
      AccumulateZeros(ts[..|ts| - 1]);
    }
  }

  /**
   * A point that every light leaves dark (each is shadowed or lies on or below the
   * surface) is shaded black.
   */
  lemma AllDarkIsBlack(sqrt: real -> real, brdf: (nat, V3, V3, V3, Color) -> Color,
                       s: Shader, lights: seq<Light>, rec: Record, viewFrom: V3,
                       draw: nat -> (real, real), shadowed: LightSample -> bool)
    requires IsSqrt(sqrt) && (s.Lambertian? || s.OtherBRDF?)
    requires forall k :: 0 <= k < |lights| ==>
      var ls := Sample(sqrt, lights[k], rec.location, draw(k).0, draw(k).1).0;
      shadowed(ls) || Dot(rec.normal, ls.direction) <= 0.0
    ensures BRDFShade(sqrt, brdf, s, lights, rec, viewFrom, draw, shadowed) == Zero()
  {
    var ts := Terms(sqrt, brdf, s, lights, rec, viewFrom, draw, shadowed);
    AccumulateZeros(ts);
  }

  /**
   * A texture does not change a Lambertian surface's colour: its BRDF ignores the
   * diffuse coefficient the texture supplies.
   */
  lemma LambertianIgnoresTexture(sqrt: real -> real, brdf: (nat, V3, V3, V3, Color) -> Color,
                                 diffuse: Color, tex: Texture, lights: seq<Light>,
                                 rec: Record, viewFrom: V3, draw: nat -> (real, real),
                                 shadowed: LightSample -> bool)
    requires IsSqrt(sqrt)
    ensures BRDFShade(sqrt, brdf, Lambertian(diffuse, Some(tex)), lights, rec, viewFrom, draw, shadowed)
         == BRDFShade(sqrt, brdf, Lambertian(diffuse, None), lights, rec, viewFrom, draw, shadowed)
  {
    var ts := Terms(sqrt, brdf, Lambertian(diffuse, Some(tex)), lights, rec, viewFrom, draw, shadowed);
    var us := Terms(sqrt, brdf, Lambertian(diffuse, None), lights, rec, viewFrom, draw, shadowed);
    assert ts == us;
  }

  // ---------------------------------------------------------------- Glass geometry

  /**
   * The setup of `Glass.shade`: the unit normal n turned toward the viewer, the unit
   * direction d back toward the ray origin, theta = n . d, the indices n1 (from) and n2
   * (to), and the Fresnel reflectance.
   */
  datatype Interface = Interface(n: V3, d: V3, theta: real, n1: real, n2: real, fresnel: real)

  /**
   * Outside the surface (theta > 0) light goes from air into the glass. Inside it the
   * indices swap, the normal flips and Fresnel uses 1 / eta. At exactly grazing
   * incidence neither case applies and both indices stay 0. `setRefractiveIndex`
   * accepts any index: for index 0 Java's 1 / 0 is infinite and its Fresnel term NaN,
   * where the model's quotient gives index 0, whose Fresnel term is 1.
   */
  function GlassInterface(sqrt: real -> real, eta: real, rayOrigin: V3, rec: Record): (g: Interface)
    ensures var d := Unit(sqrt, Sub(rayOrigin, rec.location));
      var n := Unit(sqrt, rec.normal);
      g.d == d
      && (Dot(n, d) > 0.0 ==> g.n == n && g.n1 == 1.0 && g.n2 == eta
                              && g.fresnel == Fresnel(sqrt, n, d, eta))
      && (Dot(n, d) < 0.0 ==> g.n == Neg(n) && g.n1 == eta && g.n2 == 1.0
                              && g.fresnel == Fresnel(sqrt, Neg(n), d, Quotient(1.0, eta)))
      && (Dot(n, d) == 0.0 ==> g.n1 == 0.0 && g.n2 == 0.0 && g.fresnel == 0.0)
    ensures g.theta == Dot(g.n, g.d) && g.theta >= 0.0
  {
    var d := Unit(sqrt, Sub(rayOrigin, rec.location));
    var n := Unit(sqrt, rec.normal);
    var theta := Dot(n, d);
    if theta > 0.0 then Interface(n, d, theta, 1.0, eta, Fresnel(sqrt, n, d, eta))
    else if theta < 0.0 then
      DotNeg(d, n);
      Interface(Neg(n), d, Dot(Neg(n), d), eta, 1.0, Fresnel(sqrt, Neg(n), d, Quotient(1.0, eta)))
    else Interface(n, d, theta, 0.0, 0.0, 0.0)
  }

  /** The unnormalised mirror direction 2 theta n - d. */
  function Mirror(n: V3, d: V3): V3 {
    Sub(Scale(2.0 * Dot(n, d), n), d)
  }

  /**
   * About a unit normal, the mirror direction keeps the angle to the normal and the
   * length, and mirroring twice gives the direction back.
   */
  lemma MirrorReflects(n: V3, d: V3)
    requires Dot(n, n) == 1.0
    ensures Dot(Mirror(n, d), n) == Dot(d, n)
    ensures Dot(Mirror(n, d), Mirror(n, d)) == Dot(d, d)
    ensures Mirror(n, Mirror(n, d)) == d
  {
    var t := Dot(n, d);
    var m := Mirror(n, d);
    assert Dot(m, n) == 2.0 * t * Dot(n, n) - Dot(d, n);
    assert Dot(m, m) == 4.0 * t * t * Dot(n, n) - 4.0 * t * Dot(n, d) + Dot(d, d);
    assert Dot(n, m) == t;
  }

  /**
   * 1 - (n1 / n2)^2 (1 - theta^2), the squared cosine of the refracted angle; negative
   * under total internal reflection. (The source writes it as
   * 1 - n1^2 (1 - theta^2) / n2^2, the same number.) At grazing incidence (n2 = 0) Java
   * divides 0 by 0; the model reports -1 there, so only the reflection is kept.
   */
  function Det(g: Interface): real {
    if g.n2 == 0.0 then -1.0
    else 1.0 - (g.n1 / g.n2) * (g.n1 / g.n2) * (1.0 - g.theta * g.theta)
  }

  /**
   * The refracted direction: the incoming direction's component along the surface
   * scaled by n1 / n2, minus n sqrt(det).
   */
  function Refract(sqrt: real -> real, g: Interface, incoming: V3): V3
    requires g.n2 != 0.0
  {
    Sub(Scale(g.n1 / g.n2, Tangent(incoming, g.n)), Scale(sqrt(Det(g)), g.n))
  }

  /** The part of d along the surface with unit normal n: d - (d . n) n. */
  function Tangent(d: V3, n: V3): (p: V3)
    ensures Dot(n, n) == 1.0 ==> Dot(p, n) == 0.0
  {
    DotCombination(1.0, d, Dot(d, n), n, n);
    assert Scale(1.0, d) == d;
    Sub(d, Scale(Dot(d, n), n))
  }

  /** For unit d and n the tangent part has squared length 1 - (d . n)^2. */
  lemma TangentLength(d: V3, n: V3)
    requires Dot(n, n) == 1.0 && Dot(d, d) == 1.0
    ensures Dot(Tangent(d, n), Tangent(d, n)) == 1.0 - Dot(d, n) * Dot(d, n)
  {
    var c := Dot(d, n);
    var p := Tangent(d, n);
    assert Scale(1.0, d) == d;
    DotCombination(1.0, d, c, n, p);
    assert Dot(p, p) == Dot(d, p);
    DotCombination(1.0, d, c, n, d);
    assert Dot(d, p) == 1.0 - c * Dot(n, d);
  }

  /**
   * Snell's law for the refracted direction: with unit normal and incoming direction and
   * det >= 0, it is a unit vector pointing through the surface (its normal component is
   * -sqrt(det)), and its component along the surface is the incoming one scaled by n1 / n2.
   */
  lemma RefractSnell(sqrt: real -> real, g: Interface, incoming: V3)
    requires IsSqrt(sqrt) && g.n2 != 0.0 && Det(g) >= 0.0
    requires Dot(g.n, g.n) == 1.0 && Dot(incoming, incoming) == 1.0
    requires Dot(incoming, g.n) * Dot(incoming, g.n) == g.theta * g.theta
    ensures var t := Refract(sqrt, g, incoming);
      Dot(t, t) == 1.0 && Dot(t, g.n) == -sqrt(Det(g))
      && Tangent(t, g.n) == Scale(g.n1 / g.n2, Tangent(incoming, g.n))
  {
    var n := g.n;
    var k := g.n1 / g.n2;
    var s := sqrt(Det(g));
    SqrtAt(sqrt, Det(g));
    var p := Tangent(incoming, n);
    TangentLength(incoming, n);
    var t := Refract(sqrt, g, incoming);
    RefractedLength(k, p, s, n, 1.0 - g.theta * g.theta);
    RefractedTangent(k, p, s, n);
  }

  /** Removing the normal part of kp - sn leaves kp, for p along the surface. */
  lemma RefractedTangent(k: real, p: V3, s: real, n: V3)
    requires Dot(n, n) == 1.0 && Dot(p, n) == 0.0
    ensures Dot(Sub(Scale(k, p), Scale(s, n)), n) == -s
    ensures Tangent(Sub(Scale(k, p), Scale(s, n)), n) == Scale(k, p)
  {
    DotCombination(k, p, s, n, n);
  }

  /**
   * k p - s n has squared length k^2 x + s^2 when p, of squared length x, is
   * perpendicular to the unit n.
   */
  lemma RefractedLength(k: real, p: V3, s: real, n: V3, x: real)
    requires Dot(n, n) == 1.0 && Dot(p, n) == 0.0 && Dot(p, p) == x
    ensures Dot(Sub(Scale(k, p), Scale(s, n)), Sub(Scale(k, p), Scale(s, n))) == k * k * x + s * s
  {
    var t := Sub(Scale(k, p), Scale(s, n));
    DotCombination(k, p, s, n, n);
    DotCombination(k, p, s, n, p);
    DotCombination(k, p, s, n, t);
    assert Dot(t, p) == k * x;
    assert Dot(t, n) == -s;
    assert Dot(t, t) == k * (k * x) - s * (-s);
  }

  /** Dot products distribute over a difference of scaled vectors. */
  lemma DotCombination(a: real, p: V3, b: real, q: V3, m: V3)
    ensures Dot(Sub(Scale(a, p), Scale(b, q)), m) == a * Dot(p, m) - b * Dot(q, m)
    ensures Dot(m, Sub(Scale(a, p), Scale(b, q))) == a * Dot(p, m) - b * Dot(q, m)
  {
    var v := Sub(Scale(a, p), Scale(b, q));
    assert v.x * m.x == a * (p.x * m.x) - b * (q.x * m.x);
    assert v.y * m.y == a * (p.y * m.y) - b * (q.y * m.y);
    assert v.z * m.z == a * (p.z * m.z) - b * (q.z * m.z);
  }
}
