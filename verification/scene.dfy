/**
 * `ray2.Scene`: the camera, lights, surfaces, textures and shaders the parser fills in, the
 * exposure and sample count, and `init`, which places the surface tree, flattens it into
 * the BVH and initialises the camera and the lights. After `init`, `getFirstIntersection`
 * finds the nearest surface a ray meets and `getAnyIntersection` whether it meets any.
 */
module Scenes {
  import opened Wrappers
  import opened Geometry
  import opened Surfaces
  import Intersections
  import Lights
  import Cameras
  import Cubemaps
  import Textures
  import Shaders
  import Bvh
  import BvhTraversal
  import SurfaceBounds
  import SurfaceHits

  /** The acceleration structure: the (reordered) surface array and the root, absent when empty. */
  datatype Accel = Accel(items: seq<Bvh.Item<Surface>>, tree: Option<Bvh.Node>)

  datatype Scene = Scene(
    camera: Option<Cameras.Camera>,
    backColor: Color,
    exposure: real,
    lights: seq<Lights.Light>,
    surfaces: seq<Surface>,
    textures: seq<Textures.Texture>,
    shaders: seq<Shaders.Shader>,
    cubemap: Option<Cubemaps.Cubemap>,
    samples: int,
    accel: Accel)

  /** A fresh scene: no camera, black background, exposure 1, no samples set, an empty BVH. */
  function NewScene(): (s: Scene)
    ensures s.exposure > 0.0 && |s.surfaces| == 0 && |s.lights| == 0
  {
    Scene(None, Zero(), 1.0, [], [], [], [], None, 0, Accel([], None))
  }

  // ---------------------------------------------------------------- exposure

  /** `setExposure`: a value that is not positive is ignored. */
  function SetExposure(s: Scene, e: real): (r: Scene)
    ensures e > 0.0 ==> r.exposure == e
    ensures s.exposure > 0.0 ==> r.exposure > 0.0
    ensures r == s.(exposure := r.exposure)
  {
    if e > 0.0 then s.(exposure := e) else s
  }

  /** The scene after setting each exposure of es in turn. */
  function SetExposures(s: Scene, es: seq<real>): Scene
    decreases |es|
  {
    if |es| == 0 then s else SetExposures(SetExposure(s, es[0]), es[1..])
  }

  /** The exposure after a run of `setExposure` calls: the last positive one, or the start value. */
  function LastPositive(start: real, es: seq<real>): real
    decreases |es|
  {
    if |es| == 0 then start
    else if es[|es| - 1] > 0.0 then es[|es| - 1]
    else LastPositive(start, es[..|es| - 1])
  }

  /**
   * Whatever the parser passes, a scene that starts with a positive exposure keeps one: the
   * exposure is the last positive value given, or the initial one, and nothing else changes.
   */
  lemma {:induction false} ExposureStaysPositive(s: Scene, es: seq<real>)
    requires s.exposure > 0.0
    ensures SetExposures(s, es).exposure > 0.0
    ensures SetExposures(s, es).exposure == LastPositive(s.exposure, es)
    ensures SetExposures(s, es) == s.(exposure := SetExposures(s, es).exposure)
    decreases |es|
  {
    if |es| > 0 {
      var s1 := SetExposure(s, es[0]);
      ExposureStaysPositive(s1, es[1..]);
      LastPositiveShift(s.exposure, es);
    }
  }

  /** Consuming the first value folds it into the start value. */
  lemma {:induction false} LastPositiveShift(start: real, es: seq<real>)
    requires |es| > 0
    ensures LastPositive(start, es) == LastPositive(if es[0] > 0.0 then es[0] else start, es[1..])
    decreases |es|
  {
    if |es| > 1 {
      var init := es[..|es| - 1];
      assert init[0] == es[0];
      assert init[1..] == es[1..][..|es[1..]| - 1];
      LastPositiveShift(start, init);
    }
  }

  // ---------------------------------------------------------------- samples

  /** `getSamples`: a scene whose sample count was never set takes one sample. */
  function GetSamples(s: Scene): (n: int)
    ensures s.samples != 0 ==> n == s.samples
    ensures s.samples == 0 ==> n == 1
    ensures s.samples >= 0 ==> n >= 1
  {
    if s.samples == 0 then 1 else s.samples
  }

  /**
   * `(int) Math.round(Math.sqrt(n))` on a Java int: the integer nearest the square root.
   * The square root of a negative number is NaN, which rounds to 0.
   */
  function RoundSqrt(n: int): (k: int)
    ensures n <= 0 ==> k == 0
    ensures n > 0 ==> k >= 1 && k * k - k < n <= k * k + k
  {
    if n <= 0 then 0 else RoundSqrtFrom(n, 1)
  }

  /** The search for the rounded root, from candidate k up. */
  function RoundSqrtFrom(n: int, k: int): (r: int)
    requires 1 <= k && k * k - k < n
    ensures r >= k && r * r - r < n <= r * r + r
    decreases n - k
  {
    if n <= k * k + k then k
    else
      SquareStep(k);
      RoundSqrtFrom(n, k + 1)
  }

  lemma SquareStep(k: int)
    requires k >= 1
    ensures (k + 1) * (k + 1) - (k + 1) == k * k + k && k * k >= k
  {
    assert k * k - k == k * (k - 1) >= 0;
  }

  /** Math.round(x) = floor(x + 1/2): k rounds sqrt(n) when k - 1/2 <= sqrt(n) < k + 1/2. */
  ghost predicate RoundsRoot(n: int, k: int) {
    k >= 1 && (k * k - k) as real + 0.25 <= n as real < (k * k + k) as real + 0.25
  }

  /** The integer interval the search finds is exactly the rounding of the real square root. */
  lemma RoundSqrtRounds(n: int)
    requires n > 0
    ensures RoundsRoot(n, RoundSqrt(n))
  {
  }

  /** No other positive integer rounds the same square root: RoundSqrt is the rounding. */
  lemma RoundSqrtUnique(n: int, m: int)
    requires RoundsRoot(n, m)
    ensures m == RoundSqrt(n)
  {
    var k := RoundSqrt(n);
    RoundsRootInInts(n, m);
    if m < k {
      IntervalsOrdered(m, k);
    } else if k < m {
      IntervalsOrdered(k, m);
    }
  }

  /** On integers the rounding condition is k*k - k < n <= k*k + k. */
  lemma RoundsRootInInts(n: int, k: int)
    requires k >= 1
    ensures RoundsRoot(n, k) <==> k * k - k < n <= k * k + k
  {
  }

  /** The intervals of successive candidates follow one another without overlap. */
  lemma IntervalsOrdered(a: int, b: int)
    requires 1 <= a < b
    ensures a * a + a <= b * b - b
  {
    var d := b - a - 1;
    assert b * b - b - (a * a + a) == d * (a + b) by {
      assert b == a + d + 1;
    }
    assert d * (a + b) >= 0;
  }

  /** `setSamples`: the per-axis sample count whose square is nearest the requested total. */
  function SetSamples(s: Scene, n: int): (r: Scene)
    ensures r == s.(samples := r.samples)
    ensures n > 0 ==> RoundsRoot(n, r.samples)
    ensures n <= 0 ==> r.samples == 0
  {
    s.(samples := RoundSqrt(n))
  }

  /** Asking for m*m samples gives m per axis, and `getSamples` reports m. */
  lemma SquareSamples(s: Scene, m: int)
    requires m >= 1
    ensures GetSamples(SetSamples(s, m * m)) == m
  {
    RoundSqrtUnique(m * m, m);
  }

  // ---------------------------------------------------------------- adding elements

  /** `addLight`, `addSurface`, `addTexture`, `addShader`: each appends to its list. */
  function AddLight(s: Scene, l: Lights.Light): (r: Scene)
    ensures r.lights == s.lights + [l] && r == s.(lights := r.lights)
  {
    s.(lights := s.lights + [l])
  }

  function AddSurface(s: Scene, x: Surface): (r: Scene)
    ensures r.surfaces == s.surfaces + [x] && r == s.(surfaces := r.surfaces)
  {
    s.(surfaces := s.surfaces + [x])
  }

  function AddTexture(s: Scene, t: Textures.Texture): (r: Scene)
    ensures r.textures == s.textures + [t] && r == s.(textures := r.textures)
  {
    s.(textures := s.textures + [t])
  }

  function AddShader(s: Scene, sh: Shaders.Shader): (r: Scene)
    ensures r.shaders == s.shaders + [sh] && r == s.(shaders := r.shaders)
  {
    s.(shaders := s.shaders + [sh])
  }

  // ---------------------------------------------------------------- init

  /** `setTransform`: every top-level surface is placed under the identity. */
  function SetTransform(ss: seq<Surface>, invert: Affine -> Affine): (r: seq<Surface>)
    ensures |r| == |ss|
    ensures forall i :: 0 <= i < |r| ==> r[i] == SetTransformation(ss[i], NoXform(), invert)
  {
    if |ss| == 0 then [] else [SetTransformation(ss[0], NoXform(), invert)] + SetTransform(ss[1..], invert)
  }

  /** Placing a surface twice under the same matrix changes nothing the second time. */
  lemma {:induction false} SetTransformationIdempotent(s: Surface, xf: Xform, invert: Affine -> Affine)
    ensures SetTransformation(SetTransformation(s, xf, invert), xf, invert) == SetTransformation(s, xf, invert)
    decreases s
  {
    if s.Group? {
      var r := SetTransformation(s, xf, invert);
      var rr := SetTransformation(r, xf, invert);
      assert rr.xf == r.xf;
      forall j | 0 <= j < |r.objs|
        ensures rr.objs[j] == r.objs[j]
      {
        assert s.objs[j] < s;
        SetTransformationIdempotent(s.objs[j], r.xf, invert);
      }
      assert rr.objs == r.objs;
    }
  }

  /** `init` may run again: setting the transforms of placed surfaces keeps them as they are. */
  lemma SetTransformIdempotent(ss: seq<Surface>, invert: Affine -> Affine)
    ensures SetTransform(SetTransform(ss, invert), invert) == SetTransform(ss, invert)
  {
    var r := SetTransform(ss, invert);
    forall i | 0 <= i < |ss| ensures SetTransform(r, invert)[i] == r[i] {
      SetTransformationIdempotent(ss[i], NoXform(), invert);
    }
  }

  /** The loop over `appendRenderableSurfaces`: every surface's renderables, in list order. */
  function Renderables(ss: seq<Surface>): seq<Surface>
    decreases |ss|
  {
    if |ss| == 0 then [] else Flatten(ss[0]) + Renderables(ss[1..])
  }

  /** Adding a surface to the scene adds its renderables after the earlier ones. */
  lemma {:induction false} RenderablesAppend(ss: seq<Surface>, x: Surface)
    ensures Renderables(ss + [x]) == Renderables(ss) + Flatten(x)
    decreases |ss|
  {
    if |ss| == 0 {
      assert Renderables([x][1..]) == [];
    } else {
      assert (ss + [x])[1..] == ss[1..] + [x];
      RenderablesAppend(ss[1..], x);
    }
  }

  /** Only spheres, cylinders and triangles reach the BVH. */
  lemma {:induction false} RenderablesRenderable(ss: seq<Surface>)
    ensures forall x :: x in Renderables(ss) ==> Renderable(x)
    decreases |ss|
  {
    if |ss| > 0 {
      FlattenRenderable(ss[0]);
      RenderablesRenderable(ss[1..]);
    }
  }

  /** Every renderable has a bounding box (a triangle's face indices lie within its mesh). */
  predicate AllBounded(rs: seq<Surface>) {
    forall i :: 0 <= i < |rs| ==> SurfaceBounds.Bounds(rs[i]).Some?
  }

  /** The BVH entries of the renderables, in order. */
  function ItemsOf(rs: seq<Surface>): (items: seq<Bvh.Item<Surface>>)
    requires AllBounded(rs)
    ensures |items| == |rs|
    ensures forall i :: 0 <= i < |rs| ==> items[i] == SurfaceBounds.ItemOf(rs[i])
  {
    if |rs| == 0 then [] else [SurfaceBounds.ItemOf(rs[0])] + ItemsOf(rs[1..])
  }

  /** `camera.init()`, dispatched on the kind of camera. */
  function InitCamera(sqrt: real -> real, c: Cameras.Camera): (r: Cameras.Camera)
    requires IsSqrt(sqrt)
    ensures r.proj == c.proj && r.view.viewPoint == c.view.viewPoint && r.view.viewDir == c.view.viewDir
  {
    match c.proj
    case Parallel => Cameras.InitParallel(sqrt, c.view)
    case Perspective(d) => Cameras.InitPerspective(sqrt, c.view, d)
  }

  /** `light.init()` for each light, in order. */
  function InitLights(sqrt: real -> real, ls: seq<Lights.Light>): (r: seq<Lights.Light>)
    ensures |r| == |ls|
    ensures forall i :: 0 <= i < |ls| ==> r[i] == Lights.Init(sqrt, ls[i])
  {
    if |ls| == 0 then [] else [Lights.Init(sqrt, ls[0])] + InitLights(sqrt, ls[1..])
  }

  /** The acceleration structure's root indexes only entries of its array. */
  predicate Built(s: Scene) {
    s.accel.tree.Some? ==> BvhTraversal.InBounds(s.accel.tree.value, |s.accel.items|)
  }

  /**
   * `Scene.init`. Java throws when the camera is missing (a null pointer) or when a triangle
   * names a vertex its mesh lacks (an index out of bounds while computing its box); both
   * are None here. Surfaces' and shaders' `init` do nothing.
   */
  function Init(sqrt: real -> real, invert: Affine -> Affine, s: Scene): (r: Option<Scene>)
    requires IsSqrt(sqrt)
    ensures r.Some? <==> s.camera.Some? && AllBounded(Renderables(SetTransform(s.surfaces, invert)))
    ensures r.Some? ==> Built(r.value)
    ensures r.Some? ==>
      var placed := SetTransform(s.surfaces, invert);
      var rs := Renderables(placed);
      r.value.surfaces == placed
      && multiset(r.value.accel.items) == multiset(ItemsOf(rs))
      && (r.value.accel.tree.Some? <==> |rs| > 0)
      && r.value.accel == Accel(Bvh.Build(ItemsOf(rs)).0, Bvh.Build(ItemsOf(rs)).1)
      && r.value.camera == Some(InitCamera(sqrt, s.camera.value))
      && r.value.lights == InitLights(sqrt, s.lights)
      && r.value == s.(surfaces := placed, camera := r.value.camera, lights := r.value.lights,
                       accel := r.value.accel)
  {
    var placed := SetTransform(s.surfaces, invert);
    var rs := Renderables(placed);
    if s.camera.None? || !AllBounded(rs) then None
    else
      var (arr, tree) := Bvh.Build(ItemsOf(rs));
      BuiltInBounds(ItemsOf(rs));
      Some(s.(surfaces := placed, accel := Accel(arr, tree),
              camera := Some(InitCamera(sqrt, s.camera.value)), lights := InitLights(sqrt, s.lights)))
  }

  lemma BuiltInBounds<S>(items: seq<Bvh.Item<S>>)
    ensures Bvh.Build(items).1.Some? ==> BvhTraversal.InBounds(Bvh.Build(items).1.value, |Bvh.Build(items).0|)
  {
    if |items| > 0 {
      Bvh.BuildValid(items);
      BvhTraversal.ValidInBounds(Bvh.Build(items).1.value, Bvh.Build(items).0, 0, |items|);
    }
  }

  // ---------------------------------------------------------------- intersection queries

  /** `getFirstIntersection`: the BVH in nearest-hit mode; out is returned when nothing is hit. */
  function FirstIntersection(sqrt: real -> real, s: Scene, r: Ray, out: Option<BvhTraversal.Hit<Surface>>)
    : (res: (bool, Option<BvhTraversal.Hit<Surface>>))
    requires IsSqrt(sqrt) && Built(s)
    ensures s.accel.tree.None? ==> res == (false, out)
  {
    BvhTraversal.Intersect(s.accel.tree, s.accel.items, SurfaceHits.HitFn(sqrt), r, out, false)
  }

  /** Started from an empty record, a first-hit query fills the record exactly when it reports a hit. */
  lemma FirstIntersectionRecord(sqrt: real -> real, s: Scene, r: Ray)
    requires IsSqrt(sqrt) && Built(s)
    ensures FirstIntersection(sqrt, s, r, None).1.Some? == FirstIntersection(sqrt, s, r, None).0
  {
    if s.accel.tree.Some? {
      BvhTraversal.NoHitNoRecord(s.accel.tree.value, s.accel.items, SurfaceHits.HitFn(sqrt), r);
    }
  }

  /** `getAnyIntersection`: the BVH in any-hit mode, with a fresh record. */
  function AnyIntersection(sqrt: real -> real, s: Scene, r: Ray): (b: bool)
    requires IsSqrt(sqrt) && Built(s)
    ensures s.accel.tree.None? ==> !b
  {
    BvhTraversal.Intersect(s.accel.tree, s.accel.items, SurfaceHits.HitFn(sqrt), r, None, true).0
  }

  /** The BVH's leaf test on x: the surface's hit, kept when strictly before the ray's end. */
  lemma LeafTestIsHitInWindow(sqrt: real -> real, x: Surface, r: Ray)
    requires IsSqrt(sqrt)
    ensures var o := BvhTraversal.HitBelow(SurfaceHits.HitFn(sqrt), x, r);
      (o.Some? <==> SurfaceHits.SurfaceHit(sqrt, x, r).Some? && Below(SurfaceHits.SurfaceHit(sqrt, x, r).value, r.end))
      && (o.Some? ==> o == SurfaceHits.SurfaceHit(sqrt, x, r))
  {
  }

  /** Some renderable is hit within the ray's window. */
  ghost predicate HitsAny(sqrt: real -> real, rs: seq<Surface>, r: Ray)
    requires IsSqrt(sqrt)
  {
    AnyBelow(SurfaceHits.HitFn(sqrt), rs, r)
  }

  /** h names a surface of rs hit at h.t, and no surface of rs is hit earlier in the window. */
  ghost predicate NearestIn<S>(hit: (S, Ray) -> Option<real>, rs: seq<S>, r: Ray, h: BvhTraversal.Hit<S>) {
    (exists i :: 0 <= i < |rs| && rs[i] == h.surf && BvhTraversal.HitBelow(hit, rs[i], r) == Some(h.t))
    && forall i :: 0 <= i < |rs| && BvhTraversal.HitBelow(hit, rs[i], r).Some? ==>
         h.t <= BvhTraversal.HitBelow(hit, rs[i], r).value
  }

  /** The nearest renderable hit in the window. */
  ghost predicate NearestAmong(sqrt: real -> real, rs: seq<Surface>, r: Ray, h: BvhTraversal.Hit<Surface>)
    requires IsSqrt(sqrt)
  {
    NearestIn(SurfaceHits.HitFn(sqrt), rs, r, h)
  }

  /** All placed renderables carry matrices that invert each other. */
  ghost predicate Invertible(rs: seq<Surface>) {
    forall i :: 0 <= i < |rs| ==> Intersections.Inverts(rs[i].xf.m, rs[i].xf.inv)
  }

  /**
   * After `init`, `getFirstIntersection` finds a hit exactly when some renderable surface is
   * hit in the ray's window, and then reports one of the nearest; `getAnyIntersection`
   * answers the same yes-or-no question.
   */
  lemma FirstIntersectionIsNearest(sqrt: real -> real, invert: Affine -> Affine, s0: Scene, r: Ray,
                                   out: Option<BvhTraversal.Hit<Surface>>)
    requires IsSqrt(sqrt) && Init(sqrt, invert, s0).Some? && AtMost(r.start, r.end)
    requires Invertible(Renderables(Init(sqrt, invert, s0).value.surfaces))
    ensures var s := Init(sqrt, invert, s0).value;
      var rs := Renderables(s.surfaces);
      var res := FirstIntersection(sqrt, s, r, out);
      (res.0 <==> HitsAny(sqrt, rs, r))
      && (AnyIntersection(sqrt, s, r) <==> HitsAny(sqrt, rs, r))
      && (res.0 ==> res.1.Some? && NearestAmong(sqrt, rs, r, res.1.value))
  {
    var s := Init(sqrt, invert, s0).value;
    var rs := Renderables(s.surfaces);
    assert rs == Renderables(SetTransform(s0.surfaces, invert));
    BuiltFindsNearest(sqrt, s, rs, r, out);
  }

  /** The search over a BVH built from the entries of rs is the search over rs. */
  lemma BuiltFindsNearest(sqrt: real -> real, s: Scene, rs: seq<Surface>, r: Ray,
                          out: Option<BvhTraversal.Hit<Surface>>)
    requires IsSqrt(sqrt) && AllBounded(rs) && Invertible(rs) && AtMost(r.start, r.end)
    requires s.accel == Accel(Bvh.Build(ItemsOf(rs)).0, Bvh.Build(ItemsOf(rs)).1) && Built(s)
    ensures var res := FirstIntersection(sqrt, s, r, out);
      (res.0 <==> HitsAny(sqrt, rs, r))
      && (AnyIntersection(sqrt, s, r) <==> HitsAny(sqrt, rs, r))
      && (res.0 ==> res.1.Some? && NearestAmong(sqrt, rs, r, res.1.value))
  {
    ItemsSound(sqrt, rs);
    SurfaceHits.HitFnConsistent(sqrt);
    BuildSearchesList(SurfaceHits.HitFn(sqrt), ItemsOf(rs), rs, r, out);
  }

  /**
   * For any consistent hit test and sound entries, searching the BVH built over the entries
   * of rs answers the questions asked of rs itself.
   */
  lemma BuildSearchesList<S(!new)>(hit: (S, Ray) -> Option<real>, items: seq<Bvh.Item<S>>, rs: seq<S>, r: Ray,
                                   out: Option<BvhTraversal.Hit<S>>)
    requires EntriesOf(items, rs)
    requires BvhTraversal.Consistent(hit) && AtMost(r.start, r.end)
    requires forall it :: it in items ==> BvhTraversal.SoundItem(hit, it)
    ensures var (arr, tree) := Bvh.Build(items);
      tree.Some? ==> BvhTraversal.InBounds(tree.value, |arr|)
    ensures var (arr, tree) := Bvh.Build(items);
      var res := BvhTraversal.Intersect(tree, arr, hit, r, out, false);
      (res.0 <==> AnyBelow(hit, rs, r))
      && (BvhTraversal.Intersect(tree, arr, hit, r, None, true).0 <==> AnyBelow(hit, rs, r))
      && (res.0 ==> res.1.Some? && NearestIn(hit, rs, r, res.1.value))
  {
    if |rs| == 0 {
      assert !AnyBelow(hit, rs, r);
    } else {
      NonEmptyBuildSearchesList(hit, items, rs, r, out);
      NonEmptyBuildSearchesList(hit, items, rs, r, None);
    }
  }

  lemma NonEmptyBuildSearchesList<S(!new)>(hit: (S, Ray) -> Option<real>, items: seq<Bvh.Item<S>>, rs: seq<S>,
                                           r: Ray, out: Option<BvhTraversal.Hit<S>>)
    requires EntriesOf(items, rs) && |rs| > 0
    requires BvhTraversal.Consistent(hit) && AtMost(r.start, r.end)
    requires forall it :: it in items ==> BvhTraversal.SoundItem(hit, it)
    ensures Bvh.Build(items).1.Some? && BvhTraversal.InBounds(Bvh.Build(items).1.value, |Bvh.Build(items).0|)
    ensures var arr := Bvh.Build(items).0;
      var tree := Bvh.Build(items).1;
      var res := BvhTraversal.Intersect(tree, arr, hit, r, out, false);
      (res.0 <==> AnyBelow(hit, rs, r))
      && (BvhTraversal.Intersect(tree, arr, hit, r, out, true).0 <==> AnyBelow(hit, rs, r))
      && (res.0 ==> res.1.Some? && NearestIn(hit, rs, r, res.1.value))
  {
    var arr := Bvh.Build(items).0;
    BvhTraversal.BvhFindsNearest(items, hit, r, out);
    EntryHitIsSurfaceHit(hit, arr, items, rs, r);
    SurfaceHitIsEntryHit(hit, arr, items, rs, r);
    var res := BvhTraversal.Intersect(Bvh.Build(items).1, arr, hit, r, out, false);
    if res.0 {
      NearestTransfers(hit, arr, items, rs, r, res.1.value);
    }
  }

  /** Every BVH entry of surfaces whose matrices invert each other is sound for the hit test. */
  lemma ItemsSound(sqrt: real -> real, rs: seq<Surface>)
    requires IsSqrt(sqrt) && AllBounded(rs) && Invertible(rs)
    ensures forall it :: it in ItemsOf(rs) ==> BvhTraversal.SoundItem(SurfaceHits.HitFn(sqrt), it)
  {
    var items := ItemsOf(rs);
    forall it | it in items ensures BvhTraversal.SoundItem(SurfaceHits.HitFn(sqrt), it) {
      var i :| 0 <= i < |items| && items[i] == it;
      SurfaceHits.ItemSound(sqrt, rs[i]);
    }
  }

  /** Entries, in order, of the surfaces of rs, as `ItemsOf` builds them. */
  ghost predicate EntriesOf<S>(items: seq<Bvh.Item<S>>, rs: seq<S>) {
    |items| == |rs| && forall i :: 0 <= i < |rs| ==> items[i].surf == rs[i]
  }

  /** Each entry of a reordering of the entries holds some surface of rs. */
  lemma EntryInList<S>(arr: seq<Bvh.Item<S>>, items: seq<Bvh.Item<S>>, rs: seq<S>, j: int)
    requires EntriesOf(items, rs) && multiset(arr) == multiset(items) && 0 <= j < |arr|
    ensures exists i :: 0 <= i < |rs| && rs[i] == arr[j].surf
  {
    assert arr[j] in multiset(items);
    var i :| 0 <= i < |items| && items[i] == arr[j];
    assert rs[i] == arr[j].surf;
  }

  /** Each surface of rs sits in some entry of a reordering of its entries. */
  lemma ListInEntries<S>(arr: seq<Bvh.Item<S>>, items: seq<Bvh.Item<S>>, rs: seq<S>, i: int)
    requires EntriesOf(items, rs) && multiset(arr) == multiset(items) && 0 <= i < |rs|
    ensures exists j :: 0 <= j < |arr| && arr[j].surf == rs[i]
  {
    assert items[i] in multiset(arr);
    var j :| 0 <= j < |arr| && arr[j] == items[i];
    assert arr[j].surf == rs[i];
  }

  /** A hit entry of the array is a hit surface of rs. */
  lemma EntryHitIsSurfaceHit<S>(hit: (S, Ray) -> Option<real>, arr: seq<Bvh.Item<S>>, items: seq<Bvh.Item<S>>,
                                rs: seq<S>, r: Ray)
    requires EntriesOf(items, rs) && multiset(arr) == multiset(items)
    ensures BvhTraversal.AnyIn(arr, 0, |arr|, hit, r) ==> AnyBelow(hit, rs, r)
  {
    if BvhTraversal.AnyIn(arr, 0, |arr|, hit, r) {
      var j :| 0 <= j < |arr| && BvhTraversal.T(arr, j, hit, r).Some?;
      EntryInList(arr, items, rs, j);
      var i :| 0 <= i < |rs| && rs[i] == arr[j].surf;
      assert BvhTraversal.HitBelow(hit, rs[i], r).Some?;
    }
  }

  /** A hit surface of rs is a hit entry of the array. */
  lemma SurfaceHitIsEntryHit<S>(hit: (S, Ray) -> Option<real>, arr: seq<Bvh.Item<S>>, items: seq<Bvh.Item<S>>,
                                rs: seq<S>, r: Ray)
    requires EntriesOf(items, rs) && multiset(arr) == multiset(items)
    ensures AnyBelow(hit, rs, r) ==> BvhTraversal.AnyIn(arr, 0, |arr|, hit, r)
  {
    if AnyBelow(hit, rs, r) {
      var i :| 0 <= i < |rs| && BvhTraversal.HitBelow(hit, rs[i], r).Some?;
      ListInEntries(arr, items, rs, i);
      var j :| 0 <= j < |arr| && arr[j].surf == rs[i];
      assert BvhTraversal.T(arr, j, hit, r).Some?;
    }
  }

  /** Some surface of rs is hit strictly before the ray's end. */
  ghost predicate AnyBelow<S>(hit: (S, Ray) -> Option<real>, rs: seq<S>, r: Ray) {
    exists i :: 0 <= i < |rs| && BvhTraversal.HitBelow(hit, rs[i], r).Some?
  }

  /** A nearest hit among the array's entries is a nearest hit among the surfaces of rs. */
  lemma NearestTransfers<S>(hit: (S, Ray) -> Option<real>, arr: seq<Bvh.Item<S>>, items: seq<Bvh.Item<S>>,
                            rs: seq<S>, r: Ray, h: BvhTraversal.Hit<S>)
    requires EntriesOf(items, rs) && multiset(arr) == multiset(items)
    requires BvhTraversal.IsNearest(arr, 0, |arr|, hit, r, h)
    ensures NearestIn(hit, rs, r, h)
  {
    var m :| 0 <= m < |arr| && arr[m].surf == h.surf && BvhTraversal.T(arr, m, hit, r) == Some(h.t);
    EntryInList(arr, items, rs, m);
    var i0 :| 0 <= i0 < |rs| && rs[i0] == arr[m].surf;
    assert BvhTraversal.HitBelow(hit, rs[i0], r) == Some(h.t);
    forall i | 0 <= i < |rs| && BvhTraversal.HitBelow(hit, rs[i], r).Some?
      ensures h.t <= BvhTraversal.HitBelow(hit, rs[i], r).value
    {
      ListInEntries(arr, items, rs, i);
      var j :| 0 <= j < |arr| && arr[j].surf == rs[i];
      assert BvhTraversal.T(arr, j, hit, r) == BvhTraversal.HitBelow(hit, rs[i], r);
    }
  }
}
