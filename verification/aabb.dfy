/**
 * Axis-aligned bounding boxes: enclosure by componentwise min/max and the ray/box slab
 * test of `BvhNode.intersects`.
 */
module Aabb {
  import opened Wrappers
  import opened Geometry

  /** A closed box [lo, hi]; `BvhNode.minBound` and `maxBound`, or a surface's bounds. */
  datatype Box = Box(lo: V3, hi: V3)

  /** Every lower bound is at most the matching upper bound. */
  predicate WellFormed(b: Box) {
    b.lo.x <= b.hi.x && b.lo.y <= b.hi.y && b.lo.z <= b.hi.z
  }

  /** The point p lies in the closed box b. */
  predicate Inside(b: Box, p: V3) {
    b.lo.x <= p.x <= b.hi.x && b.lo.y <= p.y <= b.hi.y && b.lo.z <= p.z <= b.hi.z
  }

  /** Box `inner` lies inside box `outer`. */
  predicate Contains(outer: Box, inner: Box) {
    outer.lo.x <= inner.lo.x && outer.lo.y <= inner.lo.y && outer.lo.z <= inner.lo.z
    && inner.hi.x <= outer.hi.x && inner.hi.y <= outer.hi.y && inner.hi.z <= outer.hi.z
  }

  /** The degenerate box holding exactly one point. */
  function PointBox(p: V3): Box { Box(p, p) }

  /** Componentwise min of the lower and max of the upper corners. */
  function Hull(a: Box, b: Box): Box {
    Box(MinV(a.lo, b.lo), MaxV(a.hi, b.hi))
  }

  /**
   * The box enclosing a non-empty sequence of boxes, accumulated from the first to the
   * last exactly as the `createTree` and `computeBoundingBox` loops update minB/maxB.
   */
  function RangeBox(bs: seq<Box>): Box
    requires |bs| > 0
    decreases |bs|
  {
    if |bs| == 1 then bs[0] else Hull(RangeBox(bs[..|bs| - 1]), bs[|bs| - 1])
  }

  /** The hull of a sequence of boxes contains each of them. */
  lemma {:induction false} RangeBoxContainsEach(bs: seq<Box>, i: int)
    requires |bs| > 0 && 0 <= i < |bs|
    ensures Contains(RangeBox(bs), bs[i])
    decreases |bs|
  {
    if |bs| > 1 && i < |bs| - 1 {
      RangeBoxContainsEach(bs[..|bs| - 1], i);
    }
  }

  /** ... and it is the least such box: any box containing them all contains the hull. */
  lemma {:induction false} RangeBoxLeast(bs: seq<Box>, outer: Box)
    requires |bs| > 0
    requires forall i :: 0 <= i < |bs| ==> Contains(outer, bs[i])
    ensures Contains(outer, RangeBox(bs))
    decreases |bs|
  {
    if |bs| > 1 {
      RangeBoxLeast(bs[..|bs| - 1], outer);
    }
  }

  /** The hull of well-formed boxes is well formed. */
  lemma {:induction false} RangeBoxWellFormed(bs: seq<Box>)
    requires |bs| > 0
    requires forall i :: 0 <= i < |bs| ==> WellFormed(bs[i])
    ensures WellFormed(RangeBox(bs))
    decreases |bs|
  {
    if |bs| > 1 {
      RangeBoxWellFormed(bs[..|bs| - 1]);
    }
  }

  /** A point inside an inner box is inside every box containing it. */
  lemma InsideContains(outer: Box, inner: Box, p: V3)
    requires Contains(outer, inner) && Inside(inner, p)
    ensures Inside(outer, p)
  {
  }

  // ---------------------------------------------------------------- the slab test

  /**
   * The parameter interval one axis allows. For a non-zero direction component the
   * interval is computed from a = 1/d with near and far swapped when a < 0. For a zero
   * component Java divides by zero; the IEEE result is that the slab admits every t when
   * the origin lies between the planes and none otherwise, which is what All and Empty say.
   */
  datatype Slab = All | Empty | Between(near: real, far: real)

  function AxisSlab(o: real, d: real, lo: real, hi: real): Slab {
    if d == 0.0 then (if lo <= o <= hi then All else Empty)
    else
      var a := 1.0 / d;
      if a >= 0.0 then Between(a * (lo - o), a * (hi - o))
      else Between(a * (hi - o), a * (lo - o))
  }

  predicate InSlab(s: Slab, t: real) {
    match s
    case All => true
    case Empty => false
    case Between(n, f) => n <= t <= f
  }

  /** The running parameter interval [tMin, tMax] of the slab test. */
  datatype Interval = Interval(tMin: real, tMax: Ext)

  predicate InInterval(iv: Interval, t: real) {
    iv.tMin <= t && AtMost(t, iv.tMax)
  }

  predicate NonEmpty(iv: Interval) {
    AtMost(iv.tMin, iv.tMax)
  }

  /** The smaller of an extended bound and a real. */
  function MinExt(e: Ext, x: real): Ext {
    if e.Fin? && e.v <= x then e else Fin(x)
  }

  /**
   * One axis of `BvhNode.intersects`: fail when the slab lies wholly after or before the
   * running interval, otherwise narrow the interval to the slab.
   */
  function Clip(iv: Interval, s: Slab): Option<Interval> {
    match s
    case All => Some(iv)
    case Empty => None
    case Between(n, f) =>
      if iv.tMin > f || (iv.tMax.Fin? && n > iv.tMax.v) then None
      else Some(Interval(Max(iv.tMin, n), MinExt(iv.tMax, f)))
  }

  /** `BvhNode.intersects`: the x, y and z slabs clipped in turn against [start, end]. */
  function Intersects(b: Box, r: Ray): bool {
    var iv0 := Interval(r.start, r.end);
    match Clip(iv0, AxisSlab(r.origin.x, r.direction.x, b.lo.x, b.hi.x))
    case None => false
    case Some(iv1) =>
      match Clip(iv1, AxisSlab(r.origin.y, r.direction.y, b.lo.y, b.hi.y))
      case None => false
      case Some(iv2) => Clip(iv2, AxisSlab(r.origin.z, r.direction.z, b.lo.z, b.hi.z)).Some?
  }

  /** Multiplying by the reciprocal of a positive number keeps the order of a comparison. */
  lemma RecipLe(x: real, d: real, t: real)
    requires d != 0.0
    ensures d > 0.0 ==> ((1.0 / d) * x <= t <==> x <= t * d)
    ensures d > 0.0 ==> (t <= (1.0 / d) * x <==> t * d <= x)
    ensures d < 0.0 ==> ((1.0 / d) * x <= t <==> t * d <= x)
    ensures d < 0.0 ==> (t <= (1.0 / d) * x <==> x <= t * d)
  {
    var a := 1.0 / d;
    assert a * d == 1.0;
    assert x == (a * x) * d;
    if d > 0.0 {
      assert a > 0.0;
      MulMonotone(a * x, t, d);
      MulMonotone(t, a * x, d);
    } else {
      assert a < 0.0;
      MulMonotone(a * x, t, -d);
      MulMonotone(t, a * x, -d);
    }
  }

  lemma MulMonotone(u: real, v: real, k: real)
    requires k > 0.0
    ensures u <= v <==> u * k <= v * k
  {
    if u <= v {
      assert (v - u) * k >= 0.0;
    } else {
      assert (u - v) * k > 0.0;
    }
  }

  /** One axis: the slab holds t exactly when the ray point at t lies between the planes. */
  lemma AxisSlabMeaning(o: real, d: real, lo: real, hi: real, t: real)
    ensures InSlab(AxisSlab(o, d, lo, hi), t) <==> lo <= o + t * d <= hi
  {
    if d != 0.0 {
      RecipLe(lo - o, d, t);
      RecipLe(hi - o, d, t);
    }
  }

  /** With lo <= hi a two-sided slab is non-empty. */
  lemma AxisSlabOrdered(o: real, d: real, lo: real, hi: real)
    requires lo <= hi
    ensures AxisSlab(o, d, lo, hi).Between? ==> AxisSlab(o, d, lo, hi).near <= AxisSlab(o, d, lo, hi).far
  {
    if d != 0.0 {
      var a := 1.0 / d;
      if a >= 0.0 {
        assert a * (hi - o) - a * (lo - o) == a * (hi - lo);
        assert a * (hi - lo) >= 0.0;
      } else {
        assert a * (lo - o) - a * (hi - o) == (-a) * (hi - lo);
        assert (-a) * (hi - lo) >= 0.0;
      }
    }
  }

  /**
   * One clipping step, for a non-empty interval and an ordered slab: it fails exactly
   * when no t lies in both, and otherwise yields a non-empty interval holding exactly the
   * common values.
   */
  lemma ClipMeaning(iv: Interval, s: Slab)
    requires NonEmpty(iv)
    requires s.Between? ==> s.near <= s.far
    ensures Clip(iv, s).None? <==> !(exists t :: InInterval(iv, t) && InSlab(s, t))
    ensures Clip(iv, s).Some? ==> NonEmpty(Clip(iv, s).value)
    ensures Clip(iv, s).Some? ==>
      forall t :: InInterval(Clip(iv, s).value, t) <==> InInterval(iv, t) && InSlab(s, t)
  {
    match s
    case All =>
      assert InInterval(iv, iv.tMin);
    case Empty =>
    case Between(n, f) =>
      if Clip(iv, s).Some? {
        var w := Max(iv.tMin, n);
        assert InInterval(iv, w) && InSlab(s, w);
      }
  }

  /** Three clipping steps in a row, as `BvhNode.intersects` performs them. */
  function ClipAll(iv: Interval, sx: Slab, sy: Slab, sz: Slab): bool {
    match Clip(iv, sx)
    case None => false
    case Some(iv1) =>
      match Clip(iv1, sy)
      case None => false
      case Some(iv2) => Clip(iv2, sz).Some?
  }

  predicate InSlabs(sx: Slab, sy: Slab, sz: Slab, t: real) {
    InSlab(sx, t) && InSlab(sy, t) && InSlab(sz, t)
  }

  /** Clipping three ordered slabs in turn succeeds exactly when they share a value with the interval. */
  lemma ClipAllMeaning(iv: Interval, sx: Slab, sy: Slab, sz: Slab)
    requires NonEmpty(iv)
    requires sx.Between? ==> sx.near <= sx.far
    requires sy.Between? ==> sy.near <= sy.far
    requires sz.Between? ==> sz.near <= sz.far
    ensures ClipAll(iv, sx, sy, sz) <==> exists t :: InInterval(iv, t) && InSlabs(sx, sy, sz, t)
  {
    ClipMeaning(iv, sx);
    if Clip(iv, sx).Some? {
      var iv1 := Clip(iv, sx).value;
      ClipMeaning(iv1, sy);
      if Clip(iv1, sy).Some? {
        var iv2 := Clip(iv1, sy).value;
        ClipMeaning(iv2, sz);
        if Clip(iv2, sz).Some? {
          var w := Clip(iv2, sz).value.tMin;
          assert InInterval(Clip(iv2, sz).value, w);
          assert InInterval(iv, w) && InSlabs(sx, sy, sz, w);
        }
      }
    }
  }

  /** The point at t is in the box exactly when t lies in all three axis slabs. */
  lemma InsideIffSlabs(b: Box, r: Ray, t: real)
    ensures Inside(b, PointAt(r, t)) <==> InSlabs(AxisSlab(r.origin.x, r.direction.x, b.lo.x, b.hi.x),
                                                  AxisSlab(r.origin.y, r.direction.y, b.lo.y, b.hi.y),
                                                  AxisSlab(r.origin.z, r.direction.z, b.lo.z, b.hi.z), t)
  {
    var p := PointAt(r, t);
    AxisAt(r.origin.x, r.direction.x, b.lo.x, b.hi.x, t, p.x);
    AxisAt(r.origin.y, r.direction.y, b.lo.y, b.hi.y, t, p.y);
    AxisAt(r.origin.z, r.direction.z, b.lo.z, b.hi.z, t, p.z);
  }

  lemma AxisAt(o: real, d: real, lo: real, hi: real, t: real, p: real)
    requires p == o + t * d
    ensures InSlab(AxisSlab(o, d, lo, hi), t) <==> lo <= p <= hi
  {
    AxisSlabMeaning(o, d, lo, hi, t);
  }

  /**
   * The slab test is exact: for a well-formed box and a ray with start <= end, it
   * reports a hit if and only if some t in [start, end] puts the ray point inside the
   * closed box (touching a face counts).
   */
  lemma IntersectsIff(b: Box, r: Ray)
    requires WellFormed(b) && AtMost(r.start, r.end)
    ensures Intersects(b, r) <==> exists t :: r.start <= t && AtMost(t, r.end) && Inside(b, PointAt(r, t))
  {
    var sx := AxisSlab(r.origin.x, r.direction.x, b.lo.x, b.hi.x);
    var sy := AxisSlab(r.origin.y, r.direction.y, b.lo.y, b.hi.y);
    var sz := AxisSlab(r.origin.z, r.direction.z, b.lo.z, b.hi.z);
    AxisSlabOrdered(r.origin.x, r.direction.x, b.lo.x, b.hi.x);
    AxisSlabOrdered(r.origin.y, r.direction.y, b.lo.y, b.hi.y);
    AxisSlabOrdered(r.origin.z, r.direction.z, b.lo.z, b.hi.z);
    var iv0 := Interval(r.start, r.end);
    assert Intersects(b, r) == ClipAll(iv0, sx, sy, sz);
    ClipAllMeaning(iv0, sx, sy, sz);
    forall t ensures Inside(b, PointAt(r, t)) <==> InSlabs(sx, sy, sz, t) {
      InsideIffSlabs(b, r, t);
    }
    forall t ensures InInterval(iv0, t) <==> r.start <= t && AtMost(t, r.end) {
    }
  }
}
