/**
 * `splines.CubicBezier`: a cubic Bezier segment approximated by points on it, found by
 * recursive de Casteljau halving, with a unit tangent and normal stored at each point.
 *
 * The flatness test (the two angles between the control polygon's legs compared with
 * epsilon / 2, computed with `acos`) is the parameter `split`: true means "subdivide".
 * Points, tangents and normals are kept as three parallel sequences, as in the source.
 */
module Beziers {
  import opened Geometry

  datatype Ctrl = Ctrl(p0: V2, p1: V2, p2: V2, p3: V2)

  /** `curvePoints`, `curveTangents`, `curveNormals`. */
  datatype Tess = Tess(points: seq<V2>, tangents: seq<V2>, normals: seq<V2>)

  /** The points and tangents `subdivide` appends, in order. */
  datatype Samples = Samples(points: seq<V2>, tangents: seq<V2>)

  /** Subdivision stops at this depth whatever the flatness test says. */
  const MaxDepth: nat := 10

  function Add2(a: V2, b: V2): V2 { V2(a.x + b.x, a.y + b.y) }
  function Sub2(a: V2, b: V2): V2 { V2(a.x - b.x, a.y - b.y) }
  function Scale2(k: real, a: V2): V2 { V2(k * a.x, k * a.y) }
  function Dot2(a: V2, b: V2): real { a.x * b.x + a.y * b.y }

  /** `a.lerp(b, 0.5f)`: the midpoint, whichever end the interpolation starts from. */
  function Mid(a: V2, b: V2): V2 { V2((a.x + b.x) / 2.0, (a.y + b.y) / 2.0) }

  /** `new Vector2(t.y, -t.x)`: the tangent turned a quarter clockwise. */
  function Perp(t: V2): V2 { V2(t.y, -t.x) }

  /** `Vector2.normalize()`; a zero vector (NaN in Java) stays zero here. */
  function Unit2(sqrt: real -> real, v: V2): (r: V2)
    ensures v == V2(0.0, 0.0) ==> r == v
    ensures exists k: real :: r == Scale2(k, v)
  {
    var d := sqrt(Dot2(v, v));
    if v == V2(0.0, 0.0) || d == 0.0 then
      assert v == Scale2(0.0, v) || v != V2(0.0, 0.0);
      if v == V2(0.0, 0.0) then v else Scale2(0.0, v)
    else Scale2(1.0 / d, v)
  }

  /** The stored normal for a stored tangent. */
  function NormalOf(sqrt: real -> real, t: V2): V2 {
    Unit2(sqrt, Perp(t))
  }

  /** The normal stored for each tangent, in order. */
  function NormalsOf(sqrt: real -> real, ts: seq<V2>): (ns: seq<V2>)
    ensures |ns| == |ts|
  {
    if ts == [] then [] else [NormalOf(sqrt, ts[0])] + NormalsOf(sqrt, ts[1..])
  }

  lemma {:induction false} NormalsOfAt(sqrt: real -> real, ts: seq<V2>, k: int)
    requires 0 <= k < |ts|
    ensures NormalsOf(sqrt, ts)[k] == NormalOf(sqrt, ts[k])
  {
    if k > 0 {
      NormalsOfAt(sqrt, ts[1..], k - 1);
    }
  }

  /** The three sequences are parallel and each normal is derived from its tangent. */
  ghost predicate Framed(sqrt: real -> real, r: Tess) {
    |r.points| == |r.tangents| && r.normals == NormalsOf(sqrt, r.tangents)
  }

  // ---------------------------------------------------------------- de Casteljau

  /** The control points of the first half of the curve: p0, p10, p20, p30. */
  function Left(c: Ctrl): (l: Ctrl)
    ensures l.p0 == c.p0
  {
    var p10 := Mid(c.p1, c.p0);
    var p11 := Mid(c.p2, c.p1);
    var p12 := Mid(c.p3, c.p2);
    var p20 := Mid(p11, p10);
    var p21 := Mid(p12, p11);
    Ctrl(c.p0, p10, p20, Mid(p21, p20))
  }

  /** The control points of the second half of the curve: p30, p21, p12, p3. */
  function Right(c: Ctrl): (r: Ctrl)
    ensures r.p3 == c.p3
    ensures r.p0 == Left(c).p3
  {
    var p10 := Mid(c.p1, c.p0);
    var p11 := Mid(c.p2, c.p1);
    var p12 := Mid(c.p3, c.p2);
    var p20 := Mid(p11, p10);
    var p21 := Mid(p12, p11);
    Ctrl(Mid(p21, p20), p21, p12, c.p3)
  }

  /** The cubic Bernstein form of one coordinate. */
  function Bez(a: real, b: real, c: real, d: real, t: real): real {
    var s := 1.0 - t;
    s * s * s * a + 3.0 * s * s * t * b + 3.0 * s * t * t * c + t * t * t * d
  }

  /** The curve's point at parameter t. */
  function BezAt(c: Ctrl, t: real): V2 {
    V2(Bez(c.p0.x, c.p1.x, c.p2.x, c.p3.x, t), Bez(c.p0.y, c.p1.y, c.p2.y, c.p3.y, t))
  }

  /** The two halves de Casteljau's construction gives: p0, p10, p20, p30 and p30, p21, p12, p3. */
  function Halves(c: Ctrl): (h: (Ctrl, Ctrl))
    ensures h.0.p3 == h.1.p0
  {
    (Left(c), Right(c))
  }

  /** The levels of halving still allowed below depth. */
  function Budget(depth: nat): nat {
    if depth >= MaxDepth then 0 else MaxDepth - depth
  }

  /*
   * The recursion below takes the halving step as a parameter `halve`; the curve's own is
   * `Halves`. Kept apart, the shape of the recursion (how many points, in which order) can
   * be reasoned about without the arithmetic of the control points.
   */

  /** How many points `subdivide` stores: one per split performed. */
  function Count(halve: Ctrl -> (Ctrl, Ctrl), c: Ctrl, depth: nat, split: Ctrl -> bool): nat
    decreases Budget(depth)
  {
    if depth >= MaxDepth || !split(c) then 0
    else Count(halve, halve(c).0, depth + 1, split) + 1 + Count(halve, halve(c).1, depth + 1, split)
  }

  /**
   * `subdivide(p0, p1, p2, p3, depth)`: nothing at depth 10 or when the segment is flat
   * enough; otherwise the first half's points, then the midpoint p30 with its tangent, then
   * the second half's points.
   */
  function Subdivide(halve: Ctrl -> (Ctrl, Ctrl), c: Ctrl, depth: nat, split: Ctrl -> bool, sqrt: real -> real): (r: Samples)
    ensures |r.points| == |r.tangents| == Count(halve, c, depth, split)
    decreases Budget(depth)
  {
    if depth >= MaxDepth || !split(c) then Samples([], [])
    else
      var (lc, rc) := halve(c);
      var l := Subdivide(halve, lc, depth + 1, split, sqrt);
      var h := Subdivide(halve, rc, depth + 1, split, sqrt);
      assert Count(halve, c, depth, split) == Count(halve, lc, depth + 1, split) + 1 + Count(halve, rc, depth + 1, split);
      Samples(l.points + [rc.p0] + h.points, l.tangents + [MidTangent(sqrt, lc, rc)] + h.tangents)
  }

  /** The tangent stored with the midpoint: the unit direction from p20 to p21. */
  function MidTangent(sqrt: real -> real, lc: Ctrl, rc: Ctrl): V2 {
    Unit2(sqrt, Sub2(rc.p1, lc.p2))
  }

  /** Below depth d at most 2^(10 - d) - 1 points are stored, and none at depth 10. */
  lemma {:induction false} CountBound(halve: Ctrl -> (Ctrl, Ctrl), c: Ctrl, depth: nat, split: Ctrl -> bool)
    ensures depth <= MaxDepth ==> Count(halve, c, depth, split) < Pow2(MaxDepth - depth)
    ensures depth >= MaxDepth ==> Count(halve, c, depth, split) == 0
    decreases Budget(depth)
  {
    if !(depth >= MaxDepth || !split(c)) {
      var k := MaxDepth - depth;
      var (lc, rc) := halve(c);
      CountBound(halve, lc, depth + 1, split);
      CountBound(halve, rc, depth + 1, split);
      Pow2Step(k);
      HalvesBound(Count(halve, c, depth, split), Count(halve, lc, depth + 1, split),
        Count(halve, rc, depth + 1, split), Pow2(k - 1));
    }
  }

  lemma HalvesBound(n: nat, nl: nat, nr: nat, p: nat)
    requires n == nl + 1 + nr && nl < p && nr < p
    ensures n < 2 * p
  {
  }

  lemma Pow2Step(k: nat)
    requires k >= 1
    ensures Pow2(k) == 2 * Pow2(k - 1)
  {
  }

  function Pow2(n: nat): (p: nat)
    ensures p >= 1
  {
    if n == 0 then 1 else 2 * Pow2(n - 1)
  }

  /**
   * `tessellate()`: p0 with the tangent of the first control leg, then the points found by
   * subdivision, each with the normal of its tangent; never more than 1024 points. Each
   * normal depends on its own tangent only, so the normals are listed here in one pass
   * rather than appended one by one alongside the tangents; the list is the same.
   */
  function Tessellate(c: Ctrl, split: Ctrl -> bool, sqrt: real -> real): (r: Tess)
    ensures Framed(sqrt, r)
    ensures 1 <= |r.points| <= 1024
    ensures r.points[0] == c.p0 && r.tangents[0] == Unit2(sqrt, Sub2(c.p1, c.p0))
  {
    var s := Subdivide(Halves, c, 0, split, sqrt);
    var ts := [Unit2(sqrt, Sub2(c.p1, c.p0))] + s.tangents;
    CountBound(Halves, c, 0, split);
    Pow2Ten();
    Tess([c.p0] + s.points, ts, NormalsOf(sqrt, ts))
  }

  lemma Pow2Ten()
    ensures Pow2(MaxDepth) == 1024
  {
    assert Pow2(2) == 4;
    assert Pow2(4) == 16;
    assert Pow2(6) == 64;
    assert Pow2(8) == 256;
  }

  // ---------------------------------------------------------------- properties

  /** The inserted point p30 is (p0 + 3 p1 + 3 p2 + p3) / 8, the curve's point at t = 1/2. */
  lemma MidpointFormula(c: Ctrl)
    ensures Right(c).p0 == Scale2(1.0 / 8.0, Add2(Add2(c.p0, Scale2(3.0, c.p1)), Add2(Scale2(3.0, c.p2), c.p3)))
    ensures Right(c).p0 == BezAt(c, 0.5)
  {
  }

  /** The Bernstein form read backwards is the same curve run backwards. */
  lemma Mirror(a: real, b: real, c: real, d: real, t: real)
    ensures Bez(a, b, c, d, t) == Bez(d, c, b, a, 1.0 - t)
  {
  }

  lemma LeftHalf1(a: real, b: real, c: real, d: real, t: real)
    ensures Bez(a, (a + b) / 2.0, (a + 2.0 * b + c) / 4.0, (a + 3.0 * b + 3.0 * c + d) / 8.0, t)
         == Bez(a, b, c, d, t / 2.0)
  {
  }

  lemma RightHalf1(a: real, b: real, c: real, d: real, t: real)
    ensures Bez((a + 3.0 * b + 3.0 * c + d) / 8.0, (b + 2.0 * c + d) / 4.0, (c + d) / 2.0, d, t)
         == Bez(a, b, c, d, (1.0 + t) / 2.0)
  {
    var m := (a + 3.0 * b + 3.0 * c + d) / 8.0;
    Mirror(m, (b + 2.0 * c + d) / 4.0, (c + d) / 2.0, d, t);
    LeftHalf1(d, c, b, a, 1.0 - t);
    assert (d + 3.0 * c + 3.0 * b + a) / 8.0 == m;
    Mirror(a, b, c, d, (1.0 + t) / 2.0);
    assert 1.0 - (1.0 + t) / 2.0 == (1.0 - t) / 2.0;
  }

  /** The first half's control points trace the curve's parameters 0 to 1/2. */
  lemma LeftHalf(c: Ctrl, t: real)
    ensures BezAt(Left(c), t) == BezAt(c, t / 2.0)
  {
    LeftHalf1(c.p0.x, c.p1.x, c.p2.x, c.p3.x, t);
    LeftHalf1(c.p0.y, c.p1.y, c.p2.y, c.p3.y, t);
  }

  /** The second half's control points trace the curve's parameters 1/2 to 1. */
  lemma RightHalf(c: Ctrl, t: real)
    ensures BezAt(Right(c), t) == BezAt(c, (1.0 + t) / 2.0)
  {
    RightHalf1(c.p0.x, c.p1.x, c.p2.x, c.p3.x, t);
    RightHalf1(c.p0.y, c.p1.y, c.p2.y, c.p3.y, t);
  }

  /** The derivative of the curve at t, per coordinate. */
  function Slope(a: real, b: real, c: real, d: real, t: real): real {
    var s := 1.0 - t;
    3.0 * (s * s * (b - a) + 2.0 * s * t * (c - b) + t * t * (d - c))
  }

  /** The midpoint's tangent is taken along p21 - p20, a third of the curve's derivative there. */
  lemma MidTangentIsDerivative(c: Ctrl)
    ensures Scale2(3.0, Sub2(Right(c).p1, Left(c).p2))
         == V2(Slope(c.p0.x, c.p1.x, c.p2.x, c.p3.x, 0.5), Slope(c.p0.y, c.p1.y, c.p2.y, c.p3.y, 0.5))
  {
  }

  /** Every stored normal is perpendicular to its tangent. */
  lemma NormalsPerpendicular(sqrt: real -> real, r: Tess, k: int)
    requires Framed(sqrt, r) && 0 <= k < |r.normals|
    ensures Dot2(r.normals[k], r.tangents[k]) == 0.0
  {
    NormalsOfAt(sqrt, r.tangents, k);
    NormalPerpendicular(sqrt, r.tangents[k]);
  }

  /** The normal of a tangent is perpendicular to it. */
  lemma NormalPerpendicular(sqrt: real -> real, t: V2)
    ensures Dot2(NormalOf(sqrt, t), t) == 0.0
  {
    var k := NormalScalesPerp(sqrt, t);
    ScaledPerpPerpendicular(k, t);
  }

  lemma NormalScalesPerp(sqrt: real -> real, t: V2) returns (k: real)
    ensures NormalOf(sqrt, t) == Scale2(k, Perp(t))
  {
    k :| Unit2(sqrt, Perp(t)) == Scale2(k, Perp(t));
  }

  lemma ScaledPerpPerpendicular(k: real, t: V2)
    ensures Dot2(Scale2(k, Perp(t)), t) == 0.0
  {
    ScaledPerpDot(k, t.x, t.y);
  }

  lemma ScaledPerpDot(k: real, x: real, y: real)
    ensures (k * y) * x + (k * -x) * y == 0.0
  {
  }

  /** c traces the part of the curve between the parameters lo and hi. */
  ghost predicate Restricts(c: Ctrl, curve: real -> V2, lo: real, hi: real) {
    forall t: real :: BezAt(c, t) == curve(lo + t * (hi - lo))
  }

  /** The parameters at which `Subdivide` stores its points, in the order it stores them. */
  ghost function Params(halve: Ctrl -> (Ctrl, Ctrl), c: Ctrl, depth: nat, split: Ctrl -> bool, lo: real, hi: real): seq<real>
    decreases Budget(depth)
  {
    if depth >= MaxDepth || !split(c) then []
    else
      var m := (lo + hi) / 2.0;
      Params(halve, halve(c).0, depth + 1, split, lo, m) + [m] + Params(halve, halve(c).1, depth + 1, split, m, hi)
  }

  ghost predicate Increasing(ps: seq<real>, lo: real, hi: real) {
    (forall i :: 0 <= i < |ps| ==> lo < ps[i] < hi)
    && (forall i, j :: 0 <= i < j < |ps| ==> ps[i] < ps[j])
  }

  /** Increasing sequences on adjacent intervals joined at their common end stay increasing. */
  lemma IncreasingJoin(l: seq<real>, m: real, h: seq<real>, lo: real, hi: real)
    requires lo < m < hi && Increasing(l, lo, m) && Increasing(h, m, hi)
    ensures Increasing(l + [m] + h, lo, hi)
  {
    var ps := l + [m] + h;
    forall i | 0 <= i < |ps|
      ensures lo < ps[i] < hi
    {
      if i < |l| { assert ps[i] == l[i]; } else if i > |l| { assert ps[i] == h[i - |l| - 1]; }
    }
    forall i, j | 0 <= i < j < |ps|
      ensures ps[i] < ps[j]
    {
      if i < |l| { assert ps[i] == l[i]; } else if i > |l| { assert ps[i] == h[i - |l| - 1]; }
      if j < |l| { assert ps[j] == l[j]; } else if j > |l| { assert ps[j] == h[j - |l| - 1]; }
    }
  }

  /** There is one parameter per stored point. */
  lemma {:induction false} ParamsCount(halve: Ctrl -> (Ctrl, Ctrl), c: Ctrl, depth: nat, split: Ctrl -> bool, lo: real, hi: real)
    ensures |Params(halve, c, depth, split, lo, hi)| == Count(halve, c, depth, split)
    decreases Budget(depth)
  {
    if !(depth >= MaxDepth || !split(c)) {
      var m := (lo + hi) / 2.0;
      ParamsCount(halve, halve(c).0, depth + 1, split, lo, m);
      ParamsCount(halve, halve(c).1, depth + 1, split, m, hi);
      var l := Params(halve, halve(c).0, depth + 1, split, lo, m);
      var h := Params(halve, halve(c).1, depth + 1, split, m, hi);
      assert Params(halve, c, depth, split, lo, hi) == l + [m] + h;
      assert |l + [m] + h| == |l| + 1 + |h|;
    }
  }

  /** The parameters increase and lie strictly inside (lo, hi). */
  lemma {:induction false} ParamsIncreasing(halve: Ctrl -> (Ctrl, Ctrl), c: Ctrl, depth: nat, split: Ctrl -> bool, lo: real, hi: real)
    requires lo < hi
    ensures Increasing(Params(halve, c, depth, split, lo, hi), lo, hi)
    decreases Budget(depth)
  {
    if !(depth >= MaxDepth || !split(c)) {
      var m := (lo + hi) / 2.0;
      assert lo < m < hi;
      ParamsIncreasing(halve, halve(c).0, depth + 1, split, lo, m);
      ParamsIncreasing(halve, halve(c).1, depth + 1, split, m, hi);
      var l := Params(halve, halve(c).0, depth + 1, split, lo, m);
      var h := Params(halve, halve(c).1, depth + 1, split, m, hi);
      assert Params(halve, c, depth, split, lo, hi) == l + [m] + h;
      IncreasingJoin(l, m, h, lo, hi);
    }
  }

  /** pts lists the curve's points at the parameters ps, position by position. */
  ghost predicate Tabulates(pts: seq<V2>, ps: seq<real>, curve: real -> V2) {
    |pts| == |ps| && forall k :: 0 <= k < |pts| ==> pts[k] == curve(ps[k])
  }

  lemma TabulatesJoin(lp: seq<V2>, l: seq<real>, p: V2, m: real, hp: seq<V2>, h: seq<real>, curve: real -> V2)
    requires Tabulates(lp, l, curve) && Tabulates(hp, h, curve) && p == curve(m)
    ensures Tabulates(lp + [p] + hp, l + [m] + h, curve)
  {
    var pts := lp + [p] + hp;
    var ps := l + [m] + h;
    forall k | 0 <= k < |pts|
      ensures pts[k] == curve(ps[k])
    {
      if k > |lp| {
        assert pts[k] == hp[k - |lp| - 1] && ps[k] == h[k - |lp| - 1];
      } else if k < |lp| {
        assert pts[k] == lp[k] && ps[k] == l[k];
      }
    }
  }

  lemma HalfParam(lo: real, hi: real, t: real)
    ensures lo + (t / 2.0) * (hi - lo) == lo + t * ((lo + hi) / 2.0 - lo)
    ensures lo + ((1.0 + t) / 2.0) * (hi - lo) == (lo + hi) / 2.0 + t * (hi - (lo + hi) / 2.0)
  {
  }

  /** The first half of a piece traces the first half of its parameter interval. */
  lemma RestrictLeft(c: Ctrl, curve: real -> V2, lo: real, hi: real)
    requires Restricts(c, curve, lo, hi)
    ensures Restricts(Left(c), curve, lo, (lo + hi) / 2.0)
  {
    forall t: real ensures BezAt(Left(c), t) == curve(lo + t * ((lo + hi) / 2.0 - lo)) {
      assert BezAt(c, t / 2.0) == curve(lo + (t / 2.0) * (hi - lo));
      LeftHalf(c, t);
      HalfParam(lo, hi, t);
    }
  }

  /** The second half of a piece traces the second half of its parameter interval. */
  lemma RestrictRight(c: Ctrl, curve: real -> V2, lo: real, hi: real)
    requires Restricts(c, curve, lo, hi)
    ensures Restricts(Right(c), curve, (lo + hi) / 2.0, hi)
  {
    forall t: real ensures BezAt(Right(c), t) == curve((lo + hi) / 2.0 + t * (hi - (lo + hi) / 2.0)) {
      assert BezAt(c, (1.0 + t) / 2.0) == curve(lo + ((1.0 + t) / 2.0) * (hi - lo));
      RightHalf(c, t);
      HalfParam(lo, hi, t);
    }
  }

  /** The midpoint of a piece is the curve's point at the middle parameter. */
  lemma RestrictMid(c: Ctrl, curve: real -> V2, lo: real, hi: real)
    requires Restricts(c, curve, lo, hi)
    ensures Right(c).p0 == curve((lo + hi) / 2.0)
  {
    assert BezAt(c, 0.5) == curve(lo + 0.5 * (hi - lo));
    MidpointFormula(c);
  }

  /**
   * halve cuts every piece of the curve into its first and second halves, and the second
   * half starts at the piece's middle point. `Halves` does, for every curve (HalvesBisect).
   */
  ghost predicate Bisects(halve: Ctrl -> (Ctrl, Ctrl), curve: real -> V2) {
    forall c, lo, hi {:trigger halve(c), Restricts(c, curve, lo, hi)} :: Restricts(c, curve, lo, hi) ==>
      Restricts(halve(c).0, curve, lo, (lo + hi) / 2.0)
      && Restricts(halve(c).1, curve, (lo + hi) / 2.0, hi)
      && halve(c).1.p0 == curve((lo + hi) / 2.0)
  }

  lemma HalvesBisect(curve: real -> V2)
    ensures Bisects(Halves, curve)
  {
    forall c, lo, hi | Restricts(c, curve, lo, hi)
      ensures Restricts(Halves(c).0, curve, lo, (lo + hi) / 2.0)
      ensures Restricts(Halves(c).1, curve, (lo + hi) / 2.0, hi)
      ensures Halves(c).1.p0 == curve((lo + hi) / 2.0)
    {
      RestrictLeft(c, curve, lo, hi);
      RestrictRight(c, curve, lo, hi);
      RestrictMid(c, curve, lo, hi);
    }
  }

  /** Every point stored while subdividing a piece of the curve is the curve's point at its parameter. */
  lemma {:induction false} SubdivideOnCurve(halve: Ctrl -> (Ctrl, Ctrl), c: Ctrl, depth: nat, split: Ctrl -> bool,
                                            sqrt: real -> real, curve: real -> V2, lo: real, hi: real)
    requires Bisects(halve, curve) && Restricts(c, curve, lo, hi)
    ensures Tabulates(Subdivide(halve, c, depth, split, sqrt).points, Params(halve, c, depth, split, lo, hi), curve)
    decreases Budget(depth)
  {
    if !(depth >= MaxDepth || !split(c)) {
      var m := (lo + hi) / 2.0;
      var (l, r) := halve(c);
      SubdivideOnCurve(halve, l, depth + 1, split, sqrt, curve, lo, m);
      SubdivideOnCurve(halve, r, depth + 1, split, sqrt, curve, m, hi);
      var sl := Subdivide(halve, l, depth + 1, split, sqrt).points;
      var sh := Subdivide(halve, r, depth + 1, split, sqrt).points;
      var pl := Params(halve, l, depth + 1, split, lo, m);
      var ph := Params(halve, r, depth + 1, split, m, hi);
      TabulatesJoin(sl, pl, r.p0, m, sh, ph, curve);
      assert Subdivide(halve, c, depth, split, sqrt).points == sl + [r.p0] + sh;
      assert Params(halve, c, depth, split, lo, hi) == pl + [m] + ph;
    }
  }

  /**
   * Every point `tessellate` stores is the curve's point at its parameter; the parameters
   * start at 0 (p0) and increase strictly, and all stay below 1, so p3 itself is never
   * stored and the next segment can supply it.
   */
  lemma TessellationOnCurve(c: Ctrl, split: Ctrl -> bool, sqrt: real -> real)
    ensures var ps := [0.0] + Params(Halves, c, 0, split, 0.0, 1.0);
      var pts := Tessellate(c, split, sqrt).points;
      ps[0] == 0.0
      && (forall i :: 0 <= i < |ps| ==> 0.0 <= ps[i] < 1.0)
      && (forall i, j :: 0 <= i < j < |ps| ==> ps[i] < ps[j])
      && |pts| == |ps|
      && (forall k :: 0 <= k < |pts| ==> pts[k] == BezAt(c, ps[k]))
  {
    ParamsIncreasing(Halves, c, 0, split, 0.0, 1.0);
    IncreasingFrom(Params(Halves, c, 0, split, 0.0, 1.0));
    TessellationTabulates(c, split, sqrt);
  }

  lemma TessellationTabulates(c: Ctrl, split: Ctrl -> bool, sqrt: real -> real)
    ensures var ps := [0.0] + Params(Halves, c, 0, split, 0.0, 1.0);
      var pts := Tessellate(c, split, sqrt).points;
      |pts| == |ps| && forall k :: 0 <= k < |pts| ==> pts[k] == BezAt(c, ps[k])
  {
    SubdivisionOnCurve(c, split, sqrt);
    StartOnCurve(c);
    PrependOnCurve(c, Subdivide(Halves, c, 0, split, sqrt).points, Params(Halves, c, 0, split, 0.0, 1.0));
  }

  /** p0 at parameter 0 ahead of points on the curve at their parameters. */
  lemma PrependOnCurve(c: Ctrl, s: seq<V2>, ps: seq<real>)
    requires |s| == |ps| && forall k :: 0 <= k < |s| ==> s[k] == BezAt(c, ps[k])
    requires BezAt(c, 0.0) == c.p0
    ensures forall k :: 0 <= k < |s| + 1 ==> ([c.p0] + s)[k] == BezAt(c, ([0.0] + ps)[k])
  {
    forall k | 0 <= k < |s| + 1
      ensures ([c.p0] + s)[k] == BezAt(c, ([0.0] + ps)[k])
    {
      if k > 0 {
        assert ([c.p0] + s)[k] == s[k - 1] && ([0.0] + ps)[k] == ps[k - 1];
      }
    }
  }

  /** The points of the whole curve's subdivision lie on it, at their parameters. */
  lemma SubdivisionOnCurve(c: Ctrl, split: Ctrl -> bool, sqrt: real -> real)
    ensures var s := Subdivide(Halves, c, 0, split, sqrt).points;
      var ps := Params(Halves, c, 0, split, 0.0, 1.0);
      |s| == |ps| && forall k :: 0 <= k < |s| ==> s[k] == BezAt(c, ps[k])
  {
    var curve := t => BezAt(c, t);
    WholeRestricts(c, curve);
    HalvesBisect(curve);
    SubdivideOnCurve(Halves, c, 0, split, sqrt, curve, 0.0, 1.0);
    var s := Subdivide(Halves, c, 0, split, sqrt).points;
    var ps := Params(Halves, c, 0, split, 0.0, 1.0);
    forall k | 0 <= k < |s|
      ensures s[k] == BezAt(c, ps[k])
    {
      assert s[k] == curve(ps[k]);
    }
  }

  /** The curve starts at p0. */
  lemma StartOnCurve(c: Ctrl)
    ensures BezAt(c, 0.0) == c.p0
  {
  }

  /** The whole curve traces itself over [0, 1]. */
  lemma WholeRestricts(c: Ctrl, curve: real -> V2)
    requires forall t :: curve(t) == BezAt(c, t)
    ensures Restricts(c, curve, 0.0, 1.0)
  {
    forall t: real ensures BezAt(c, t) == curve(0.0 + t * (1.0 - 0.0)) {
      assert 0.0 + t * (1.0 - 0.0) == t;
    }
  }

  lemma IncreasingFrom(ps: seq<real>)
    requires Increasing(ps, 0.0, 1.0)
    ensures var qs := [0.0] + ps;
      (forall i :: 0 <= i < |qs| ==> 0.0 <= qs[i] < 1.0)
      && (forall i, j :: 0 <= i < j < |qs| ==> qs[i] < qs[j])
  {
    var qs := [0.0] + ps;
    forall i, j | 0 <= i < j < |qs|
      ensures qs[i] < qs[j]
    {
      assert qs[j] == ps[j - 1];
      if i > 0 { assert qs[i] == ps[i - 1]; }
    }
  }
}
