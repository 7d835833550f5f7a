/**
 * `splines.SplineCurve`: a chain of cubic Bezier segments built from a list of 2-D control
 * points, open or closed, and the editing operations that keep the segments in step with
 * the control points.
 *
 * Two things stay abstract, gathered in `Basis`: the subclass's `toBezier` (the B-spline or
 * Catmull-Rom basis change, which goes through a 4 x 4 matrix inverse) and the flatness test
 * of `CubicBezier.subdivide` at the curve's epsilon.
 */
module Splines {
  import opened Wrappers
  import opened Geometry
  import opened Beziers
  import opened JavaInt

  const MinOpenPoints: nat := 4
  const MinClosedPoints: nat := 3
  const MaxPoints: nat := 20

  /** `DIST_THRESH`: how close to a leg of the control polygon a new point must be. */
  const DistThresh: real := 0.15

  datatype Basis = Basis(toBezier: Ctrl -> Ctrl, split: (real, Ctrl) -> bool, sqrt: real -> real)

  /** A `CubicBezier`: its control points and its tessellation. */
  datatype Segment = Segment(ctrl: Ctrl, tess: Tess)

  datatype Spline = Spline(points: seq<V2>, closed: bool, eps: real, segments: seq<Segment>)

  /** The exceptions the source throws. */
  datatype SplineError = TooFewPoints | IndexOutOfRange

  function MinPoints(closed: bool): nat {
    if closed then MinClosedPoints else MinOpenPoints
  }

  // ---------------------------------------------------------------- segments

  /**
   * The control-point windows `setBeziers` converts: every run of four consecutive points,
   * wrapping around the end when the curve is closed.
   */
  function Windows(pts: seq<V2>, closed: bool): (w: seq<Ctrl>)
    ensures closed ==> |w| == |pts|
    ensures !closed ==> |w| == if |pts| >= 3 then |pts| - 3 else 0
  {
    var n := |pts|;
    if closed then
      seq(n, i requires 0 <= i < n => Ctrl(pts[Mod(i, n)], pts[Mod(i + 1, n)], pts[Mod(i + 2, n)], pts[Mod(i + 3, n)]))
    else if n < 3 then []
    else seq(n - 3, i requires 0 <= i < n - 3 => Ctrl(pts[i], pts[i + 1], pts[i + 2], pts[i + 3]))
  }

  /** k % n for a non-negative k, by repeated subtraction. */
  function Mod(k: nat, n: nat): (r: nat)
    requires n > 0
    ensures r < n
    decreases k
  {
    if k < n then k else Mod(k - n, n)
  }

  /** Mod agrees with the remainder operator. */
  lemma {:induction false} ModIsRemainder(k: nat, n: nat)
    requires n > 0
    ensures Mod(k, n) == k % n
    decreases k
  {
    if k >= n {
      ModIsRemainder(k - n, n);
      ModShift(k - n, n);
    }
  }

  /** Adding the modulus does not change a remainder. */
  lemma ModShift(a: int, n: int)
    requires a >= 0 && n > 0
    ensures (a + n) % n == a % n
  {
    assert a == (a / n) * n + a % n;
    EuclidUnique(a + n, n, a / n + 1, a % n);
  }

  /** `toBezier(p0, p1, p2, p3, epsilon)`: convert one window and tessellate the result. */
  function Build(b: Basis, eps: real, w: Ctrl): (g: Segment)
    ensures g.ctrl == b.toBezier(w)
  {
    var c := b.toBezier(w);
    Segment(c, Tessellate(c, d => b.split(eps, d), b.sqrt))
  }

  function BuildAll(b: Basis, eps: real, ws: seq<Ctrl>): (gs: seq<Segment>)
    ensures |gs| == |ws|
    ensures forall i :: 0 <= i < |ws| ==> gs[i] == Build(b, eps, ws[i])
  {
    seq(|ws|, i requires 0 <= i < |ws| => Build(b, eps, ws[i]))
  }

  /** `setBeziers()`: rebuild every segment from the control points. */
  function SetBeziers(b: Basis, s: Spline): (r: Spline)
    ensures Consistent(b, r)
    ensures r.points == s.points && r.closed == s.closed && r.eps == s.eps
  {
    s.(segments := BuildAll(b, s.eps, Windows(s.points, s.closed)))
  }

  /** The segments are the ones the control points, closedness and epsilon call for. */
  predicate Consistent(b: Basis, s: Spline) {
    s.segments == BuildAll(b, s.eps, Windows(s.points, s.closed))
  }

  /** The class invariant: enough control points, and segments in step with them. */
  predicate Valid(b: Basis, s: Spline) {
    |s.points| >= MinPoints(s.closed) && Consistent(b, s)
  }

  // ---------------------------------------------------------------- operations

  /** The constructor: a closed curve needs 3 points, an open one 4. */
  function New(b: Basis, pts: seq<V2>, closed: bool, eps: real): (r: Result<Spline, SplineError>)
    ensures r.Success? <==> |pts| >= MinPoints(closed)
    ensures r.Failure? ==> r.error == TooFewPoints
    ensures r.Success? ==> Valid(b, r.value) && r.value.points == pts && r.value.closed == closed && r.value.eps == eps
  {
    if |pts| < MinPoints(closed) then Failure(TooFewPoints)
    else Success(SetBeziers(b, Spline(pts, closed, eps, [])))
  }

  /** `setClosed`: refused when the curve is closed with only three points. */
  function SetClosed(b: Basis, s: Spline, closed: bool): (r: (bool, Spline))
    ensures !r.0 <==> s.closed && |s.points| == 3
    ensures !r.0 ==> r.1 == s
    ensures r.0 ==> r.1.closed == closed && r.1.points == s.points && Consistent(b, r.1)
    ensures Valid(b, s) ==> Valid(b, r.1)
  {
    if s.closed && |s.points| == 3 then (false, s)
    else (true, SetBeziers(b, s.(closed := closed)))
  }

  /** `setControlPoint`: replace one point; a bad index throws. */
  function SetControlPoint(b: Basis, s: Spline, i: int, p: V2): (r: Result<Spline, SplineError>)
    ensures r.Success? <==> 0 <= i < |s.points|
    ensures r.Failure? ==> r.error == IndexOutOfRange
    ensures r.Success? ==> r.value.points == s.points[i := p] && Consistent(b, r.value)
    ensures r.Success? && Valid(b, s) ==> Valid(b, r.value)
  {
    if 0 <= i < |s.points| then Success(SetBeziers(b, s.(points := s.points[i := p])))
    else Failure(IndexOutOfRange)
  }

  /** `modifyEpsilon`: a new flatness tolerance, and the segments rebuilt with it. */
  function ModifyEpsilon(b: Basis, s: Spline, e: real): (r: Spline)
    ensures r.eps == e && r.points == s.points && r.closed == s.closed
    ensures Valid(b, s) ==> Valid(b, r)
  {
    SetBeziers(b, s.(eps := e))
  }

  /**
   * How far `point` is from the leg prev -> curr, and where along the leg it projects
   * (0 at prev, 1 at curr). A leg of zero length makes Java's parameter NaN, which no
   * comparison accepts; here it gives no candidate at all.
   */
  function LegFit(sqrt: real -> real, prev: V2, curr: V2, point: V2): Option<(real, real)> {
    var d := Sub2(curr, prev);
    var lenSq := Dot2(d, d);
    if lenSq == 0.0 then None
    else
      var v := Unit2(sqrt, Perp(d));
      var r := Sub2(prev, point);
      var dist := Dot2(v, r);
      var dist := if dist < 0.0 then -dist else dist;
      Some((dist, -Dot2(Scale2(1.0 / lenSq, d), r)))
  }

  /** The leg ending at control point i: from i - 1, or from the last point when i = 0 and closed. */
  function Prev(pts: seq<V2>, i: int): V2
    requires 0 <= i < |pts|
  {
    if i == 0 then pts[|pts| - 1] else pts[i - 1]
  }

  /**
   * The distance to the leg ending at control point i when inserting at i is allowed: the
   * leg exists (i > 0, or the curve is closed), the point is within `DIST_THRESH` of it and
   * projects strictly inside it; None otherwise.
   */
  function Fit(sqrt: real -> real, pts: seq<V2>, closed: bool, point: V2, i: int): Option<real> {
    if !(0 <= i < |pts|) || (i == 0 && !closed) then None
    else
      var f := LegFit(sqrt, Prev(pts, i), pts[i], point);
      if f.Some? && f.value.0 < DistThresh && 0.0 < f.value.1 < 1.0 then Some(f.value.0) else None
  }

  /**
   * The selection loop of `addControlPoint` from index i on, over the candidate distances
   * `fit`, with the best distance so far (None standing for positive infinity) and its
   * index: a candidate no farther than the best replaces it, so of equally near legs the
   * last wins.
   */
  function Choose(fit: int -> Option<real>, n: nat, i: nat, best: Option<real>, index: int): (r: int)
    requires i <= n
    requires index == -1 <==> best.None?
    requires best.Some? ==> 0 <= index < i && fit(index) == best
    ensures r == index || i <= r < n
    ensures r >= 0 ==> r < n && fit(r).Some?
    decreases n - i
  {
    if i == n then index
    else if fit(i).Some? && (best.None? || fit(i).value <= best.value) then Choose(fit, n, i + 1, fit(i), i)
    else Choose(fit, n, i + 1, best, index)
  }

  /** The index `addControlPoint` inserts at, or -1 when no leg is near enough. */
  function InsertIndex(sqrt: real -> real, pts: seq<V2>, closed: bool, point: V2): (r: int)
    ensures -1 <= r < |pts|
    ensures r >= 0 ==> Fit(sqrt, pts, closed, point, r).Some?
    ensures !closed ==> r != 0
  {
    Choose(k => Fit(sqrt, pts, closed, point, k), |pts|, 0, None, -1)
  }

  /**
   * `addControlPoint`: refused at 20 points or when no leg is near enough; otherwise the
   * point goes in before control point i, that is, on the leg ending there.
   */
  function AddControlPoint(b: Basis, s: Spline, point: V2): (r: (bool, Spline))
    ensures |s.points| == MaxPoints ==> !r.0
    ensures !r.0 ==> r.1 == s
    ensures r.0 ==> var i := InsertIndex(b.sqrt, s.points, s.closed, point);
      0 <= i < |s.points| && (s.closed || i != 0)
      && r.1.points == s.points[..i] + [point] + s.points[i..]
      && r.1.closed == s.closed && Consistent(b, r.1)
    ensures r.0 ==> |r.1.points| == |s.points| + 1
    ensures Valid(b, s) ==> Valid(b, r.1)
  {
    if |s.points| == MaxPoints then (false, s)
    else
      var i := InsertIndex(b.sqrt, s.points, s.closed, point);
      if i >= 0 then (true, SetBeziers(b, s.(points := s.points[..i] + [point] + s.points[i..])))
      else (false, s)
  }

  /** `removeControlPoint`: refused at the minimum; a bad index throws. */
  function RemoveControlPoint(b: Basis, s: Spline, i: int): (r: Result<(bool, Spline), SplineError>)
    ensures |s.points| == MinPoints(s.closed) ==> r == Success((false, s))
    ensures r.Failure? <==> |s.points| != MinPoints(s.closed) && !(0 <= i < |s.points|)
    ensures r.Failure? ==> r.error == IndexOutOfRange
    ensures r.Success? && r.value.0 ==>
      0 <= i < |s.points| && r.value.1.points == s.points[..i] + s.points[i + 1..]
      && r.value.1.closed == s.closed && Consistent(b, r.value.1)
    ensures r.Success? && !r.value.0 ==> r.value.1 == s
    ensures r.Success? && Valid(b, s) ==> Valid(b, r.value.1)
  {
    if |s.points| == MinPoints(s.closed) then Success((false, s))
    else if 0 <= i < |s.points| then
      Success((true, SetBeziers(b, s.(points := s.points[..i] + s.points[i + 1..]))))
    else Failure(IndexOutOfRange)
  }

  /** A list of lists joined in order. */
  function Flatten(xs: seq<seq<V2>>): (r: seq<V2>) {
    if xs == [] then [] else Flatten(xs[..|xs| - 1]) + xs[|xs| - 1]
  }

  /** Each segment's tessellation points (tangents, normals), in segment order. */
  function PointLists(s: Spline): seq<seq<V2>> {
    seq(|s.segments|, i requires 0 <= i < |s.segments| => s.segments[i].tess.points)
  }

  function TangentLists(s: Spline): seq<seq<V2>> {
    seq(|s.segments|, i requires 0 <= i < |s.segments| => s.segments[i].tess.tangents)
  }

  function NormalLists(s: Spline): seq<seq<V2>> {
    seq(|s.segments|, i requires 0 <= i < |s.segments| => s.segments[i].tess.normals)
  }

  /** `getPoints`, `getTangents` and `getNormals`: each segment's list, segment by segment. */
  function GetPoints(s: Spline): seq<V2> {
    Flatten(PointLists(s))
  }

  function GetTangents(s: Spline): seq<V2> {
    Flatten(TangentLists(s))
  }

  function GetNormals(s: Spline): seq<V2> {
    Flatten(NormalLists(s))
  }

  function Negate(v: V2): V2 { V2(-v.x, -v.y) }

  function NegateAll(vs: seq<V2>): (r: seq<V2>)
    ensures |r| == |vs| && forall k :: 0 <= k < |vs| ==> r[k] == Negate(vs[k])
  {
    seq(|vs|, k requires 0 <= k < |vs| => Negate(vs[k]))
  }

  /** `reverseNormalsAndTangents`: flip every stored tangent and normal, points untouched. */
  function Reverse(s: Spline): (r: Spline)
    ensures |r.segments| == |s.segments| && r.points == s.points && r.closed == s.closed
    ensures forall i :: 0 <= i < |s.segments| ==> r.segments[i].tess.points == s.segments[i].tess.points
  {
    s.(segments := seq(|s.segments|, i requires 0 <= i < |s.segments| =>
      var t := s.segments[i].tess;
      Segment(s.segments[i].ctrl, Tess(t.points, NegateAll(t.tangents), NegateAll(t.normals)))))
  }

  // ---------------------------------------------------------------- properties

  /**
   * Consecutive windows overlap in three points, so consecutive segments share three control
   * points; on a closed curve the last window leads back into the first.
   */
  lemma WindowsChain(pts: seq<V2>, closed: bool, i: int)
    requires 0 <= i && i + 1 < |Windows(pts, closed)|
    ensures var w := Windows(pts, closed);
      w[i + 1].p0 == w[i].p1 && w[i + 1].p1 == w[i].p2 && w[i + 1].p2 == w[i].p3
  {
  }

  lemma ClosedWindowsWrap(pts: seq<V2>)
    requires |pts| >= 1
    ensures var w := Windows(pts, true); var n := |pts|;
      w[0].p0 == pts[0] && w[n - 1].p0 == pts[n - 1]
      && w[n - 1].p1 == w[0].p0 && w[n - 1].p2 == w[0].p1 && w[n - 1].p3 == w[0].p2
  {
    var n := |pts|;
    assert Mod(n - 1 + 1, n) == Mod(0, n);
    assert Mod(n - 1 + 2, n) == Mod(1, n);
    assert Mod(n - 1 + 3, n) == Mod(2, n);
  }

  /** Every control point opens exactly one window of a closed curve, in order. */
  lemma ClosedWindowStarts(pts: seq<V2>, i: int)
    requires 0 <= i < |pts|
    ensures Windows(pts, true)[i].p0 == pts[i]
  {
  }

  /**
   * The loop's result is the nearest candidate: every other one is at least as far, and
   * every later one strictly farther; -1 exactly when there is no candidate.
   */
  ghost predicate Nearest(fit: int -> Option<real>, n: nat, r: int) {
    (r == -1 <==> forall j :: 0 <= j < n ==> fit(j).None?)
    && (r >= 0 ==>
          0 <= r < n && fit(r).Some?
          && forall j :: 0 <= j < n && fit(j).Some? ==>
               fit(r).value <= fit(j).value && (j > r ==> fit(r).value < fit(j).value))
  }

  lemma {:induction false} ChooseNearest(fit: int -> Option<real>, n: nat, i: nat, best: Option<real>, index: int)
    requires i <= n
    requires index == -1 <==> best.None?
    requires best.Some? ==> 0 <= index < i && fit(index) == best
    requires best.Some? ==> forall j :: 0 <= j < i && fit(j).Some? ==>
      best.value <= fit(j).value && (j > index ==> best.value < fit(j).value)
    requires best.None? ==> forall j :: 0 <= j < i ==> fit(j).None?
    ensures Nearest(fit, n, Choose(fit, n, i, best, index))
    decreases n - i
  {
    if i < n {
      if fit(i).Some? && (best.None? || fit(i).value <= best.value) {
        ChooseNearest(fit, n, i + 1, fit(i), i);
      } else {
        ChooseNearest(fit, n, i + 1, best, index);
      }
    }
  }

  /** `addControlPoint` picks the nearest qualifying leg, the last of equally near ones. */
  lemma InsertIndexNearest(sqrt: real -> real, pts: seq<V2>, closed: bool, point: V2)
    ensures Nearest(k => Fit(sqrt, pts, closed, point, k), |pts|, InsertIndex(sqrt, pts, closed, point))
  {
    ChooseNearest(k => Fit(sqrt, pts, closed, point, k), |pts|, 0, None, -1);
  }

  /** Adding then removing the same point restores the control points. */
  lemma AddThenRemove(b: Basis, s: Spline, point: V2)
    requires Valid(b, s)
    ensures var (ok, t) := AddControlPoint(b, s, point);
      var i := InsertIndex(b.sqrt, s.points, s.closed, point);
      ok ==> RemoveControlPoint(b, t, i) == Success((true, s))
  {
    var (ok, t) := AddControlPoint(b, s, point);
    var i := InsertIndex(b.sqrt, s.points, s.closed, point);
    if ok {
      assert |t.points| > MinPoints(t.closed);
      RemoveInserted(s.points, i, point);
      SameSpline(b, s, SetBeziers(b, t.(points := t.points[..i] + t.points[i + 1..])));
    }
  }

  /** Removing the entry just inserted at i gives the list back. */
  lemma RemoveInserted(xs: seq<V2>, i: int, p: V2)
    requires 0 <= i <= |xs|
    ensures var ys := xs[..i] + [p] + xs[i..]; ys[..i] + ys[i + 1..] == xs
  {
    var ys := xs[..i] + [p] + xs[i..];
    assert ys[..i] == xs[..i];
    assert ys[i + 1..] == xs[i..];
  }

  /** A consistent curve is fixed by its control points, closedness and epsilon. */
  lemma SameSpline(b: Basis, s: Spline, u: Spline)
    requires Consistent(b, s) && Consistent(b, u)
    requires u.points == s.points && u.closed == s.closed && u.eps == s.eps
    ensures u == s
  {
  }

  /** The editing operations keep the count of control points within the invariant. */
  lemma RemoveKeepsMinimum(b: Basis, s: Spline, i: int)
    requires Valid(b, s)
    ensures var r := RemoveControlPoint(b, s, i);
      r.Success? ==> |r.value.1.points| >= MinPoints(r.value.1.closed)
  {
  }

  lemma FlattenAppend(xs: seq<seq<V2>>, ys: seq<seq<V2>>)
    ensures Flatten(xs + ys) == Flatten(xs) + Flatten(ys)
    decreases |ys|
  {
    if ys == [] {
      assert xs + ys == xs;
    } else {
      var last := ys[|ys| - 1];
      assert (xs + ys)[..|xs + ys| - 1] == xs + ys[..|ys| - 1];
      FlattenAppend(xs, ys[..|ys| - 1]);
    }
  }

  /**
   * Segment k's list sits in the joined list right after the lists of segments 0 .. k-1,
   * so the joined list runs through the segments in chain order.
   */
  lemma {:induction false} FlattenSlice(xs: seq<seq<V2>>, k: int)
    requires 0 <= k < |xs|
    ensures var off := |Flatten(xs[..k])|;
      off + |xs[k]| <= |Flatten(xs)| && Flatten(xs)[off .. off + |xs[k]|] == xs[k]
  {
    assert xs == xs[..k] + ([xs[k]] + xs[k + 1..]);
    FlattenAppend(xs[..k], [xs[k]] + xs[k + 1..]);
    FlattenAppend([xs[k]], xs[k + 1..]);
    assert Flatten([xs[k]]) == xs[k] by {
      assert [xs[k]][..0] == [];
    }
  }

  /** Each segment's points appear in `getPoints` contiguously, after those of the segments before it. */
  lemma GetPointsInOrder(s: Spline, k: int)
    requires 0 <= k < |s.segments|
    ensures var off := |Flatten(PointLists(s)[..k])|;
      off + |s.segments[k].tess.points| <= |GetPoints(s)|
      && GetPoints(s)[off .. off + |s.segments[k].tess.points|] == s.segments[k].tess.points
  {
    FlattenSlice(PointLists(s), k);
  }

  /** Reversing twice restores every tangent and normal. */
  lemma ReverseTwice(s: Spline)
    ensures Reverse(Reverse(s)) == s
  {
    var r := Reverse(Reverse(s));
    forall i | 0 <= i < |s.segments|
      ensures r.segments[i] == s.segments[i]
    {
      var t := s.segments[i].tess;
      assert NegateAll(NegateAll(t.tangents)) == t.tangents;
      assert NegateAll(NegateAll(t.normals)) == t.normals;
    }
  }
}
