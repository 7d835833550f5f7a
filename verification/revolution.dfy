/**
 * `SplineCurve.build3DRevolution`: the cross-section curve swept around the z axis into an
 * OBJ mesh.
 *
 * The angle loop runs in floating point and the rotation and scale matrices need sine and
 * cosine, so both stay abstract: the model takes the number of rings the angle loop
 * produces and a `Sweep` that places a cross-section point or normal on ring r. The table
 * layout (every ring holds the curve's points followed by its first point again) and the
 * face indices are modelled exactly.
 *
 * As written, the middle corner of every lower-right triangle takes its uv and normal
 * from `sliceIdx * numVertices + vertexIdx + 1`, although each ring of the uv and normal
 * tables holds `numVertices + 1` entries just as the position table does. `AsWrittenFaces`
 * keeps that stride and `AsWrittenNormalSkips` shows the vertex it lands on;
 * `Revolve` uses the ring stride for all three tables.
 */
module Revolution {
  import opened Wrappers
  import opened Geometry
  import opened Surfaces
  import opened Beziers
  import opened Splines

  /**
   * Places cross-section point p on ring r (the rotation by r slice angles after the
   * scale, applied to (p.x, 0, p.y)), and turns a cross-section normal onto ring r.
   */
  datatype Sweep = Sweep(place: (nat, V2) -> V3, turn: (nat, V2) -> V3)

  /** `getPoints().get(0)` or `getNormals().get(0)` on an empty list throws. */
  datatype RevolutionError = EmptyCurve

  // ---------------------------------------------------------------- vertex tables

  /** One ring of a table: every entry of the curve moved onto ring r, then the first one again. */
  function Ring(f: (nat, V2) -> V3, r: nat, xs: seq<V2>): (ring: seq<V3>)
    requires |xs| > 0
    ensures |ring| == |xs| + 1
  {
    seq(|xs|, j requires 0 <= j < |xs| => f(r, xs[j])) + [f(r, xs[0])]
  }

  /** The rings 0 .. rings-1, one after the other. */
  function Rings(f: (nat, V2) -> V3, xs: seq<V2>, rings: nat): (t: seq<V3>)
    requires |xs| > 0
    ensures |t| == rings * (|xs| + 1)
    decreases rings
  {
    if rings == 0 then []
    else
      var t := Rings(f, xs, rings - 1) + Ring(f, rings - 1, xs);
      assert |t| == (rings - 1) * (|xs| + 1) + (|xs| + 1);
      t
  }

  /** `new Vector2()` once per normal and once more per ring. */
  function ZeroUvs(count: nat): (t: seq<V2>)
    ensures |t| == count && forall k :: 0 <= k < count ==> t[k] == V2(0.0, 0.0)
  {
    seq(count, k requires 0 <= k < count => V2(0.0, 0.0))
  }

  // ---------------------------------------------------------------- faces

  /** How many quads a slice holds: the open curve stops one short of its last point. */
  function Columns(n: nat, closed: bool): nat {
    if closed then n else if n == 0 then 0 else n - 1
  }

  /**
   * The lower-right triangle of the quad between points v and v+1 of rings s and s+1.
   * `stride` is the ring length the middle corner's uv and normal indices are computed with.
   */
  function LowerRight(n: nat, s: nat, v: nat, stride: nat): ObjFace {
    var a := s * (n + 1) + v;
    var b := (s + 1) * (n + 1) + v;
    var attr := Corners(b + 1, s * stride + v + 1, a);
    ObjFace(Corners(b + 1, a + 1, a), Some(attr), Some(attr))
  }

  /** The upper-left triangle of the same quad. */
  function UpperLeft(n: nat, s: nat, v: nat): ObjFace {
    var a := s * (n + 1) + v;
    var b := (s + 1) * (n + 1) + v;
    var c := Corners(a, b, b + 1);
    ObjFace(c, Some(c), Some(c))
  }

  /** The quads of slice s for points 0 .. v-1, two triangles each. */
  function SliceFaces(n: nat, s: nat, v: nat, stride: nat): (fs: seq<ObjFace>)
    ensures |fs| == 2 * v
    decreases v
  {
    if v == 0 then []
    else SliceFaces(n, s, v - 1, stride) + [LowerRight(n, s, v - 1, stride), UpperLeft(n, s, v - 1)]
  }

  /** The faces of slices 0 .. slices-1, slice by slice. */
  function SlicesFaces(n: nat, cols: nat, slices: nat, stride: nat): (fs: seq<ObjFace>)
    ensures |fs| == 2 * (slices * cols)
    decreases slices
  {
    if slices == 0 then []
    else
      var fs := SlicesFaces(n, cols, slices - 1, stride) + SliceFaces(n, slices - 1, cols, stride);
      assert (slices - 1) * cols + cols == slices * cols;
      fs
  }

  /** The faces the source generates, with the per-slice stride `numVertices` it writes. */
  function AsWrittenFaces(n: nat, closed: bool, slices: nat): (fs: seq<ObjFace>)
    ensures |fs| == 2 * (slices * Columns(n, closed))
  {
    SlicesFaces(n, Columns(n, closed), slices, n)
  }

  /** The faces with every table indexed by ring length `numVertices + 1`. */
  function Faces(n: nat, closed: bool, slices: nat): (fs: seq<ObjFace>)
    ensures |fs| == 2 * (slices * Columns(n, closed))
  {
    SlicesFaces(n, Columns(n, closed), slices, n + 1)
  }

  // ---------------------------------------------------------------- the mesh

  /**
   * `build3DRevolution(crossSection, mesh, scale, sliceTolerance)` into an empty mesh:
   * `slices` is `ceil(2 pi / sliceTolerance)` and `rings` the number of angles the loop
   * visits (nominally slices + 1).
   */
  function Assemble(sw: Sweep, pts: seq<V2>, nrm: seq<V2>, closed: bool, slices: nat, rings: nat,
                    faces: seq<ObjFace>): (r: Result<ObjMesh, RevolutionError>)
    ensures r.Failure? <==> |pts| == 0 || |nrm| == 0
    ensures r.Success? ==>
      |r.value.positions| == rings * (|pts| + 1) && |r.value.normals| == rings * (|nrm| + 1)
      && r.value.uvs == ZeroUvs(rings * (|nrm| + 1)) && r.value.faces == faces
  {
    if |pts| == 0 || |nrm| == 0 then Failure(EmptyCurve)
    else Success(ObjMesh(Rings(sw.place, pts, rings), ZeroUvs(rings * (|nrm| + 1)), Rings(sw.turn, nrm, rings), faces))
  }

  function AsWrittenRevolve(sw: Sweep, curve: Spline, slices: nat, rings: nat): (r: Result<ObjMesh, RevolutionError>)
    ensures r.Failure? <==> |GetPoints(curve)| == 0 || |GetNormals(curve)| == 0
  {
    Assemble(sw, GetPoints(curve), GetNormals(curve), curve.closed, slices, rings,
             AsWrittenFaces(|GetPoints(curve)|, curve.closed, slices))
  }

  /** The revolution with corrected face indices. */
  function Revolve(sw: Sweep, curve: Spline, slices: nat, rings: nat): (r: Result<ObjMesh, RevolutionError>)
    ensures r.Failure? <==> |GetPoints(curve)| == 0 || |GetNormals(curve)| == 0
    ensures r.Success? ==>
      r.value.faces == Faces(|GetPoints(curve)|, curve.closed, slices)
      && |r.value.faces| == 2 * (slices * Columns(|GetPoints(curve)|, curve.closed))
  {
    Assemble(sw, GetPoints(curve), GetNormals(curve), curve.closed, slices, rings,
             Faces(|GetPoints(curve)|, curve.closed, slices))
  }

  /** A non-empty curve revolves into its rings of positions and normals and the corrected faces. */
  lemma RevolveTables(sw: Sweep, curve: Spline, slices: nat, rings: nat)
    requires |GetPoints(curve)| > 0 && |GetNormals(curve)| > 0
    ensures var r := Revolve(sw, curve, slices, rings);
      r.Success? && r.value.positions == Rings(sw.place, GetPoints(curve), rings)
      && r.value.normals == Rings(sw.turn, GetNormals(curve), rings)
      && r.value.faces == Faces(|GetPoints(curve)|, curve.closed, slices)
  {
  }

  // ---------------------------------------------------------------- layout

  /** Entry j of ring r sits at r (n + 1) + j: the curve's entry j, or its first entry at j = n. */
  lemma {:induction false} RingsAt(f: (nat, V2) -> V3, xs: seq<V2>, rings: nat, r: nat, j: nat)
    requires |xs| > 0 && r < rings && j <= |xs|
    ensures r * (|xs| + 1) + j < |Rings(f, xs, rings)|
    ensures Rings(f, xs, rings)[r * (|xs| + 1) + j] == if j < |xs| then f(r, xs[j]) else f(r, xs[0])
    decreases rings
  {
    var n1 := |xs| + 1;
    var prev := Rings(f, xs, rings - 1);
    MulMono(r + 1, rings, n1);
    if r < rings - 1 {
      RingsAt(f, xs, rings - 1, r, j);
    } else {
      assert |prev| == r * n1;
    }
  }

  lemma MulMono(a: nat, b: nat, c: nat)
    requires a <= b
    ensures a * c <= b * c
  {
  }

  /** Quad v of slice s sits at 2 (s cols + v), lower-right triangle first. */
  lemma {:induction false} SliceFacesAt(n: nat, s: nat, v: nat, stride: nat, k: nat)
    requires k < v
    ensures SliceFaces(n, s, v, stride)[2 * k] == LowerRight(n, s, k, stride)
    ensures SliceFaces(n, s, v, stride)[2 * k + 1] == UpperLeft(n, s, k)
    decreases v
  {
    if k < v - 1 {
      SliceFacesAt(n, s, v - 1, stride, k);
    }
  }

  lemma {:induction false} SlicesFacesAt(n: nat, cols: nat, slices: nat, stride: nat, s: nat, v: nat)
    requires s < slices && v < cols
    ensures 2 * (s * cols + v) + 1 < |SlicesFaces(n, cols, slices, stride)|
    ensures SlicesFaces(n, cols, slices, stride)[2 * (s * cols + v)] == LowerRight(n, s, v, stride)
    ensures SlicesFaces(n, cols, slices, stride)[2 * (s * cols + v) + 1] == UpperLeft(n, s, v)
    decreases slices
  {
    MulMono(s + 1, slices, cols);
    var prev := SlicesFaces(n, cols, slices - 1, stride);
    if s < slices - 1 {
      SlicesFacesAt(n, cols, slices - 1, stride, s, v);
    } else {
      assert |prev| == 2 * (s * cols);
      SliceFacesAt(n, s, cols, stride, v);
    }
  }

  /**
   * The faces run slice by slice and, within a slice, point by point; each quad is the
   * lower-right triangle followed by the upper-left one.
   */
  lemma FacesAt(n: nat, closed: bool, slices: nat, s: nat, v: nat)
    requires s < slices && v < Columns(n, closed)
    ensures var fs := Faces(n, closed, slices); var k := 2 * (s * Columns(n, closed) + v);
      k + 1 < |fs| && fs[k] == LowerRight(n, s, v, n + 1) && fs[k + 1] == UpperLeft(n, s, v)
  {
    SlicesFacesAt(n, Columns(n, closed), slices, n + 1, s, v);
  }

  // ---------------------------------------------------------------- corrected faces

  /** Every corner takes its uv and normal from the vertex whose position it names. */
  predicate Aligned(f: ObjFace) {
    f.uv == Some(f.pos) && NormalsFollowPositions(f)
  }

  /** Every corner of the face lies on ring s or s + 1, at a point index no larger than n. */
  predicate OnRings(f: ObjFace, n: nat, slices: nat) {
    forall k :: 0 <= k < 3 ==> f.pos.At(k) < (slices + 1) * (n + 1)
  }

  lemma QuadFacts(n: nat, cols: nat, slices: nat, s: nat, v: nat)
    requires cols <= n && s < slices && v < cols
    ensures Aligned(LowerRight(n, s, v, n + 1)) && Aligned(UpperLeft(n, s, v))
    ensures OnRings(LowerRight(n, s, v, n + 1), n, slices) && OnRings(UpperLeft(n, s, v), n, slices)
  {
    var b := (s + 1) * (n + 1) + v;
    assert (s + 1) * (n + 1) + (n + 1) == (s + 2) * (n + 1);
    MulMono(s + 2, slices + 1, n + 1);
    assert b + 1 < (slices + 1) * (n + 1);
    assert s * (n + 1) + v + 1 <= b;
  }

  /** Every face of the list is aligned and lies on the rings 0 .. slices. */
  predicate AllFit(fs: seq<ObjFace>, n: nat, slices: nat) {
    forall k :: 0 <= k < |fs| ==> Aligned(fs[k]) && OnRings(fs[k], n, slices)
  }

  lemma AllFitJoin(a: seq<ObjFace>, b: seq<ObjFace>, n: nat, slices: nat)
    requires AllFit(a, n, slices) && AllFit(b, n, slices)
    ensures AllFit(a + b, n, slices)
  {
    forall k | 0 <= k < |a + b|
      ensures Aligned((a + b)[k]) && OnRings((a + b)[k], n, slices)
    {
      if k >= |a| {
        assert (a + b)[k] == b[k - |a|];
      }
    }
  }

  lemma {:induction false} SliceFacesFit(n: nat, cols: nat, slices: nat, s: nat, v: nat)
    requires cols <= n && s < slices && v <= cols
    ensures AllFit(SliceFaces(n, s, v, n + 1), n, slices)
    decreases v
  {
    if v > 0 {
      SliceFacesFit(n, cols, slices, s, v - 1);
      QuadFacts(n, cols, slices, s, v - 1);
      AllFitJoin(SliceFaces(n, s, v - 1, n + 1), [LowerRight(n, s, v - 1, n + 1), UpperLeft(n, s, v - 1)], n, slices);
    }
  }

  lemma {:induction false} SlicesFacesFit(n: nat, cols: nat, slices: nat, upTo: nat)
    requires cols <= n && upTo <= slices
    ensures AllFit(SlicesFaces(n, cols, upTo, n + 1), n, slices)
    decreases upTo
  {
    if upTo > 0 {
      SlicesFacesFit(n, cols, slices, upTo - 1);
      SliceFacesFit(n, cols, slices, upTo - 1, cols);
      AllFitJoin(SlicesFaces(n, cols, upTo - 1, n + 1), SliceFaces(n, upTo - 1, cols, n + 1), n, slices);
    }
  }

  /**
   * With the ring stride, every corner's uv and normal are those of its own vertex, and
   * every position index falls inside the slices + 1 rings the faces span.
   */
  lemma FacesAligned(n: nat, closed: bool, slices: nat)
    ensures AllFit(Faces(n, closed, slices), n, slices)
  {
    SlicesFacesFit(n, Columns(n, closed), slices, slices);
  }

  // ---------------------------------------------------------------- the curve's tables

  lemma {:induction false} FlattenSameLengths(xs: seq<seq<V2>>, ys: seq<seq<V2>>)
    requires |xs| == |ys| && forall i :: 0 <= i < |xs| ==> |xs[i]| == |ys[i]|
    ensures |Splines.Flatten(xs)| == |Splines.Flatten(ys)|
    decreases |xs|
  {
    if xs != [] {
      FlattenSameLengths(xs[..|xs| - 1], ys[..|ys| - 1]);
    }
  }

  /**
   * A curve satisfying its invariant has as many normals as points, and at least one:
   * every segment's tessellation holds its start point and one normal per point.
   */
  lemma ValidCurveTables(b: Basis, curve: Spline)
    requires Valid(b, curve)
    ensures |GetPoints(curve)| == |GetNormals(curve)| > 0
  {
    var segs := curve.segments;
    var ws := Windows(curve.points, curve.closed);
    assert |segs| == |ws| > 0;
    var xs := PointLists(curve);
    var ys := NormalLists(curve);
    forall i | 0 <= i < |segs|
      ensures |xs[i]| == |ys[i]| && |xs[i]| >= 1
    {
      assert segs[i] == Build(b, curve.eps, ws[i]);
    }
    FlattenSameLengths(xs, ys);
    assert Splines.Flatten(xs) == Splines.Flatten(xs[..|xs| - 1]) + xs[|xs| - 1];
  }

  /**
   * A curve satisfying its invariant always revolves into a mesh, and when the angle loop
   * visits slices + 1 angles every face index, of every table, is in range.
   */
  lemma RevolveInRange(sw: Sweep, b: Basis, curve: Spline, slices: nat)
    requires Valid(b, curve)
    ensures var r := Revolve(sw, curve, slices, slices + 1);
      r.Success? && MeshInRange(r.value)
      && forall k :: 0 <= k < |r.value.faces| ==> Aligned(r.value.faces[k])
  {
    ValidCurveTables(b, curve);
    var n := |GetPoints(curve)|;
    RevolveTables(sw, curve, slices, slices + 1);
    FacesAligned(n, curve.closed, slices);
    FitMeshInRange(Revolve(sw, curve, slices, slices + 1).value, n, slices);
  }

  /** Faces on the rings of tables that each hold every ring index stay in range. */
  lemma FitMeshInRange(mesh: ObjMesh, n: nat, slices: nat)
    requires |mesh.positions| == |mesh.uvs| == |mesh.normals| == (slices + 1) * (n + 1)
    requires AllFit(mesh.faces, n, slices)
    ensures MeshInRange(mesh) && forall k :: 0 <= k < |mesh.faces| ==> Aligned(mesh.faces[k])
  {
    forall k | 0 <= k < |mesh.faces|
      ensures FaceInRange(mesh, mesh.faces[k])
    {
      assert OnRings(mesh.faces[k], n, slices);
      assert mesh.faces[k].pos.At(0) == mesh.faces[k].pos.c0;
      assert mesh.faces[k].pos.At(1) == mesh.faces[k].pos.c1;
      assert mesh.faces[k].pos.At(2) == mesh.faces[k].pos.c2;
    }
  }

  /**
   * On a closed curve the last quad of every slice ends on the repeated first point, so
   * the surface closes across the curve's seam: that corner and the first quad's starting
   * corner hold the same position.
   */
  lemma SeamCloses(f: (nat, V2) -> V3, xs: seq<V2>, slices: nat, s: nat)
    requires |xs| > 0 && s < slices
    ensures var n := |xs|; var fs := Faces(n, true, slices); var t := Rings(f, xs, slices + 1);
      SharedCorner(fs, t, 2 * (s * n + (n - 1)), 2 * (s * n + 0))
  {
    var n := |xs|;
    MulMono(0, s, n);
    MulMono(0, s, n + 1);
    SeamFaces(n, slices, s);
    RingSeam(f, xs, slices + 1, s);
  }

  /** Ring r's closing entry repeats its first one. */
  lemma RingSeam(f: (nat, V2) -> V3, xs: seq<V2>, rings: nat, r: nat)
    requires |xs| > 0 && r < rings
    ensures var t := Rings(f, xs, rings); var n := |xs|;
      r * (n + 1) + n < |t| && t[r * (n + 1) + n] == t[r * (n + 1) + 0]
  {
    RingsAt(f, xs, rings, r, |xs|);
    RingsAt(f, xs, rings, r, 0);
  }

  /** Face i's middle corner and face j's last corner name the same table entry. */
  predicate SharedCorner(fs: seq<ObjFace>, t: seq<V3>, i: int, j: int) {
    0 <= i < |fs| && 0 <= j < |fs| && fs[i].pos.c1 < |t| && fs[j].pos.c2 < |t|
    && t[fs[i].pos.c1] == t[fs[j].pos.c2]
  }


  /** In a closed layout the last quad of slice s ends on point n of ring s, the first starts on point 0. */
  lemma SeamFaces(n: nat, slices: nat, s: nat)
    requires n > 0 && s < slices
    ensures var fs := Faces(n, true, slices); var i := 2 * (s * n + (n - 1)); var j := 2 * (s * n + 0);
      i < |fs| && j < |fs| && fs[i].pos.c1 == s * (n + 1) + n && fs[j].pos.c2 == s * (n + 1) + 0
  {
    assert Faces(n, true, slices) == SlicesFaces(n, n, slices, n + 1);
    SlicesFacesAt(n, n, slices, n + 1, s, n - 1);
    SlicesFacesAt(n, n, slices, n + 1, s, 0);
    SeamCorners(n, s);
  }

  /** The last quad's middle corner is point n of ring s, the first quad's last corner point 0. */
  lemma SeamCorners(n: nat, s: nat)
    requires n > 0
    ensures LowerRight(n, s, n - 1, n + 1).pos.c1 == s * (n + 1) + n
    ensures LowerRight(n, s, 0, n + 1).pos.c2 == s * (n + 1) + 0
  {
  }

  lemma ClosedSeam(sw: Sweep, b: Basis, curve: Spline, slices: nat, s: nat)
    requires Valid(b, curve) && curve.closed && s < slices
    ensures var r := Revolve(sw, curve, slices, slices + 1);
      var n := |GetPoints(curve)|; var i := 2 * (s * n + (n - 1)); var j := 2 * (s * n + 0);
      r.Success? && SharedCorner(r.value.faces, r.value.positions, i, j)
  {
    ValidCurveTables(b, curve);
    RevolveTables(sw, curve, slices, slices + 1);
    MulMono(0, s, |GetPoints(curve)|);
    SeamCloses(sw.place, GetPoints(curve), slices, s);
  }

  // ---------------------------------------------------------------- as written

  /**
   * As written, from slice 1 on the middle corner of each lower-right triangle reads its
   * uv and normal s entries before its position: another vertex's normal.
   */
  lemma AsWrittenNormalSkips(n: nat, closed: bool, slices: nat, s: nat, v: nat)
    requires 1 <= s < slices && v < Columns(n, closed)
    ensures var fs := AsWrittenFaces(n, closed, slices); var k := 2 * (s * Columns(n, closed) + v);
      k < |fs| && fs[k].normal.Some? && fs[k].normal.value.c1 + s == fs[k].pos.c1 && !Aligned(fs[k])
  {
    var cols := Columns(n, closed);
    var fs := AsWrittenFaces(n, closed, slices);
    assert fs == SlicesFaces(n, cols, slices, n);
    MulMono(0, s, cols);
    SlicesFacesAt(n, cols, slices, n, s, v);
    assert fs[2 * (s * cols + v)] == LowerRight(n, s, v, n);
    LowerRightAsWritten(n, s, v);
  }

  lemma LowerRightAsWritten(n: nat, s: nat, v: nat)
    requires s >= 1
    ensures var f := LowerRight(n, s, v, n);
      f.normal.Some? && f.normal.value.c1 + s == f.pos.c1 && !Aligned(f)
  {
    assert s * (n + 1) == s * n + s;
  }

  /**
   * On any curve with two or more points and two or more slices, the first triangle of
   * slice 1 sits on ring 1's point 1 but is shaded with ring 1's normal of point 0.
   */
  lemma AsWrittenWrongNormal(sw: Sweep, curve: Spline, slices: nat)
    requires |GetPoints(curve)| >= 2 && |GetNormals(curve)| == |GetPoints(curve)| && slices >= 2
    ensures var r := AsWrittenRevolve(sw, curve, slices, slices + 1);
      var n := |GetPoints(curve)|; var f := r.value.faces[2 * Columns(n, curve.closed)];
      r.Success? && f.pos.c1 == n + 2 && f.normal == Some(Corners(2 * n + 3, n + 1, n + 1))
      && r.value.positions[n + 2] == sw.place(1, GetPoints(curve)[1])
      && r.value.normals[n + 1] == sw.turn(1, GetNormals(curve)[0])
  {
    var pts := GetPoints(curve);
    var nrm := GetNormals(curve);
    var n := |pts|;
    var cols := Columns(n, curve.closed);
    var mesh := AsWrittenRevolve(sw, curve, slices, slices + 1).value;
    assert mesh.positions == Rings(sw.place, pts, slices + 1);
    assert mesh.normals == Rings(sw.turn, nrm, slices + 1);
    assert mesh.faces == SlicesFaces(n, cols, slices, n);
    SlicesFacesAt(n, cols, slices, n, 1, 0);
    assert 1 * cols + 0 == cols;
    assert mesh.faces[2 * cols] == LowerRight(n, 1, 0, n);
    RingsAt(sw.place, pts, slices + 1, 1, 1);
    RingsAt(sw.turn, nrm, slices + 1, 1, 0);
  }
}
