/**
 * Smooth vertex normals, as both normal calculators build them: every vertex starts at
 * zero, each triangle adds its face normal once per corner it has at that vertex, and
 * the sums are normalised at the end.
 */
module VertexNormals {
  import opened Geometry
  import opened Surfaces

  /** The three indices of a triangle address a table of n entries. */
  predicate CornersIn(c: Corners, n: nat) {
    c.c0 < n && c.c1 < n && c.c2 < n
  }

  /** How many corners of the triangle are vertex v. */
  function Mult(c: Corners, v: nat): (r: nat)
    ensures r <= 3
    ensures r == 0 <==> v != c.c0 && v != c.c1 && v != c.c2
  {
    (if c.c0 == v then 1 else 0) + (if c.c1 == v then 1 else 0) + (if c.c2 == v then 1 else 0)
  }

  /** `normals[c0].add(d); normals[c1].add(d); normals[c2].add(d)`. */
  function Spread(ns: seq<V3>, c: Corners, d: V3): (r: seq<V3>)
    requires CornersIn(c, |ns|)
    ensures |r| == |ns|
  {
    var a := ns[c.c0 := Add(ns[c.c0], d)];
    var b := a[c.c1 := Add(a[c.c1], d)];
    b[c.c2 := Add(b[c.c2], d)]
  }

  /** The loop over the triangles, each with its face normal, in order. */
  function Accumulate(ns: seq<V3>, tris: seq<(Corners, V3)>): (r: seq<V3>)
    requires forall k :: 0 <= k < |tris| ==> CornersIn(tris[k].0, |ns|)
    ensures |r| == |ns|
    decreases |tris|
  {
    if |tris| == 0 then ns
    else Accumulate(Spread(ns, tris[0].0, tris[0].1), tris[1..])
  }

  /** Reference: the sum over the triangles of face normal times multiplicity at v. */
  function IncidentSum(tris: seq<(Corners, V3)>, v: nat): V3
    decreases |tris|
  {
    if |tris| == 0 then Zero()
    else Add(Scale(Mult(tris[0].0, v) as real, tris[0].1), IncidentSum(tris[1..], v))
  }

  /** One triangle adds its normal to vertex v once for each corner that is v. */
  lemma SpreadAt(ns: seq<V3>, c: Corners, d: V3, v: nat)
    requires CornersIn(c, |ns|) && v < |ns|
    ensures Spread(ns, c, d)[v] == Add(ns[v], Scale(Mult(c, v) as real, d))
  {
  }

  /** The accumulation loop computes, at every vertex, the reference incident sum. */
  lemma {:induction false} AccumulateIsIncidentSum(ns: seq<V3>, tris: seq<(Corners, V3)>, v: nat)
    requires forall k :: 0 <= k < |tris| ==> CornersIn(tris[k].0, |ns|)
    requires v < |ns|
    ensures Accumulate(ns, tris)[v] == Add(ns[v], IncidentSum(tris, v))
    decreases |tris|
  {
    if |tris| > 0 {
      var ns' := Spread(ns, tris[0].0, tris[0].1);
      SpreadAt(ns, tris[0].0, tris[0].1, v);
      AccumulateIsIncidentSum(ns', tris[1..], v);
    }
  }

  /** A vertex that no triangle touches receives nothing. */
  lemma {:induction false} UntouchedIsZero(tris: seq<(Corners, V3)>, v: nat)
    requires forall k :: 0 <= k < |tris| ==> Mult(tris[k].0, v) == 0
    ensures IncidentSum(tris, v) == Zero()
    decreases |tris|
  {
    if |tris| > 0 {
      UntouchedIsZero(tris[1..], v);
    }
  }

  /** The normalised sums, one per vertex, starting from zero vectors. */
  function SmoothNormals(sqrt: real -> real, count: nat, tris: seq<(Corners, V3)>): (r: seq<V3>)
    requires forall k :: 0 <= k < |tris| ==> CornersIn(tris[k].0, count)
    ensures |r| == count
    ensures forall v :: 0 <= v < count ==> r[v] == Unit(sqrt, IncidentSum(tris, v))
  {
    var zeros := seq(count, _ => Zero());
    var sums := Accumulate(zeros, tris);
    forall v | 0 <= v < count
      ensures sums[v] == IncidentSum(tris, v)
    {
      AccumulateIsIncidentSum(zeros, tris, v);
    }
    seq(count, v requires 0 <= v < count => Unit(sqrt, sums[v]))
  }
}

/**
 * `meshgen.NormalCalculator.calculateNormals`: replace a mesh's normals by smooth vertex
 * normals, one per position, and point every face's normal indices at its position
 * indices.
 */
module NormalCalculator {
  import opened Geometry
  import opened Wrappers
  import opened Surfaces
  import opened VertexNormals

  /** The faces' position indices address the position table (`getPosition` would throw). */
  predicate PositionsInRange(mesh: ObjMesh) {
    forall k :: 0 <= k < |mesh.faces| ==> CornersIn(mesh.faces[k].pos, |mesh.positions|)
  }

  /**
   * normalize((v1 - v0) x (v2 - v0)), the face normal of a triangle: perpendicular to both
   * edges leaving the first corner.
   */
  function FaceNormal(sqrt: real -> real, ps: seq<V3>, c: Corners): (n: V3)
    requires CornersIn(c, |ps|)
    ensures Dot(n, Sub(ps[c.c1], ps[c.c0])) == 0.0 && Dot(n, Sub(ps[c.c2], ps[c.c0])) == 0.0
  {
    var u, w := Sub(ps[c.c1], ps[c.c0]), Sub(ps[c.c2], ps[c.c0]);
    CrossPerpendicular(u, w);
    UnitPerpendicular(sqrt, Cross(u, w), u);
    UnitPerpendicular(sqrt, Cross(u, w), w);
    Unit(sqrt, Cross(u, w))
  }

  lemma UnitPerpendicular(sqrt: real -> real, a: V3, b: V3)
    requires Dot(a, b) == 0.0
    ensures Dot(Unit(sqrt, a), b) == 0.0
  {
    if a != Zero() && sqrt(Dot(a, a)) != 0.0 {
      var l := sqrt(Dot(a, a));
      DotScale(1.0 / l, a, b);
    }
  }

  /** Each face with its face normal, in face order. */
  function Contributions(sqrt: real -> real, mesh: ObjMesh): (r: seq<(Corners, V3)>)
    requires PositionsInRange(mesh)
    ensures |r| == |mesh.faces|
    ensures forall k :: 0 <= k < |r| ==> r[k].0 == mesh.faces[k].pos && CornersIn(r[k].0, |mesh.positions|)
  {
    seq(|mesh.faces|, k requires 0 <= k < |mesh.faces| =>
      (mesh.faces[k].pos, FaceNormal(sqrt, mesh.positions, mesh.faces[k].pos)))
  }

  /** `calculateNormals`. */
  function CalculateNormals(sqrt: real -> real, mesh: ObjMesh): (r: ObjMesh)
    requires PositionsInRange(mesh)
    ensures r.positions == mesh.positions && r.uvs == mesh.uvs
    ensures |r.normals| == |mesh.positions| && |r.faces| == |mesh.faces|
    ensures forall k :: 0 <= k < |r.faces| ==>
      r.faces[k].pos == mesh.faces[k].pos && r.faces[k].uv == mesh.faces[k].uv
      && NormalsFollowPositions(r.faces[k])
    ensures forall v :: 0 <= v < |r.normals| ==>
      r.normals[v] == Unit(sqrt, IncidentSum(Contributions(sqrt, mesh), v))
  {
    var faces := seq(|mesh.faces|, k requires 0 <= k < |mesh.faces| =>
      mesh.faces[k].(normal := Some(mesh.faces[k].pos)));
    ObjMesh(mesh.positions, mesh.uvs, SmoothNormals(sqrt, |mesh.positions|, Contributions(sqrt, mesh)), faces)
  }

  /** The recomputed mesh indexes its tables wherever the input did. */
  lemma CalculateNormalsInRange(sqrt: real -> real, mesh: ObjMesh)
    requires MeshInRange(mesh)
    ensures PositionsInRange(mesh) && MeshInRange(CalculateNormals(sqrt, mesh))
  {
    forall k | 0 <= k < |mesh.faces|
      ensures CornersIn(mesh.faces[k].pos, |mesh.positions|)
    {
      assert FaceInRange(mesh, mesh.faces[k]);
    }
    var r := CalculateNormals(sqrt, mesh);
    forall k | 0 <= k < |r.faces|
      ensures FaceInRange(r, r.faces[k])
    {
      assert FaceInRange(mesh, mesh.faces[k]);
    }
  }

  /** A position that no face uses keeps a zero normal. */
  lemma UnusedVertexHasZeroNormal(sqrt: real -> real, mesh: ObjMesh, v: nat)
    requires PositionsInRange(mesh) && v < |mesh.positions|
    requires forall k :: 0 <= k < |mesh.faces| ==> Mult(mesh.faces[k].pos, v) == 0
    ensures CalculateNormals(sqrt, mesh).normals[v] == Zero()
  {
    UntouchedIsZero(Contributions(sqrt, mesh), v);
  }
}
