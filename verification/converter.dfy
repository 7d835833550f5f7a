/**
 * `mesh.MeshData`: the buffers a generated or converted mesh hands to OpenGL, with the
 * vertex and index counts the producer declares.
 */
module Buffers {
  import opened Geometry

  datatype MeshData = MeshData(
    vertexCount: int,
    indexCount: int,
    positions: seq<V3>,
    uvs: seq<V2>,
    normals: seq<V3>,
    indices: seq<int>)

  /** Every index names a vertex of the declared vertex range. */
  predicate IndicesInRange(d: MeshData) {
    forall i :: 0 <= i < |d.indices| ==> 0 <= d.indices[i] < d.vertexCount
  }
}

/**
 * `mesh.MeshConverter`: normals reconstructed for a triangle list, either one normal per
 * face (every triangle gets three vertices of its own) or smooth normals per vertex.
 *
 * A triangle is degenerate when its cross product is the zero vector, which is exactly
 * when normalising it produces the NaN components the converter tests for.
 */
module MeshConverter {
  import opened Geometry
  import opened Surfaces
  import opened VertexNormals
  import opened Buffers
  import NormalCalculator

  /** `(p[z] - p[y]) x (p[x] - p[y])`, before normalising: perpendicular to both edges at p[y]. */
  function RawNormal(ps: seq<V3>, t: Corners): (n: V3)
    requires CornersIn(t, |ps|)
    ensures Dot(n, Sub(ps[t.c2], ps[t.c1])) == 0.0 && Dot(n, Sub(ps[t.c0], ps[t.c1])) == 0.0
  {
    CrossPerpendicular(Sub(ps[t.c2], ps[t.c1]), Sub(ps[t.c0], ps[t.c1]));
    Cross(Sub(ps[t.c2], ps[t.c1]), Sub(ps[t.c0], ps[t.c1]))
  }

  /**
   * Taken at the middle corner, the converter's cross product is the one the mesh
   * generator takes at the first corner, so both face normals turn the same way.
   */
  lemma RawNormalAgrees(sqrt: real -> real, ps: seq<V3>, t: Corners)
    requires CornersIn(t, |ps|)
    ensures RawNormal(ps, t) == Cross(Sub(ps[t.c1], ps[t.c0]), Sub(ps[t.c2], ps[t.c0]))
    ensures Unit(sqrt, RawNormal(ps, t)) == NormalCalculator.FaceNormal(sqrt, ps, t)
  {
    var a, b, c := ps[t.c0], ps[t.c1], ps[t.c2];
    CrossOfEdges(a, b, c);
  }

  /** (c - b) x (a - b) == (b - a) x (c - a), component by component. */
  lemma CrossOfEdges(a: V3, b: V3, c: V3)
    ensures Cross(Sub(c, b), Sub(a, b)) == Cross(Sub(b, a), Sub(c, a))
  {
    var u, w := Sub(b, a), Sub(c, a);
    assert Sub(c, b) == Sub(w, u) && Sub(a, b) == Neg(u);
    CrossDiffNeg(u, w);
  }

  lemma CrossDiffNeg(u: V3, w: V3)
    ensures Cross(Sub(w, u), Neg(u)) == Cross(u, w)
  {
  }

  predicate Degenerate(ps: seq<V3>, t: Corners)
    requires CornersIn(t, |ps|)
  {
    RawNormal(ps, t) == Zero()
  }

  predicate AllIn(ps: seq<V3>, tris: seq<Corners>) {
    forall k :: 0 <= k < |tris| ==> CornersIn(tris[k], |ps|)
  }

  /** Reference: the non-degenerate triangles, in order. */
  function Kept(ps: seq<V3>, tris: seq<Corners>): (r: seq<Corners>)
    requires AllIn(ps, tris)
    ensures |r| <= |tris| && AllIn(ps, r)
    decreases |tris|
  {
    if |tris| == 0 then []
    else if Degenerate(ps, tris[0]) then Kept(ps, tris[1..])
    else [tris[0]] + Kept(ps, tris[1..])
  }

  /** Each kept triangle's three corner positions, in order. */
  function CornerPositions(ps: seq<V3>, tris: seq<Corners>): (r: seq<V3>)
    requires AllIn(ps, tris)
    ensures |r| == 3 * |tris|
    decreases |tris|
  {
    if |tris| == 0 then []
    else [ps[tris[0].c0], ps[tris[0].c1], ps[tris[0].c2]] + CornerPositions(ps, tris[1..])
  }

  /** Each triangle's unit normal, three times. */
  function CornerNormals(sqrt: real -> real, ps: seq<V3>, tris: seq<Corners>): (r: seq<V3>)
    requires AllIn(ps, tris)
    ensures |r| == 3 * |tris|
    decreases |tris|
  {
    if |tris| == 0 then []
    else
      var n := Unit(sqrt, RawNormal(ps, tris[0]));
      [n, n, n] + CornerNormals(sqrt, ps, tris[1..])
  }

  /** The triangles' index triples, flattened. */
  function CornerIndices(tris: seq<Corners>): (r: seq<int>)
    ensures |r| == 3 * |tris|
    decreases |tris|
  {
    if |tris| == 0 then [] else [tris[0].c0 as int, tris[0].c1, tris[0].c2] + CornerIndices(tris[1..])
  }

  /** The filter keeps exactly the non-degenerate triangles. */
  lemma {:induction false} KeptNonDegenerate(ps: seq<V3>, tris: seq<Corners>)
    requires AllIn(ps, tris)
    ensures forall k :: 0 <= k < |Kept(ps, tris)| ==> !Degenerate(ps, Kept(ps, tris)[k])
    ensures (forall k :: 0 <= k < |tris| ==> !Degenerate(ps, tris[k])) ==> Kept(ps, tris) == tris
    decreases |tris|
  {
    if |tris| > 0 {
      KeptNonDegenerate(ps, tris[1..]);
      var kr := Kept(ps, tris[1..]);
      if !Degenerate(ps, tris[0]) {
        forall k | 0 <= k < |kr| + 1
          ensures !Degenerate(ps, ([tris[0]] + kr)[k])
        {
          if k > 0 {
            assert ([tris[0]] + kr)[k] == kr[k - 1];
          }
        }
      }
      if forall k :: 0 <= k < |tris| ==> !Degenerate(ps, tris[k]) {
        assert forall k :: 0 <= k < |tris[1..]| ==> !Degenerate(ps, tris[1..][k]);
        assert [tris[0]] + tris[1..] == tris;
      }
    }
  }

  // ---------------------------------------------------------------- face normals

  /** The loop of `convertToFaceNormals`, on the triangles not yet visited. */
  function FaceLoop(sqrt: real -> real, ps: seq<V3>, tris: seq<Corners>, d: MeshData): (r: MeshData)
    requires AllIn(ps, tris)
    ensures r.uvs == d.uvs
    decreases |tris|
  {
    if |tris| == 0 then d
    else
      var t := tris[0];
      var raw := RawNormal(ps, t);
      if raw == Zero() then
        FaceLoop(sqrt, ps, tris[1..], d.(vertexCount := d.vertexCount - 3, indexCount := d.indexCount - 3))
      else
        var n := Unit(sqrt, raw);
        var vi := |d.positions|;
        FaceLoop(sqrt, ps, tris[1..],
                 d.(positions := d.positions + [ps[t.c0], ps[t.c1], ps[t.c2]],
                    normals := d.normals + [n, n, n],
                    indices := d.indices + [vi, vi + 1, vi + 2]))
  }

  /** `convertToFaceNormals(positions, tris)`. */
  function ConvertToFaceNormals(sqrt: real -> real, ps: seq<V3>, tris: seq<Corners>): (r: MeshData)
    requires AllIn(ps, tris)
    ensures r.vertexCount == r.indexCount == |r.positions| == |r.normals| == |r.indices|
    ensures r.indices == Count(0, |r.indices|)
    ensures IndicesInRange(r)
    ensures r.uvs == []
    ensures r.positions == CornerPositions(ps, Kept(ps, tris))
    ensures r.normals == CornerNormals(sqrt, ps, Kept(ps, tris))
  {
    var d := MeshData(3 * |tris|, 3 * |tris|, [], [], [], []);
    FaceLoopCounts(sqrt, ps, tris, d);
    FaceLoopVertices(sqrt, ps, tris, d);
    FaceLoopIndices(sqrt, ps, tris, d);
    FaceLoop(sqrt, ps, tris, d)
  }

  /** Consecutive numbers from a. */
  function Count(a: int, len: nat): (r: seq<int>)
    ensures |r| == len && forall i :: 0 <= i < len ==> r[i] == a + i
  {
    seq(len, i => a + i)
  }

  lemma CountSplit(a: int, len: nat)
    ensures Count(a, len + 3) == [a, a + 1, a + 2] + Count(a + 3, len)
  {
  }

  /** Both counts drop by three for every degenerate triangle. */
  lemma {:induction false} FaceLoopCounts(sqrt: real -> real, ps: seq<V3>, tris: seq<Corners>, d: MeshData)
    requires AllIn(ps, tris)
    ensures var kept := Kept(ps, tris);
      var r := FaceLoop(sqrt, ps, tris, d);
      && r.vertexCount == d.vertexCount - 3 * (|tris| - |kept|)
      && r.indexCount == d.indexCount - 3 * (|tris| - |kept|)
    decreases |tris|
  {
    if |tris| > 0 {
      var t := tris[0];
      if Degenerate(ps, t) {
        FaceLoopCounts(sqrt, ps, tris[1..], d.(vertexCount := d.vertexCount - 3, indexCount := d.indexCount - 3));
      } else {
        var n := Unit(sqrt, RawNormal(ps, t));
        var vi := |d.positions|;
        FaceLoopCounts(sqrt, ps, tris[1..],
                       d.(positions := d.positions + [ps[t.c0], ps[t.c1], ps[t.c2]],
                          normals := d.normals + [n, n, n],
                          indices := d.indices + [vi, vi + 1, vi + 2]));
      }
    }
  }

  /** Every kept triangle appends its three corner positions and its unit normal three times. */
  lemma {:induction false} FaceLoopVertices(sqrt: real -> real, ps: seq<V3>, tris: seq<Corners>, d: MeshData)
    requires AllIn(ps, tris)
    ensures var kept := Kept(ps, tris);
      var r := FaceLoop(sqrt, ps, tris, d);
      && r.positions == d.positions + CornerPositions(ps, kept)
      && r.normals == d.normals + CornerNormals(sqrt, ps, kept)
    decreases |tris|
  {
    if |tris| > 0 {
      var t := tris[0];
      var rest := tris[1..];
      if Degenerate(ps, t) {
        FaceLoopVertices(sqrt, ps, rest, d.(vertexCount := d.vertexCount - 3, indexCount := d.indexCount - 3));
      } else {
        var n := Unit(sqrt, RawNormal(ps, t));
        var vi := |d.positions|;
        var d' := d.(positions := d.positions + [ps[t.c0], ps[t.c1], ps[t.c2]],
                     normals := d.normals + [n, n, n],
                     indices := d.indices + [vi, vi + 1, vi + 2]);
        FaceLoopVertices(sqrt, ps, rest, d');
        var kr := Kept(ps, rest);
        assert Kept(ps, tris) == [t] + kr;
        assert ([t] + kr)[1..] == kr;
        assert CornerPositions(ps, [t] + kr) == [ps[t.c0], ps[t.c1], ps[t.c2]] + CornerPositions(ps, kr);
        assert CornerNormals(sqrt, ps, [t] + kr) == [n, n, n] + CornerNormals(sqrt, ps, kr);
      }
    }
  }

  /** The indices continue the vertex numbering: 0, 1, 2, ... */
  lemma {:induction false} FaceLoopIndices(sqrt: real -> real, ps: seq<V3>, tris: seq<Corners>, d: MeshData)
    requires AllIn(ps, tris)
    ensures var kept := Kept(ps, tris);
      var r := FaceLoop(sqrt, ps, tris, d);
      && r.indices == d.indices + Count(|d.positions|, 3 * |kept|)
      && |r.positions| == |d.positions| + 3 * |kept|
      && |r.normals| == |d.normals| + 3 * |kept|
    decreases |tris|
  {
    if |tris| > 0 {
      var t := tris[0];
      var rest := tris[1..];
      if Degenerate(ps, t) {
        FaceLoopIndices(sqrt, ps, rest, d.(vertexCount := d.vertexCount - 3, indexCount := d.indexCount - 3));
      } else {
        var n := Unit(sqrt, RawNormal(ps, t));
        var vi := |d.positions|;
        var d' := d.(positions := d.positions + [ps[t.c0], ps[t.c1], ps[t.c2]],
                     normals := d.normals + [n, n, n],
                     indices := d.indices + [vi, vi + 1, vi + 2]);
        FaceLoopIndices(sqrt, ps, rest, d');
        var kr := Kept(ps, rest);
        assert |Kept(ps, tris)| == |kr| + 1;
        CountSplit(vi, 3 * |kr|);
      }
    }
  }

  /** Corner c of triangle k sits at 3k + c. */
  lemma {:induction false} CornerPositionsAt(ps: seq<V3>, tris: seq<Corners>, k: nat, c: nat)
    requires AllIn(ps, tris) && k < |tris| && c < 3
    ensures CornerPositions(ps, tris)[3 * k + c] == ps[tris[k].At(c)]
    ensures CornerIndices(tris)[3 * k + c] == tris[k].At(c)
    decreases k
  {
    if k > 0 {
      CornerPositionsAt(ps, tris[1..], k - 1, c);
    }
  }

  lemma {:induction false} CornerNormalsAt(sqrt: real -> real, ps: seq<V3>, tris: seq<Corners>, k: nat, c: nat)
    requires AllIn(ps, tris) && k < |tris| && c < 3
    ensures CornerNormals(sqrt, ps, tris)[3 * k + c] == Unit(sqrt, RawNormal(ps, tris[k]))
    decreases k
  {
    if k > 0 {
      CornerNormalsAt(sqrt, ps, tris[1..], k - 1, c);
    }
  }

  /**
   * Face normals: vertex 3k + c of the result is corner c of the k-th non-degenerate
   * triangle, with that triangle's unit normal, so the three corners of a triangle share
   * one normal; both counts are three per non-degenerate triangle.
   */
  lemma FaceNormalsLayout(sqrt: real -> real, ps: seq<V3>, tris: seq<Corners>, k: nat, c: nat)
    requires AllIn(ps, tris) && k < |Kept(ps, tris)| && c < 3
    ensures var r := ConvertToFaceNormals(sqrt, ps, tris);
      var t := Kept(ps, tris)[k];
      && r.vertexCount == 3 * |Kept(ps, tris)|
      && r.positions[3 * k + c] == ps[t.At(c)]
      && r.normals[3 * k + c] == Unit(sqrt, RawNormal(ps, t))
  {
    var kept := Kept(ps, tris);
    CornerPositionsAt(ps, kept, k, c);
    CornerNormalsAt(sqrt, ps, kept, k, c);
  }

  // ---------------------------------------------------------------- vertex normals

  /** The loop of `convertToVertexNormals`: running sums, index buffer and index count. */
  function VertexLoop(sqrt: real -> real, ps: seq<V3>, tris: seq<Corners>, ns: seq<V3>, idx: seq<int>, count: int)
    : (r: (seq<V3>, seq<int>, int))
    requires AllIn(ps, tris) && |ns| == |ps|
    ensures |r.0| == |ps|
    decreases |tris|
  {
    if |tris| == 0 then (ns, idx, count)
    else
      var t := tris[0];
      var raw := RawNormal(ps, t);
      if raw == Zero() then VertexLoop(sqrt, ps, tris[1..], ns, idx, count - 3)
      else VertexLoop(sqrt, ps, tris[1..], Spread(ns, t, Unit(sqrt, raw)), idx + [t.c0, t.c1, t.c2], count)
  }

  /** Triangles paired with their unit face normals. */
  function WithNormals(sqrt: real -> real, ps: seq<V3>, tris: seq<Corners>): (r: seq<(Corners, V3)>)
    requires AllIn(ps, tris)
    ensures |r| == |tris|
    ensures forall k :: 0 <= k < |r| ==> r[k].0 == tris[k] && CornersIn(r[k].0, |ps|)
  {
    seq(|tris|, k requires 0 <= k < |tris| => (tris[k], Unit(sqrt, RawNormal(ps, tris[k]))))
  }

  /** The sums of the vertex loop are the accumulation over the non-degenerate triangles. */
  lemma {:induction false} VertexLoopSums(sqrt: real -> real, ps: seq<V3>, tris: seq<Corners>,
                                          ns: seq<V3>, idx: seq<int>, count: int)
    requires AllIn(ps, tris) && |ns| == |ps|
    ensures VertexLoop(sqrt, ps, tris, ns, idx, count).0 == Accumulate(ns, WithNormals(sqrt, ps, Kept(ps, tris)))
    decreases |tris|
  {
    if |tris| > 0 {
      var t, rest := tris[0], tris[1..];
      var kr := Kept(ps, rest);
      if Degenerate(ps, t) {
        VertexLoopSums(sqrt, ps, rest, ns, idx, count - 3);
      } else {
        var n := Unit(sqrt, RawNormal(ps, t));
        VertexLoopSums(sqrt, ps, rest, Spread(ns, t, n), idx + [t.c0, t.c1, t.c2], count);
        var wk := WithNormals(sqrt, ps, [t] + kr);
        assert wk[0] == (t, n);
        assert wk[1..] == WithNormals(sqrt, ps, kr);
      }
    }
  }

  /** The loop copies the index triples of the non-degenerate triangles and counts three each. */
  lemma {:induction false} VertexLoopIndices(sqrt: real -> real, ps: seq<V3>, tris: seq<Corners>,
                                             ns: seq<V3>, idx: seq<int>, count: int)
    requires AllIn(ps, tris) && |ns| == |ps|
    ensures var r := VertexLoop(sqrt, ps, tris, ns, idx, count);
      r.1 == idx + CornerIndices(Kept(ps, tris))
      && r.2 == count - 3 * (|tris| - |Kept(ps, tris)|)
    decreases |tris|
  {
    if |tris| > 0 {
      var t, rest := tris[0], tris[1..];
      var kr := Kept(ps, rest);
      if Degenerate(ps, t) {
        VertexLoopIndices(sqrt, ps, rest, ns, idx, count - 3);
      } else {
        var n := Unit(sqrt, RawNormal(ps, t));
        VertexLoopIndices(sqrt, ps, rest, Spread(ns, t, n), idx + [t.c0, t.c1, t.c2], count);
        assert ([t] + kr)[1..] == kr;
        assert CornerIndices([t] + kr) == [t.c0 as int, t.c1, t.c2] + CornerIndices(kr);
      }
    }
  }

  /** `convertToVertexNormals(positions, tris)`. */
  function ConvertToVertexNormals(sqrt: real -> real, ps: seq<V3>, tris: seq<Corners>): (r: MeshData)
    requires AllIn(ps, tris)
    ensures r.vertexCount == |r.positions| == |r.normals| == |ps| && r.positions == ps
    ensures r.indexCount == |r.indices| == 3 * |Kept(ps, tris)|
    ensures r.indices == CornerIndices(Kept(ps, tris))
    ensures IndicesInRange(r)
    ensures forall v :: 0 <= v < |ps| ==>
      r.normals[v] == Unit(sqrt, IncidentSum(WithNormals(sqrt, ps, Kept(ps, tris)), v))
  {
    var (sums, idx, count) := VertexLoop(sqrt, ps, tris, Zeros(|ps|), [], 3 * |tris|);
    VertexLoopFromZero(sqrt, ps, tris);
    KeptIndicesInRange(ps, tris);
    MeshData(|ps|, count, ps, [], seq(|ps|, v requires 0 <= v < |ps| => Unit(sqrt, sums[v])), idx)
  }

  /** The normal sums `convertToVertexNormals` starts from. */
  function Zeros(n: nat): (r: seq<V3>)
    ensures |r| == n && forall v :: 0 <= v < n ==> r[v] == Zero()
  {
    seq(n, _ => Zero())
  }

  /** From zero sums, the loop's sums are the incident sums and its indices those of the kept triangles. */
  lemma VertexLoopFromZero(sqrt: real -> real, ps: seq<V3>, tris: seq<Corners>)
    requires AllIn(ps, tris)
    ensures var r := VertexLoop(sqrt, ps, tris, Zeros(|ps|), [], 3 * |tris|);
      && r.1 == CornerIndices(Kept(ps, tris)) && r.2 == 3 * |Kept(ps, tris)|
      && forall v :: 0 <= v < |ps| ==> r.0[v] == IncidentSum(WithNormals(sqrt, ps, Kept(ps, tris)), v)
  {
    var zeros := Zeros(|ps|);
    VertexLoopSums(sqrt, ps, tris, zeros, [], 3 * |tris|);
    VertexLoopIndices(sqrt, ps, tris, zeros, [], 3 * |tris|);
    var contributions := WithNormals(sqrt, ps, Kept(ps, tris));
    forall v | 0 <= v < |ps|
      ensures Accumulate(zeros, contributions)[v] == IncidentSum(contributions, v)
    {
      AccumulateIsIncidentSum(zeros, contributions, v);
    }
    assert [] + CornerIndices(Kept(ps, tris)) == CornerIndices(Kept(ps, tris));
  }

  /** Every index of a kept triangle names a position. */
  lemma KeptIndicesInRange(ps: seq<V3>, tris: seq<Corners>)
    requires AllIn(ps, tris)
    ensures forall i :: 0 <= i < |CornerIndices(Kept(ps, tris))| ==> 0 <= CornerIndices(Kept(ps, tris))[i] < |ps|
  {
    var kept := Kept(ps, tris);
    forall i | 0 <= i < |CornerIndices(kept)|
      ensures 0 <= CornerIndices(kept)[i] < |ps|
    {
      CornerPositionsAt(ps, kept, i / 3, i % 3);
    }
  }
}
