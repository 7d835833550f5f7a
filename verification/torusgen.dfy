/**
 * `mesh.gen.MeshGenTorus.generate`: a torus of unit major radius as OpenGL buffers. Ring
 * i of the L + 1 rings (the last repeats the first, for the texture seam) holds lat + 1
 * vertices, and each of the L lat quads between consecutive rings becomes two triangles.
 *
 * Sine, cosine and pi are the abstract `Trig` of the mesh generators.
 */
module MeshGenTorus {
  import opened Geometry
  import opened JavaInt
  import opened Buffers
  import MeshGen

  /** `MeshGenOptions`: the divisions around the axis and around the tube, and the tube radius. */
  datatype Options = Options(divisionsLongitude: int, divisionsLatitude: int, innerRadius: real)

  /** Ring i's centre on the unit circle of the x-z plane and the unit vector to vertex j. */
  function RingFrame(trig: MeshGen.Trig, opt: Options, i: int, j: int): (r: (V3, V3))
    requires opt.divisionsLongitude > 0 && opt.divisionsLatitude > 0
  {
    var phi := 2.0 * trig.pi * (i as real / opt.divisionsLongitude as real);
    var theta := 2.0 * trig.pi * (j as real / opt.divisionsLatitude as real);
    (V3(trig.sin(phi), 0.0, -trig.cos(phi)),
     V3(-(trig.cos(theta) * trig.sin(phi)), trig.sin(theta), trig.cos(theta) * trig.cos(phi)))
  }

  /** The texture coordinate of vertex j of ring i. */
  function TorusUv(opt: Options, i: int, j: int): V2
    requires opt.divisionsLongitude > 0 && opt.divisionsLatitude > 0
  {
    V2(1.0 - i as real / opt.divisionsLongitude as real, 1.0 - j as real / opt.divisionsLatitude as real)
  }

  /** The six indices of the quads between ring i and ring i + 1. */
  function RingIndices(i: nat, lat: nat): (r: seq<int>)
    ensures |r| == 6 * lat
  {
    var v := lat + 1;
    seq(6 * lat, q requires 0 <= q < 6 * lat =>
      var si := i * v + q / 6;
      var c := q % 6;
      if c == 0 then si else if c == 1 then si + v else if c == 2 || c == 3 then si + 1
      else if c == 4 then si + v else si + v + 1)
  }

  /** The index buffer from ring i onwards. */
  function IndexBuffer(i: nat, l: nat, lat: nat): (r: seq<int>)
    requires i <= l
    ensures |r| == 6 * lat * (l - i)
    decreases l - i
  {
    if i == l then []
    else
      var rest := IndexBuffer(i + 1, l, lat);
      assert 6 * lat * (l - i) == 6 * lat + 6 * lat * (l - (i + 1));
      RingIndices(i, lat) + rest
  }

  /** `generate(outData, opt)`. */
  function Generate(trig: MeshGen.Trig, opt: Options): (d: MeshData)
    requires opt.divisionsLongitude > 0 && opt.divisionsLatitude > 0
    ensures var count := (opt.divisionsLongitude + 1) * (opt.divisionsLatitude + 1);
      d.vertexCount == count && |d.positions| == |d.normals| == |d.uvs| == count
    ensures d.indexCount == |d.indices| == 6 * opt.divisionsLongitude * opt.divisionsLatitude
  {
    var l, lat := opt.divisionsLongitude, opt.divisionsLatitude;
    GenerateCounts(l, lat);
    var v := lat + 1;
    var count := (l + 1) * v;
    var frame := (q: int) requires 0 <= q => RingFrame(trig, opt, q / v, q % v);
    MeshData(count, l * lat * 2 * 3,
             seq(count, q requires 0 <= q < count => Add(frame(q).0, Scale(opt.innerRadius, frame(q).1))),
             seq(count, q requires 0 <= q < count => TorusUv(opt, q / v, q % v)),
             seq(count, q requires 0 <= q < count => frame(q).1),
             IndexBuffer(0, l, lat))
  }

  /** The buffer sizes `generate` computes, in the forms its contract states them. */
  lemma GenerateCounts(l: nat, lat: nat)
    ensures (l + 1) * (lat + 1) >= 0
    ensures l * lat * 2 * 3 == 6 * l * lat == 6 * lat * (l - 0)
  {
  }

  // ---------------------------------------------------------------- properties

  lemma RingIndicesInRange(i: nat, l: nat, lat: nat)
    requires i < l
    ensures forall q :: 0 <= q < |RingIndices(i, lat)| ==>
      i * (lat + 1) <= RingIndices(i, lat)[q] < (l + 1) * (lat + 1)
  {
    var v := lat + 1;
    assert (i + 1) * v + lat < (l + 1) * v by {
      assert (i + 1) * v <= l * v by { MulLe(i + 1, l, v); }
    }
  }

  lemma MulLe(a: int, b: int, c: int)
    requires a <= b && 0 <= c
    ensures a * c <= b * c
  {
    assert b * c - a * c == (b - a) * c;
  }

  lemma {:induction false} IndexBufferInRange(i: nat, l: nat, lat: nat)
    requires i <= l
    ensures forall q :: 0 <= q < |IndexBuffer(i, l, lat)| ==> 0 <= IndexBuffer(i, l, lat)[q] < (l + 1) * (lat + 1)
    decreases l - i
  {
    if i < l {
      RingIndicesInRange(i, l, lat);
      IndexBufferInRange(i + 1, l, lat);
      var a, b := RingIndices(i, lat), IndexBuffer(i + 1, l, lat);
      forall q | 0 <= q < |a + b|
        ensures 0 <= (a + b)[q] < (l + 1) * (lat + 1)
      {
        if q >= |a| {
          assert (a + b)[q] == b[q - |a|];
        }
      }
    }
  }

  /** Every index names one of the vertexCount vertices. */
  lemma GenerateIndicesInRange(trig: MeshGen.Trig, opt: Options)
    requires opt.divisionsLongitude > 0 && opt.divisionsLatitude > 0
    ensures IndicesInRange(Generate(trig, opt))
  {
    IndexBufferInRange(0, opt.divisionsLongitude, opt.divisionsLatitude);
  }

  /**
   * Vertex j of ring i sits at i (lat + 1) + j, where its texture coordinate is
   * (1 - i/L, 1 - j/lat), inside the unit square.
   */
  lemma VertexLayout(trig: MeshGen.Trig, opt: Options, i: nat, j: nat, q: nat)
    requires opt.divisionsLongitude > 0 && opt.divisionsLatitude > 0
    requires i <= opt.divisionsLongitude && j <= opt.divisionsLatitude
    requires q == i * (opt.divisionsLatitude + 1) + j
    ensures var d := Generate(trig, opt);
      var (center, dir) := RingFrame(trig, opt, i, j);
      && q < |d.uvs| && q < |d.normals| && q < |d.positions| && q < d.vertexCount
      && d.uvs[q] == TorusUv(opt, i, j)
      && d.normals[q] == dir
      && d.positions[q] == Add(center, Scale(opt.innerRadius, dir))
      && 0.0 <= d.uvs[q].x <= 1.0 && 0.0 <= d.uvs[q].y <= 1.0
  {
    var l, v := opt.divisionsLongitude, opt.divisionsLatitude + 1;
    EuclidUnique(q, v, i, j);
    assert q < (l + 1) * v by {
      MulLe(i, l, v);
    }
    GenerateAt(trig, opt, q);
    FractionWithin(i, l);
    FractionWithin(j, opt.divisionsLatitude);
  }

  /** Entry q of the vertex tables belongs to ring q / (lat + 1), at place q % (lat + 1). */
  lemma GenerateAt(trig: MeshGen.Trig, opt: Options, q: nat)
    requires opt.divisionsLongitude > 0 && opt.divisionsLatitude > 0
    requires q < (opt.divisionsLongitude + 1) * (opt.divisionsLatitude + 1)
    ensures var d := Generate(trig, opt);
      var v := opt.divisionsLatitude + 1;
      var (center, dir) := RingFrame(trig, opt, q / v, q % v);
      && d.uvs[q] == TorusUv(opt, q / v, q % v)
      && d.normals[q] == dir
      && d.positions[q] == Add(center, Scale(opt.innerRadius, dir))
  {
  }

  lemma FractionWithin(a: nat, b: nat)
    requires 0 < b && a <= b
    ensures 0.0 <= a as real / b as real <= 1.0
  {
  }

  /**
   * The quad between vertex p of ring i and ring i + 1 becomes the triangles
   * (si, si + V, si + 1) and (si + 1, si + V, si + V + 1), with si = i V + p and V = lat + 1.
   */
  lemma QuadTriangles(i: nat, lat: nat, p: nat, c: nat)
    requires p < lat && c < 6
    ensures var si, v := i * (lat + 1) + p, lat + 1;
      RingIndices(i, lat)[6 * p + c] == [si, si + v, si + 1, si + 1, si + v, si + v + 1][c]
  {
    var q := 6 * p + c;
    EuclidUnique(q, 6, p, c);
  }

  /** With sin^2 + cos^2 = 1 every normal is a unit vector. */
  ghost predicate Pythagorean(trig: MeshGen.Trig) {
    forall a: real :: trig.sin(a) * trig.sin(a) + trig.cos(a) * trig.cos(a) == 1.0
  }

  lemma UnitNormals(trig: MeshGen.Trig, opt: Options, i: int, j: int)
    requires opt.divisionsLongitude > 0 && opt.divisionsLatitude > 0 && Pythagorean(trig)
    ensures var dir := RingFrame(trig, opt, i, j).1; Dot(dir, dir) == 1.0
  {
    var phi := 2.0 * trig.pi * (i as real / opt.divisionsLongitude as real);
    var theta := 2.0 * trig.pi * (j as real / opt.divisionsLatitude as real);
    var sp, cp, st, ct := trig.sin(phi), trig.cos(phi), trig.sin(theta), trig.cos(theta);
    assert sp * sp + cp * cp == 1.0 && st * st + ct * ct == 1.0;
    assert (ct * sp) * (ct * sp) + (ct * cp) * (ct * cp) == (ct * ct) * (sp * sp + cp * cp);
  }
}
