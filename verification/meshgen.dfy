/**
 * The `meshgen` generators: a unit cylinder, a UV sphere and a torus written as OBJ
 * meshes (position, uv and normal tables plus triangular faces that index them).
 *
 * Vertex coordinates need sine and cosine, which are parameters (`Trig`); the model
 * promises nothing about them. The index structure of the faces, the table sizes and the
 * texture coordinates are modelled exactly. Where the generator would unbox a `null` or
 * read an empty list for too few divisions, the model returns a `Failure`.
 */
module MeshGen {
  import opened Wrappers
  import opened Geometry
  import opened Surfaces

  /** Sine, cosine and pi, left abstract. */
  datatype Trig = Trig(sin: real -> real, cos: real -> real, pi: real)

  /** Why a generator throws instead of returning a mesh. */
  datatype GenError =
    | NullEndpoint     // an `Integer` still `null` is unboxed
    | EmptyRing        // `get(0)` on an empty list

  /** `setVertex(0, ..); setVertex(1, ..); setVertex(2, ..)` on a face with uvs and normals. */
  function Face(p0: nat, t0: nat, n0: nat, p1: nat, t1: nat, n1: nat, p2: nat, t2: nat, n2: nat): ObjFace {
    ObjFace(Corners(p0, p1, p2), Some(Corners(t0, t1, t2)), Some(Corners(n0, n1, n2)))
  }

  /** Every face of the list is in range of the mesh's tables. */
  predicate AllInRange(mesh: ObjMesh, faces: seq<ObjFace>) {
    forall k :: 0 <= k < |faces| ==> FaceInRange(mesh, faces[k])
  }

  lemma AllInRangeJoin(mesh: ObjMesh, a: seq<ObjFace>, b: seq<ObjFace>)
    requires AllInRange(mesh, a) && AllInRange(mesh, b)
    ensures AllInRange(mesh, a + b)
  {
    forall k | 0 <= k < |a + b|
      ensures FaceInRange(mesh, (a + b)[k])
    {
      if k >= |a| {
        assert (a + b)[k] == b[k - |a|];
      }
    }
  }

  /** Java's `%` on non-negative operands, for a dividend below twice the divisor. */
  lemma ModOnce(a: int, n: int)
    requires 0 < n && 0 <= a < 2 * n
    ensures a % n == if a < n then a else a - n
  {
    if a >= n {
      assert a == 1 * n + (a - n);
    } else {
      assert a == 0 * n + a;
    }
  }

  // ================================================================= Cylinder

  /** The x and z of the k-th rim vertex, `-sin(k a)` and `-cos(k a)` with a = 2 pi / U. */
  function Rim(trig: Trig, u: nat, k: int): (real, real)
    requires u > 0
  {
    var angle := k as real * (2.0 * trig.pi / u as real);
    (-trig.sin(angle), -trig.cos(angle))
  }

  /**
   * Positions: for each rim vertex k its upper (2k) and lower (2k + 1) copies, then the
   * upper (2U) and lower (2U + 1) centroids.
   */
  function CylinderPositions(trig: Trig, u: nat): (ps: seq<V3>)
    requires u > 0
    ensures |ps| == 2 * u + 2
  {
    seq(2 * u, j requires 0 <= j < 2 * u =>
      var (x, z) := Rim(trig, u, j / 2);
      V3(x, if j % 2 == 0 then 1.0 else -1.0, z))
    + [V3(0.0, 1.0, 0.0), V3(0.0, -1.0, 0.0)]
  }

  /** Normals: one horizontal normal per rim vertex, then the two centroid normals. */
  function CylinderNormals(trig: Trig, u: nat): (ns: seq<V3>)
    requires u > 0
    ensures |ns| == u + 2
  {
    seq(u, k requires 0 <= k < u => var (x, z) := Rim(trig, u, k); V3(x, 0.0, z))
    + [V3(0.0, 1.0, 0.0), V3(0.0, -1.0, 0.0)]
  }

  /**
   * Texture coordinates: the side band (u = k/U, v = 0.5 on top, 0 below), its seam copies
   * at u = 1, the two lid centres, then each rim vertex's place on the top and bottom lids.
   */
  function CylinderUvs(trig: Trig, u: nat): (ts: seq<V2>)
    requires u > 0
    ensures |ts| == 4 * u + 4
  {
    seq(2 * u, j requires 0 <= j < 2 * u =>
      V2((j / 2) as real * (1.0 / u as real), if j % 2 == 0 then 0.5 else 0.0))
    + [V2(1.0, 0.5), V2(1.0, 0.0), V2(0.75, 0.75), V2(0.25, 0.75)]
    + seq(2 * u, j requires 0 <= j < 2 * u =>
      var angle := (j / 2) as real * (2.0 * trig.pi / u as real);
      if j % 2 == 0 then V2(-0.25 * trig.sin(angle) + 0.75, 0.25 * trig.cos(angle) + 0.75)
      else V2(-0.25 * trig.sin(angle) + 0.25, -0.25 * trig.cos(angle) + 0.75))
  }

  /** The two side triangles between rim vertices i and i + 1 (i < U - 1). */
  function CylinderSides(u: nat): (fs: seq<ObjFace>)
    requires u >= 2
    ensures |fs| == 2 * (u - 1)
  {
    seq(2 * (u - 1), k requires 0 <= k < 2 * (u - 1) =>
      var i := k / 2;
      if k % 2 == 0 then Face(2 * i, 2 * i, i, 2 * i + 1, 2 * i + 1, i, 2 * i + 2, 2 * i + 2, i + 1)
      else Face(2 * i + 2, 2 * i + 2, i + 1, 2 * i + 1, 2 * i + 1, i, 2 * i + 3, 2 * i + 3, i + 1))
  }

  /**
   * The two triangles closing the seam between the last rim vertex and the first; the
   * first rim vertex takes its u = 1 texture copies (2U, 2U + 1).
   */
  function CylinderSeam(u: nat): (fs: seq<ObjFace>)
    requires u >= 2
    ensures |fs| == 2
  {
    var upper := 2 * (u - 2) + 2;
    var lower := 2 * (u - 2) + 3;
    var normal := u - 1;
    [ Face(upper, upper, normal, lower, lower, normal, 0, upper + 2, 0),
      Face(lower, lower, normal, 1, lower + 2, 0, 0, upper + 2, 0) ]
  }

  /** Top lid: the upper centroid and two consecutive upper rim vertices. */
  function CylinderTop(u: nat): (fs: seq<ObjFace>)
    requires u >= 2
    ensures |fs| == u
  {
    var lid := 2 * u + 4;
    seq(u, i requires 0 <= i < u =>
      Face(2 * u, 2 * u + 2, u,
           (2 * i) % (2 * u), lid + (2 * i) % (2 * u), u,
           (2 * i + 2) % (2 * u), lid + (2 * i + 2) % (2 * u), u))
  }

  /** Bottom lid: two consecutive lower rim vertices, in reverse order, and the lower centroid. */
  function CylinderBottom(u: nat): (fs: seq<ObjFace>)
    requires u >= 2
    ensures |fs| == u
  {
    var lid := 2 * u + 4;
    seq(u, i requires 0 <= i < u =>
      Face((2 * i + 3) % (2 * u), lid + (2 * i + 3) % (2 * u), u + 1,
           (2 * i + 1) % (2 * u), lid + (2 * i + 1) % (2 * u), u + 1,
           2 * u + 1, 2 * u + 3, u + 1))
  }

  /**
   * `new Cylinder(U).generateMesh()`. With fewer than two divisions the side loop never
   * sets the seam endpoints and unboxing them throws.
   */
  function Cylinder(trig: Trig, u: int): (r: Result<ObjMesh, GenError>)
    ensures r.Success? <==> u >= 2
    ensures r.Failure? ==> r.error == NullEndpoint
    ensures r.Success? ==>
      |r.value.positions| == 2 * u + 2 && |r.value.normals| == u + 2
      && |r.value.uvs| == 4 * u + 4 && |r.value.faces| == 4 * u
  {
    if u < 2 then Failure(NullEndpoint)
    else
      Success(ObjMesh(CylinderPositions(trig, u), CylinderUvs(trig, u), CylinderNormals(trig, u),
                      CylinderSides(u) + CylinderSeam(u) + CylinderTop(u) + CylinderBottom(u)))
  }

  /** Every index of every cylinder face lies inside its table. */
  lemma CylinderInRange(trig: Trig, u: int)
    requires u >= 2
    ensures MeshInRange(Cylinder(trig, u).value)
  {
    CylinderFacesInRange(Cylinder(trig, u).value, u);
  }

  /** Tables of the cylinder's sizes hold every index its faces name. */
  lemma CylinderFacesInRange(mesh: ObjMesh, u: nat)
    requires u >= 2 && |mesh.positions| == 2 * u + 2 && |mesh.normals| == u + 2 && |mesh.uvs| == 4 * u + 4
    requires mesh.faces == CylinderSides(u) + CylinderSeam(u) + CylinderTop(u) + CylinderBottom(u)
    ensures MeshInRange(mesh)
  {
    var sides, seam, top, bottom := CylinderSides(u), CylinderSeam(u), CylinderTop(u), CylinderBottom(u);
    assert AllInRange(mesh, sides);
    assert AllInRange(mesh, seam);
    LidsInRange(mesh, u);
    AllInRangeJoin(mesh, sides, seam);
    AllInRangeJoin(mesh, sides + seam, top);
    AllInRangeJoin(mesh, sides + seam + top, bottom);
  }

  lemma LidsInRange(mesh: ObjMesh, u: nat)
    requires u >= 2 && |mesh.positions| == 2 * u + 2 && |mesh.normals| == u + 2 && |mesh.uvs| == 4 * u + 4
    ensures AllInRange(mesh, CylinderTop(u)) && AllInRange(mesh, CylinderBottom(u))
  {
    var top, bottom := CylinderTop(u), CylinderBottom(u);
    forall i | 0 <= i < u
      ensures FaceInRange(mesh, top[i]) && FaceInRange(mesh, bottom[i])
    {
      ModOnce(2 * i, 2 * u);
      ModOnce(2 * i + 2, 2 * u);
      ModOnce(2 * i + 1, 2 * u);
      ModOnce(2 * i + 3, 2 * u);
    }
  }

  /**
   * The lids use only the centroid normals. Top face i fans out from the upper centroid
   * (2U) over upper rim vertices i and i + 1 (even positions 2i and 2i + 2, wrapping to 0)
   * with normal U; bottom face i joins lower rim vertices i + 1 and i (odd positions) to the
   * lower centroid (2U + 1) with normal U + 1.
   */
  lemma CylinderCaps(trig: Trig, u: int, i: int)
    requires u >= 2 && 0 <= i < u
    ensures var top := Cylinder(trig, u).value.faces[2 * u + i];
      top.normal == Some(Corners(u, u, u))
      && top.pos == Corners(2 * u, 2 * i, if i < u - 1 then 2 * i + 2 else 0)
    ensures var bottom := Cylinder(trig, u).value.faces[3 * u + i];
      bottom.normal == Some(Corners(u + 1, u + 1, u + 1))
      && bottom.pos == Corners(if i < u - 1 then 2 * i + 3 else 1, 2 * i + 1, 2 * u + 1)
  {
    var fs := Cylinder(trig, u).value.faces;
    var front := CylinderSides(u) + CylinderSeam(u);
    assert fs == front + CylinderTop(u) + CylinderBottom(u);
    assert fs[2 * u + i] == CylinderTop(u)[i];
    assert fs[3 * u + i] == CylinderBottom(u)[i];
    ModOnce(2 * i, 2 * u);
    ModOnce(2 * i + 2, 2 * u);
    ModOnce(2 * i + 1, 2 * u);
    ModOnce(2 * i + 3, 2 * u);
  }

  /**
   * The side band is shaded smoothly: at every corner of the 2U side faces the normal is
   * the one of the corner's rim vertex (position / 2), and the texture coordinate is the
   * corner's own, except that the first rim vertex uses its u = 1 copy on the seam.
   */
  lemma CylinderSideShading(trig: Trig, u: int)
    requires u >= 2
    ensures var fs := Cylinder(trig, u).value.faces;
      forall k, c :: 0 <= k < 2 * u && 0 <= c < 3 ==>
        fs[k].normal.value.At(c) == fs[k].pos.At(c) / 2
        && (fs[k].uv.value.At(c) == fs[k].pos.At(c)
            || (k >= 2 * u - 2 && fs[k].pos.At(c) < 2 && fs[k].uv.value.At(c) == fs[k].pos.At(c) + 2 * u))
  {
    var fs := Cylinder(trig, u).value.faces;
    var sides, seam := CylinderSides(u), CylinderSeam(u);
    forall k, c | 0 <= k < 2 * u && 0 <= c < 3
      ensures fs[k].normal.value.At(c) == fs[k].pos.At(c) / 2
        && (fs[k].uv.value.At(c) == fs[k].pos.At(c)
            || (k >= 2 * u - 2 && fs[k].pos.At(c) < 2 && fs[k].uv.value.At(c) == fs[k].pos.At(c) + 2 * u))
    {
      if k < 2 * u - 2 {
        assert fs[k] == sides[k];
      } else {
        assert fs[k] == seam[k - (2 * u - 2)];
      }
    }
  }

  /**
   * Each rim vertex's two copies differ only in height (+1 above, -1 below), and its normal
   * is the horizontal part of its position.
   */
  lemma CylinderRimGeometry(trig: Trig, u: int, k: int)
    requires u >= 2 && 0 <= k < u
    ensures var m := Cylinder(trig, u).value;
      var up, down := m.positions[2 * k], m.positions[2 * k + 1];
      up.y == 1.0 && down.y == -1.0 && up.x == down.x && up.z == down.z
      && m.normals[k] == V3(up.x, 0.0, up.z)
  {
  }

  /** Multiplying both sides of an inequality by the same non-negative number. */
  lemma MulLe(a: int, b: int, c: int)
    requires a <= b && 0 <= c
    ensures a * c <= b * c
  {
    assert b * c - a * c == (b - a) * c;
  }

  // ================================================================= Sphere

  /** `sphericalToCartesian(1, h, v)`: (-sin v sin h, cos v, -sin v cos h). */
  function SpherePoint(trig: Trig, h: real, v: real): V3 {
    V3(-trig.sin(v) * trig.sin(h), trig.cos(v), -trig.sin(v) * trig.cos(h))
  }

  /**
   * Positions: the north pole, then ring r = 1 .. m - 1 with its n vertices j at angles
   * (2 pi j / n, pi r / m), then the south pole.
   */
  function SpherePositions(trig: Trig, n: nat, m: nat): (ps: seq<V3>)
    requires n >= 1 && m >= 1
    ensures |ps| == (m - 1) * n + 2
  {
    [V3(0.0, 1.0, 0.0)]
    + seq((m - 1) * n, q requires 0 <= q < (m - 1) * n =>
        SpherePoint(trig, (2.0 * trig.pi / n as real) * (q % n) as real,
                          (trig.pi / m as real) * (q / n + 1) as real))
    + [V3(0.0, -1.0, 0.0)]
  }

  /**
   * Texture coordinates: the north row (j/n, 1), then for each ring the row
   * (j/n, 1 - r/m) with a u = 1 seam copy, then the south row (j/n, 0) for j >= 1 and
   * (1, 0).
   */
  function SphereUvs(n: nat, m: nat): (ts: seq<V2>)
    requires n >= 1 && m >= 1
    ensures |ts| == 2 * n + (m - 1) * (n + 1)
  {
    seq(n, j requires 0 <= j < n => V2((1.0 / n as real) * j as real, 1.0))
    + seq((m - 1) * (n + 1), q requires 0 <= q < (m - 1) * (n + 1) =>
        var j, r := q % (n + 1), q / (n + 1) + 1;
        var v := 1.0 - (1.0 / m as real) * r as real;
        if j < n then V2((1.0 / n as real) * j as real, v) else V2(1.0, v))
    + seq(n - 1, j requires 0 <= j < n - 1 => V2((1.0 / n as real) * (j + 1) as real, 0.0))
    + [V2(1.0, 0.0)]
  }

  /** The north cap: the pole and two consecutive vertices of the first ring. */
  function NorthCap(n: nat): (fs: seq<ObjFace>)
    requires n >= 1
    ensures |fs| == n
  {
    seq(n - 1, t requires 0 <= t < n - 1 =>
      var l := t + 1;
      Face(0, l - 1, 0, l, n + l - 1, l, l + 1, n + l, l + 1))
    + [Face(0, n - 1, 0, n, 2 * n - 1, n, 1, 2 * n, 1)]
  }

  /**
   * The band between ring L and ring L + 1: for each partition p a lower and an upper
   * triangle, joining vertex p of both rings to vertex p + 1 (wrapping to 0); the texture
   * row of each ring has one more entry, the seam.
   */
  function SphereBand(n: nat, l: nat): (fs: seq<ObjFace>)
    requires n >= 1 && l >= 1
    ensures |fs| == 2 * n
  {
    seq(2 * n, k requires 0 <= k < 2 * n =>
      var p := k / 2;
      var next := (p + 1) % n;
      var up, upNext := p + 1 + (l - 1) * n, next + 1 + (l - 1) * n;
      var lo, loNext := p + 1 + l * n, next + 1 + l * n;
      var upUv, loUv := n + (l - 1) * (n + 1) + p, n + l * (n + 1) + p;
      if k % 2 == 0 then Face(up, upUv, up, lo, loUv, lo, loNext, loUv + 1, loNext)
      else Face(up, upUv, up, loNext, loUv + 1, loNext, upNext, upUv + 1, upNext))
  }

  /** The bands from ring L down to ring m - 1. */
  function SphereBands(n: nat, m: nat, l: nat): (fs: seq<ObjFace>)
    requires n >= 1 && 1 <= l <= m - 1
    ensures |fs| == 2 * n * (m - 1 - l)
    decreases m - l
  {
    if l >= m - 1 then []
    else
      var rest := SphereBands(n, m, l + 1);
      assert 2 * n * (m - 1 - l) == 2 * n + 2 * n * (m - 1 - (l + 1));
      SphereBand(n, l) + rest
  }

  /** The products of naturals that index the sphere's tables are natural. */
  lemma NatProducts(a: nat, b: nat)
    ensures a * b >= 0 && a * (b + 1) >= 0 && (a + 1) * b >= 0 && (a + 1) * (b + 1) >= 0
  {
  }

  /**
   * The south cap: two consecutive vertices of the last ring (m - 1) and the pole, the
   * last face wrapping through the ring's seam texture coordinate.
   */
  function SouthCap(n: nat, m: nat): (fs: seq<ObjFace>)
    requires n >= 1 && m >= 3
    ensures |fs| == n
  {
    NatProducts(m - 2, n);
    var ring: nat := (m - 2) * n;      // lowerVertices.get(p) == ring + p + 1
    var rowUv: nat := n + (m - 2) * (n + 1);
    var poleUv: nat := n + (m - 1) * (n + 1);
    var south: nat := (m - 1) * n + 1;
    seq(n - 1, p requires 0 <= p < n - 1 =>
      Face(ring + p + 2, rowUv + p + 1, ring + p + 2,
           ring + p + 1, rowUv + p, ring + p + 1,
           south, poleUv + p, south))
    + [Face(ring + 1, rowUv + n, ring + 1, ring + n, rowUv + n - 1, ring + n, south, poleUv + n - 1, south)]
  }

  /**
   * `new Sphere(n, m).generateMesh()`. With fewer than three strips, or no partitions, the
   * south cap reads `get(0)` of an empty list of ring vertices and throws.
   */
  function Sphere(trig: Trig, n: int, m: int): (r: Result<ObjMesh, GenError>)
    ensures r.Success? <==> n >= 1 && m >= 3
    ensures r.Failure? ==> r.error == EmptyRing
    ensures r.Success? ==>
      |r.value.positions| == |r.value.normals| == (m - 1) * n + 2
      && |r.value.uvs| == 2 * n + (m - 1) * (n + 1)
      && |r.value.faces| == 2 * n * (m - 1)
  {
    if n < 1 || m < 3 then Failure(EmptyRing)
    else
      var ps := SpherePositions(trig, n, m);
      assert n + 2 * n * (m - 2) + n == 2 * n * (m - 1);
      Success(ObjMesh(ps, SphereUvs(n, m), ps, NorthCap(n) + SphereBands(n, m, 1) + SouthCap(n, m)))
  }

  /** The sphere's vertex normals are its positions (it has radius 1), poles included. */
  lemma SpherePoles(trig: Trig, n: int, m: int)
    requires n >= 1 && m >= 3
    ensures var mesh := Sphere(trig, n, m).value;
      mesh.normals == mesh.positions
      && mesh.positions[0] == V3(0.0, 1.0, 0.0)
      && mesh.positions[(m - 1) * n + 1] == V3(0.0, -1.0, 0.0)
  {
  }

  /** The mesh's table sizes, as a sphere generator of n partitions and m strips fixes them. */
  predicate SphereSized(mesh: ObjMesh, n: nat, m: nat) {
    |mesh.positions| == |mesh.normals| == (m - 1) * n + 2
    && |mesh.uvs| == 2 * n + (m - 1) * (n + 1)
  }

  /** Faces that fit the tables and whose normal indices are their position indices. */
  predicate FacesFit(mesh: ObjMesh, fs: seq<ObjFace>) {
    AllInRange(mesh, fs) && forall k :: 0 <= k < |fs| ==> NormalsFollowPositions(fs[k])
  }

  lemma FacesFitJoin(mesh: ObjMesh, a: seq<ObjFace>, b: seq<ObjFace>)
    requires FacesFit(mesh, a) && FacesFit(mesh, b)
    ensures FacesFit(mesh, a + b)
  {
    AllInRangeJoin(mesh, a, b);
    forall k | 0 <= k < |a + b|
      ensures NormalsFollowPositions((a + b)[k])
    {
      if k >= |a| {
        assert (a + b)[k] == b[k - |a|];
      }
    }
  }

  lemma NorthCapFits(mesh: ObjMesh, n: nat, m: nat)
    requires n >= 1 && m >= 3 && SphereSized(mesh, n, m)
    ensures FacesFit(mesh, NorthCap(n))
  {
    MulLe(2, m - 1, n);
    MulLe(2, m - 1, n + 1);
    assert |mesh.positions| >= 2 * n + 2 && |mesh.uvs| >= 4 * n + 2;
    var fs := NorthCap(n);
    forall k | 0 <= k < n
      ensures FaceInRange(mesh, fs[k]) && NormalsFollowPositions(fs[k])
    {
      if k < n - 1 {
        assert fs[k] == Face(0, k, 0, k + 1, n + k, k + 1, k + 2, n + k + 1, k + 2);
      } else {
        assert fs[k] == Face(0, n - 1, 0, n, 2 * n - 1, n, 1, 2 * n, 1);
      }
    }
  }

  lemma SphereBandFits(mesh: ObjMesh, n: nat, m: nat, l: nat)
    requires n >= 1 && 1 <= l <= m - 2 && SphereSized(mesh, n, m)
    ensures FacesFit(mesh, SphereBand(n, l))
  {
    var ring, row := l * n, l * (n + 1);
    MulLe(l, m - 2, n);
    MulLe(l, m - 2, n + 1);
    assert (l - 1) * n + n == ring && (l - 1) * (n + 1) + n + 1 == row;
    assert (m - 2) * n + n + 2 == |mesh.positions|;
    assert 2 * n + (m - 2) * (n + 1) + n + 1 == |mesh.uvs|;
    forall k | 0 <= k < 2 * n
      ensures FaceInRange(mesh, SphereBand(n, l)[k]) && NormalsFollowPositions(SphereBand(n, l)[k])
    {
      SphereBandFaceFits(mesh, n, l, ring, row, k);
    }
  }

  /** One face of a band, with the ring offsets named so that the bounds stay linear. */
  lemma SphereBandFaceFits(mesh: ObjMesh, n: nat, l: nat, ring: nat, row: nat, k: nat)
    requires n >= 1 && l >= 1 && k < 2 * n
    requires ring == l * n && row == l * (n + 1)
    requires (l - 1) * n == ring - n && (l - 1) * (n + 1) == row - n - 1
    requires ring + n + 2 <= |mesh.positions| && n + row + n + 1 < |mesh.uvs|
    requires |mesh.normals| == |mesh.positions|
    ensures FaceInRange(mesh, SphereBand(n, l)[k]) && NormalsFollowPositions(SphereBand(n, l)[k])
  {
    var p := k / 2;
    ModOnce(p + 1, n);
    var next := (p + 1) % n;
    var up, upNext := p + 1 + (ring - n), next + 1 + (ring - n);
    var lo, loNext := p + 1 + ring, next + 1 + ring;
    var upUv, loUv := n + (row - n - 1) + p, n + row + p;
    if k % 2 == 0 {
      assert SphereBand(n, l)[k] == Face(up, upUv, up, lo, loUv, lo, loNext, loUv + 1, loNext);
    } else {
      assert SphereBand(n, l)[k] == Face(up, upUv, up, loNext, loUv + 1, loNext, upNext, upUv + 1, upNext);
    }
  }

  lemma {:induction false} SphereBandsFit(mesh: ObjMesh, n: nat, m: nat, l: nat)
    requires n >= 1 && 1 <= l <= m - 1 && SphereSized(mesh, n, m)
    ensures FacesFit(mesh, SphereBands(n, m, l))
    decreases m - l
  {
    if l < m - 1 {
      SphereBandFits(mesh, n, m, l);
      SphereBandsFit(mesh, n, m, l + 1);
      FacesFitJoin(mesh, SphereBand(n, l), SphereBands(n, m, l + 1));
    }
  }

  lemma SouthCapFits(mesh: ObjMesh, n: nat, m: nat)
    requires n >= 1 && m >= 3 && SphereSized(mesh, n, m)
    ensures FacesFit(mesh, SouthCap(n, m))
  {
    var ring, rowUv, poleUv := (m - 2) * n, n + (m - 2) * (n + 1), n + (m - 1) * (n + 1);
    var south := (m - 1) * n + 1;
    assert ring + n + 1 == south && south + 1 == |mesh.positions|;
    assert rowUv + n + 1 == poleUv && poleUv + n == |mesh.uvs|;
    var fs := SouthCap(n, m);
    forall k | 0 <= k < n
      ensures FaceInRange(mesh, fs[k]) && NormalsFollowPositions(fs[k])
    {
      if k < n - 1 {
        assert fs[k] == Face(ring + k + 2, rowUv + k + 1, ring + k + 2, ring + k + 1, rowUv + k, ring + k + 1,
                             south, poleUv + k, south);
      } else {
        assert fs[k] == Face(ring + 1, rowUv + n, ring + 1, ring + n, rowUv + n - 1, ring + n,
                             south, poleUv + n - 1, south);
      }
    }
  }

  /**
   * Every sphere face indexes inside the tables, and at every corner its normal index is
   * its position index.
   */
  lemma SphereInRange(trig: Trig, n: int, m: int)
    requires n >= 1 && m >= 3
    ensures MeshInRange(Sphere(trig, n, m).value)
    ensures forall k :: 0 <= k < |Sphere(trig, n, m).value.faces| ==>
      NormalsFollowPositions(Sphere(trig, n, m).value.faces[k])
  {
    var mesh := Sphere(trig, n, m).value;
    NorthCapFits(mesh, n, m);
    SphereBandsFit(mesh, n, m, 1);
    SouthCapFits(mesh, n, m);
    FacesFitJoin(mesh, NorthCap(n), SphereBands(n, m, 1));
    FacesFitJoin(mesh, NorthCap(n) + SphereBands(n, m, 1), SouthCap(n, m));
  }

  /** Each north-cap face has the north pole (position 0) as its first corner. */
  lemma NorthCapAtPole(n: nat, i: nat)
    requires n >= 1 && i < n
    ensures NorthCap(n)[i].pos.c0 == 0
  {
    var fs := NorthCap(n);
    if i < n - 1 {
      assert fs[i] == Face(0, i, 0, i + 1, n + i, i + 1, i + 2, n + i + 1, i + 2);
    } else {
      assert fs[i] == Face(0, n - 1, 0, n, 2 * n - 1, n, 1, 2 * n, 1);
    }
  }

  /** Each south-cap face has the south pole ((m - 1) n + 1) as its third corner. */
  lemma SouthCapAtPole(n: nat, m: nat, i: nat)
    requires n >= 1 && m >= 3 && i < n
    ensures SouthCap(n, m)[i].pos.c2 == (m - 1) * n + 1
  {
    var fs := SouthCap(n, m);
    var ring, rowUv, poleUv := (m - 2) * n, n + (m - 2) * (n + 1), n + (m - 1) * (n + 1);
    var south := (m - 1) * n + 1;
    if i < n - 1 {
      assert fs[i] == Face(ring + i + 2, rowUv + i + 1, ring + i + 2, ring + i + 1, rowUv + i, ring + i + 1,
                           south, poleUv + i, south);
    } else {
      assert fs[i] == Face(ring + 1, rowUv + n, ring + 1, ring + n, rowUv + n - 1, ring + n,
                           south, poleUv + n - 1, south);
    }
  }

  /**
   * The sphere's faces are the north cap, the bands and the south cap in that order: the
   * first n faces fan from the north pole and the last n from the south pole.
   */
  lemma SphereCaps(trig: Trig, n: int, m: int, i: int)
    requires n >= 1 && m >= 3 && 0 <= i < n
    ensures Sphere(trig, n, m).value.faces[i].pos.c0 == 0
    ensures Sphere(trig, n, m).value.faces[2 * n * (m - 1) - n + i].pos.c2 == (m - 1) * n + 1
  {
    var fs := Sphere(trig, n, m).value.faces;
    var north, bands, south := NorthCap(n), SphereBands(n, m, 1), SouthCap(n, m);
    var last := 2 * n * (m - 1) - n;
    assert fs == north + bands + south;
    assert |north + bands| == last;
    assert fs[i] == north[i];
    assert fs[last + i] == south[i];
    NorthCapAtPole(n, i);
    SouthCapAtPole(n, m, i);
  }

  // ================================================================= Torus

  /** The constructor's radii: a missing minor radius becomes 0.25; the major radius is 1. */
  function TorusRadii(minor: Option<real>): (r: (real, real))
    ensures minor.None? ==> r == (0.25, 1.0)
    ensures minor.Some? ==> r == (minor.value, 1.0)
  {
    (minor.GetOr(0.25), 1.0)
  }

  /**
   * Positions and normals: slice t (angle pi/2 - 2 pi t / n around the axis) and face p
   * (angle pi - 2 pi p / m around the tube) give vertex t m + p.
   */
  function TorusVertices(trig: Trig, minor: real, major: real, n: nat, m: nat): (r: (seq<V3>, seq<V3>))
    requires n >= 1 && m >= 1
    ensures |r.0| == |r.1| == n * m
  {
    var theta := (q: int) => trig.pi / 2.0 - (q / m) as real * (2.0 * trig.pi / n as real);
    var phi := (q: int) => trig.pi - (q % m) as real * (2.0 * trig.pi / m as real);
    (seq(n * m, q requires 0 <= q < n * m =>
       var ring := major + minor * trig.cos(phi(q));
       V3(-ring * trig.cos(theta(q)), -minor * trig.sin(phi(q)), -ring * trig.sin(theta(q)))),
     seq(n * m, q requires 0 <= q < n * m =>
       V3(-trig.cos(phi(q)) * trig.cos(theta(q)), -trig.sin(phi(q)), -trig.cos(phi(q)) * trig.sin(theta(q)))))
  }

  /** Texture coordinates: column x = 0 .. n holds (x/n, y/m) for y < m, then (x/n, 1). */
  function TorusUvs(n: nat, m: nat): (ts: seq<V2>)
    requires n >= 1 && m >= 1
    ensures |ts| == (n + 1) * (m + 1)
  {
    seq((n + 1) * (m + 1), q requires 0 <= q < (n + 1) * (m + 1) =>
      var x, y := q / (m + 1), q % (m + 1);
      V2((1.0 / n as real) * x as real, if y < m then (1.0 / m as real) * y as real else 1.0))
  }

  /**
   * The tube segment between slice c and slice c + 1 (c < n - 1): two triangles per face of
   * the tube, the last pair closing the tube through texture row m.
   */
  function TorusBand(n: nat, m: nat, c: nat): (fs: seq<ObjFace>)
    requires m >= 2
    ensures |fs| == 2 * m
  {
    var lv, rv := c * m, (c + 1) * m;
    var lt, rt := c * (m + 1), (c + 1) * (m + 1);
    var pl, pr := lt + m - 1, rt + m - 1;   // the offsets the inner loop leaves behind
    seq(2 * (m - 1), k requires 0 <= k < 2 * (m - 1) =>
      var f := k / 2;
      if k % 2 == 0 then Face(lv + f + 1, lt + f + 1, lv + f + 1, lv + f, lt + f, lv + f, rv + f, rt + f, rv + f)
      else Face(lv + f + 1, lt + f + 1, lv + f + 1, rv + f, rt + f, rv + f, rv + f + 1, rt + f + 1, rv + f + 1))
    + [ Face(lv, pl + 1, lv, lv + m - 1, pl, lv + m - 1, rv + m - 1, pr, rv + m - 1),
        Face(lv, pl + 1, lv, rv + m - 1, pr, rv + m - 1, rv, pr + 1, rv) ]
  }

  /** The segments from slice c up to slice n - 2. */
  function TorusBands(n: nat, m: nat, c: nat): (fs: seq<ObjFace>)
    requires m >= 2 && c <= n - 1
    ensures |fs| == 2 * m * (n - 1 - c)
    decreases n - c
  {
    if c >= n - 1 then []
    else
      var rest := TorusBands(n, m, c + 1);
      assert 2 * m * (n - 1 - c) == 2 * m + 2 * m * (n - 1 - (c + 1));
      TorusBand(n, m, c) + rest
  }

  /**
   * The segment between the last slice and slice 0, which wraps around to vertices
   * 0 .. m - 1 and to texture column n.
   */
  function TorusClosing(n: nat, m: nat): (fs: seq<ObjFace>)
    requires n >= 2 && m >= 2
    ensures |fs| == 2 * m
  {
    var last := (n - 1) * m;
    var pl, pr := (n - 2) * (m + 1) + m, (n - 1) * (m + 1) + m;
    seq(2 * (m - 1), k requires 0 <= k < 2 * (m - 1) =>
      var f := k / 2;
      if k % 2 == 0 then Face(last + f + 1, f + pl + 2, last + f + 1, last + f, f + pl + 1, last + f, f, f + pr + 1, f)
      else Face(last + f + 1, f + pl + 2, last + f + 1, f, f + pr + 1, f, f + 1, f + pr + 2, f + 1))
    + [ Face(last, pl + m + 1, last, last + m - 1, pl + m, last + m - 1, m - 1, pr + m, m - 1),
        Face(last, pl + m + 1, last, m - 1, pr + m, m - 1, 0, pr + m + 1, 0) ]
  }

  /**
   * `new Torus(minorRadius, n, m).generateMesh()`. With fewer than two slices or faces the
   * face loops never set the previous texture offsets, and unboxing them throws.
   */
  function Torus(trig: Trig, minorRadius: Option<real>, n: int, m: int): (r: Result<ObjMesh, GenError>)
    ensures r.Success? <==> n >= 2 && m >= 2
    ensures r.Failure? ==> r.error == NullEndpoint
    ensures r.Success? ==>
      |r.value.positions| == |r.value.normals| == n * m
      && |r.value.uvs| == (n + 1) * (m + 1)
      && |r.value.faces| == 2 * n * m
  {
    if n < 2 || m < 2 then Failure(NullEndpoint)
    else
      var (minor, major) := TorusRadii(minorRadius);
      var (ps, ns) := TorusVertices(trig, minor, major, n, m);
      TorusCounts(n, m);
      Success(ObjMesh(ps, TorusUvs(n, m), ns, TorusBands(n, m, 0) + TorusClosing(n, m)))
  }

  /** The torus's table and face counts, in the forms its contract states them. */
  lemma TorusCounts(n: nat, m: nat)
    requires n >= 1
    ensures 2 * m * (n - 1 - 0) + 2 * m == 2 * n * m
    ensures n * m >= 0 && (n + 1) * (m + 1) >= 0
  {
  }

  /** The mesh's table sizes, as a torus of n slices and m tube faces fixes them. */
  predicate TorusSized(mesh: ObjMesh, n: nat, m: nat) {
    |mesh.positions| == |mesh.normals| == n * m && |mesh.uvs| == (n + 1) * (m + 1)
  }

  /** One face of an inner segment, with the slice offsets named so that the bounds stay linear. */
  lemma TorusBandFaceFits(mesh: ObjMesh, n: nat, m: nat, c: nat, lv: nat, lt: nat, k: nat)
    requires m >= 2 && k < 2 * m
    requires lv == c * m && (c + 1) * m == lv + m && lv + 2 * m <= |mesh.positions|
    requires lt == c * (m + 1) && (c + 1) * (m + 1) == lt + m + 1 && lt + 2 * m + 2 <= |mesh.uvs|
    requires |mesh.normals| == |mesh.positions|
    ensures FaceInRange(mesh, TorusBand(n, m, c)[k]) && NormalsFollowPositions(TorusBand(n, m, c)[k])
  {
    var fs := TorusBand(n, m, c);
    var rv, rt := lv + m, lt + m + 1;
    var pl, pr := lt + m - 1, rt + m - 1;
    if k < 2 * (m - 1) {
      var f := k / 2;
      if k % 2 == 0 {
        assert fs[k] == Face(lv + f + 1, lt + f + 1, lv + f + 1, lv + f, lt + f, lv + f, rv + f, rt + f, rv + f);
      } else {
        assert fs[k] == Face(lv + f + 1, lt + f + 1, lv + f + 1, rv + f, rt + f, rv + f, rv + f + 1, rt + f + 1, rv + f + 1);
      }
    } else if k == 2 * (m - 1) {
      assert fs[k] == Face(lv, pl + 1, lv, lv + m - 1, pl, lv + m - 1, rv + m - 1, pr, rv + m - 1);
    } else {
      assert fs[k] == Face(lv, pl + 1, lv, rv + m - 1, pr, rv + m - 1, rv, pr + 1, rv);
    }
  }

  lemma TorusBandFits(mesh: ObjMesh, n: nat, m: nat, c: nat)
    requires m >= 2 && c < n - 1 && TorusSized(mesh, n, m)
    ensures FacesFit(mesh, TorusBand(n, m, c))
  {
    MulLe(c + 2, n, m);
    MulLe(c + 2, n, m + 1);
    assert (c + 2) * m == c * m + 2 * m && (c + 1) * m == c * m + m;
    assert (c + 2) * (m + 1) == c * (m + 1) + 2 * m + 2 && (c + 1) * (m + 1) == c * (m + 1) + m + 1;
    assert (n + 1) * (m + 1) == n * (m + 1) + m + 1;
    forall k | 0 <= k < 2 * m
      ensures FaceInRange(mesh, TorusBand(n, m, c)[k]) && NormalsFollowPositions(TorusBand(n, m, c)[k])
    {
      TorusBandFaceFits(mesh, n, m, c, c * m, c * (m + 1), k);
    }
  }

  lemma {:induction false} TorusBandsFit(mesh: ObjMesh, n: nat, m: nat, c: nat)
    requires m >= 2 && c <= n - 1 && TorusSized(mesh, n, m)
    ensures FacesFit(mesh, TorusBands(n, m, c))
    decreases n - c
  {
    if c < n - 1 {
      TorusBandFits(mesh, n, m, c);
      TorusBandsFit(mesh, n, m, c + 1);
      FacesFitJoin(mesh, TorusBand(n, m, c), TorusBands(n, m, c + 1));
    }
  }

  /**
   * One face of the closing segment: it fits the tables, and each corner lies on the last
   * slice or on slice 0, with at least one corner on slice 0.
   */
  lemma TorusClosingFaceFits(mesh: ObjMesh, n: nat, m: nat, last: nat, pl: nat, pr: nat, k: nat)
    requires n >= 2 && m >= 2 && k < 2 * m
    requires last == (n - 1) * m && last + m == |mesh.positions| == |mesh.normals|
    requires pl == (n - 2) * (m + 1) + m && pr == (n - 1) * (m + 1) + m && pr + m + 2 == |mesh.uvs|
    requires pl + m + 1 == pr
    ensures var f := TorusClosing(n, m)[k];
      FaceInRange(mesh, f) && NormalsFollowPositions(f)
      && (forall c :: 0 <= c < 3 ==> f.pos.At(c) < m || last <= f.pos.At(c))
      && (f.pos.c0 < m || f.pos.c1 < m || f.pos.c2 < m)
  {
    var fs := TorusClosing(n, m);
    if k < 2 * (m - 1) {
      var f := k / 2;
      if k % 2 == 0 {
        assert fs[k] == Face(last + f + 1, f + pl + 2, last + f + 1, last + f, f + pl + 1, last + f, f, f + pr + 1, f);
      } else {
        assert fs[k] == Face(last + f + 1, f + pl + 2, last + f + 1, f, f + pr + 1, f, f + 1, f + pr + 2, f + 1);
      }
    } else if k == 2 * (m - 1) {
      assert fs[k] == Face(last, pl + m + 1, last, last + m - 1, pl + m, last + m - 1, m - 1, pr + m, m - 1);
    } else {
      assert fs[k] == Face(last, pl + m + 1, last, m - 1, pr + m, m - 1, 0, pr + m + 1, 0);
    }
  }

  lemma TorusClosingFits(mesh: ObjMesh, n: nat, m: nat)
    requires n >= 2 && m >= 2 && TorusSized(mesh, n, m)
    ensures FacesFit(mesh, TorusClosing(n, m))
    ensures forall k, c :: 0 <= k < 2 * m && 0 <= c < 3 ==>
      TorusClosing(n, m)[k].pos.At(c) < m || (n - 1) * m <= TorusClosing(n, m)[k].pos.At(c)
  {
    var last := (n - 1) * m;
    var pl, pr := (n - 2) * (m + 1) + m, (n - 1) * (m + 1) + m;
    assert last + m == n * m;
    assert (n - 1) * (m + 1) + m + 1 == n * (m + 1) && n * (m + 1) + m + 1 == (n + 1) * (m + 1);
    assert (n - 2) * (m + 1) + m + 1 == (n - 1) * (m + 1);
    forall k | 0 <= k < 2 * m
      ensures var f := TorusClosing(n, m)[k];
        FaceInRange(mesh, f) && NormalsFollowPositions(f)
        && (forall c :: 0 <= c < 3 ==> f.pos.At(c) < m || last <= f.pos.At(c))
    {
      TorusClosingFaceFits(mesh, n, m, last, pl, pr, k);
    }
  }

  /**
   * Every torus face indexes inside the tables and its normal indices are its position
   * indices. The last 2m faces close the ring: each corner is on the last slice
   * ((n - 1) m ..) or wraps around to slice 0 (0 .. m - 1).
   */
  lemma TorusInRange(trig: Trig, minorRadius: Option<real>, n: int, m: int)
    requires n >= 2 && m >= 2
    ensures var mesh := Torus(trig, minorRadius, n, m).value;
      MeshInRange(mesh) && forall k :: 0 <= k < |mesh.faces| ==> NormalsFollowPositions(mesh.faces[k])
    ensures var fs := Torus(trig, minorRadius, n, m).value.faces;
      forall k, c :: 2 * m * (n - 1) <= k < 2 * n * m && 0 <= c < 3 ==>
        fs[k].pos.At(c) < m || (n - 1) * m <= fs[k].pos.At(c)
  {
    var mesh := Torus(trig, minorRadius, n, m).value;
    var bands, closing := TorusBands(n, m, 0), TorusClosing(n, m);
    assert mesh.faces == bands + closing;
    TorusBandsFit(mesh, n, m, 0);
    TorusClosingFits(mesh, n, m);
    FacesFitJoin(mesh, bands, closing);
    forall k, c | 2 * m * (n - 1) <= k < 2 * n * m && 0 <= c < 3
      ensures mesh.faces[k].pos.At(c) < m || (n - 1) * m <= mesh.faces[k].pos.At(c)
    {
      assert mesh.faces[k] == closing[k - 2 * m * (n - 1)];
    }
  }
}
