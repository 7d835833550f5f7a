/**
 * The scene's surfaces (`ray2.surface`): spheres, cylinders, boxes, triangle meshes and
 * the groups that place them, with the transformation each one carries and the flattening
 * `appendRenderableSurfaces` performs before the BVH is built.
 *
 * A surface's matrices are values here: `setTransformation` returns the surface with its
 * new triple instead of assigning fields. Matrix inversion is a parameter `invert`, so the
 * model assumes nothing about how `Matrix4d.invert` computes.
 */
module Surfaces {
  import opened Wrappers
  import opened Geometry
  import opened Shaders

  /** `tMat`, `tMatInv` and `tMatTInv`: the transform, its inverse, and its inverse transpose. */
  datatype Xform = Xform(m: Affine, inv: Affine, tinv: Affine)

  /** The triple every surface starts from before its group places it. */
  function NoXform(): Xform {
    Xform(Identity(), Identity(), Identity())
  }

  /** The three position (or uv, or normal) indices of a triangular `OBJFace`. */
  datatype Corners = Corners(c0: nat, c1: nat, c2: nat) {
    function At(k: nat): nat
      requires k < 3
    {
      if k == 0 then c0 else if k == 1 then c1 else c2
    }
  }

  /** An `OBJFace`: position indices, and uv and normal indices when the face has them. */
  datatype ObjFace = ObjFace(pos: Corners, uv: Option<Corners>, normal: Option<Corners>)

  /** An `OBJMesh`: the vertex tables and the faces that index them. */
  datatype ObjMesh = ObjMesh(positions: seq<V3>, uvs: seq<V2>, normals: seq<V3>, faces: seq<ObjFace>)

  /** Every index of the face is inside the table it refers to. */
  predicate FaceInRange(mesh: ObjMesh, f: ObjFace) {
    f.pos.c0 < |mesh.positions| && f.pos.c1 < |mesh.positions| && f.pos.c2 < |mesh.positions|
    && (f.uv.Some? ==> f.uv.value.c0 < |mesh.uvs| && f.uv.value.c1 < |mesh.uvs| && f.uv.value.c2 < |mesh.uvs|)
    && (f.normal.Some? ==> f.normal.value.c0 < |mesh.normals| && f.normal.value.c1 < |mesh.normals|
                           && f.normal.value.c2 < |mesh.normals|)
  }

  predicate MeshInRange(mesh: ObjMesh) {
    forall i :: 0 <= i < |mesh.faces| ==> FaceInRange(mesh, mesh.faces[i])
  }

  /** At every corner the normal index is the position index. */
  predicate NormalsFollowPositions(f: ObjFace) {
    f.normal == Some(f.pos)
  }

  /**
   * The surfaces of a scene. A group keeps its own `transformMat` apart from the triple it
   * computes from it; a triangle refers to the mesh that owns it and to its face.
   */
  datatype Surface =
    | Sphere(center: V3, radius: real, shader: Shader, xf: Xform)
    | Cylinder(center: V3, radius: real, height: real, shader: Shader, xf: Xform)
    | Box(minPt: V3, maxPt: V3, shader: Shader, xf: Xform)
    | Mesh(data: ObjMesh, shader: Shader, xf: Xform)
    | Triangle(owner: ObjMesh, face: ObjFace, shader: Shader, xf: Xform)
    | Group(transform: Affine, objs: seq<Surface>, shader: Shader, xf: Xform)

  /** The surfaces the BVH holds: only these have intersection routines that can succeed. */
  predicate Renderable(s: Surface) {
    s.Sphere? || s.Cylinder? || s.Triangle?
  }

  /** A new group: identity `transformMat`, no children, the default shader. */
  function NewGroup(): Surface {
    Group(Identity(), [], DefaultShader(), NoXform())
  }

  /** `Group.addSurface`: the child goes after the existing ones. */
  function AddSurface(g: Surface, child: Surface): (r: Surface)
    requires g.Group?
    ensures r.Group? && r.objs == g.objs + [child]
    ensures r.transform == g.transform && r.shader == g.shader && r.xf == g.xf
  {
    g.(objs := g.objs + [child])
  }

  /** `Group.setTranslate`: the translation applies after the transform so far. */
  function SetTranslate(g: Surface, v: V3): (r: Surface)
    requires g.Group?
    ensures r.Group? && r.objs == g.objs
    ensures forall x :: MulPos(r.transform, x) == Add(MulPos(g.transform, x), v)
  {
    var r := g.(transform := MulAfter(g.transform, Translation(v)));
    assert forall y :: MulPos(Translation(v), y) == Add(y, v);
    r
  }

  /** `Group.setScale`: the scaling applies after the transform so far. */
  function SetScale(g: Surface, s: V3): (r: Surface)
    requires g.Group?
    ensures r.Group? && r.objs == g.objs
    ensures forall x :: var y := MulPos(g.transform, x);
      MulPos(r.transform, x) == V3(s.x * y.x, s.y * y.y, s.z * y.z)
  {
    ScalingApplies(s);
    Group(MulAfter(g.transform, Scaling(s)), g.objs, g.shader, g.xf)
  }

  lemma ScalingApplies(s: V3)
    ensures forall y :: MulPos(Scaling(s), y) == V3(s.x * y.x, s.y * y.y, s.z * y.z)
  {
    forall y ensures MulPos(Scaling(s), y) == V3(s.x * y.x, s.y * y.y, s.z * y.z) {
      ScalingAppliesAt(s, y);
    }
  }

  lemma ScalingAppliesAt(s: V3, y: V3)
    ensures MulPos(Scaling(s), y) == V3(s.x * y.x, s.y * y.y, s.z * y.z)
  {
  }

  /**
   * The transpose of the linear part. Java transposes the full 4x4 matrix, which moves the
   * translation into the bottom row; `mulDir` never reads that row, so dropping it changes
   * nothing the inverse transpose is used for.
   */
  function Transpose(m: Affine): (r: Affine)
    ensures Col(r, AxisX) == m.r0 && Col(r, AxisY) == m.r1 && Col(r, AxisZ) == m.r2
  {
    Affine(Col(m, AxisX), Col(m, AxisY), Col(m, AxisZ), Zero())
  }

  /** The triple a group computes from its own transform and its parent's matrix. */
  function GroupXform(transform: Affine, parent: Affine, invert: Affine -> Affine): (x: Xform)
    ensures forall p :: MulPos(x.m, p) == MulPos(parent, MulPos(transform, p))
  {
    var m := MulAfter(transform, parent);
    Xform(m, invert(m), invert(Transpose(m)))
  }

  /** The same surface holding the triple xf. */
  function WithXform(s: Surface, xf: Xform): (r: Surface)
    ensures r.xf == xf && r.shader == s.shader
  {
    match s
    case Sphere(c, rad, sh, _) => Sphere(c, rad, sh, xf)
    case Cylinder(c, rad, h, sh, _) => Cylinder(c, rad, h, sh, xf)
    case Box(lo, hi, sh, _) => Box(lo, hi, sh, xf)
    case Mesh(data, sh, _) => Mesh(data, sh, xf)
    case Triangle(owner, f, sh, _) => Triangle(owner, f, sh, xf)
    case Group(tr, objs, sh, _) => Group(tr, objs, sh, xf)
  }

  /**
   * `setTransformation(a, aInv, aTInv)`. A leaf stores the triple; a group composes its own
   * transform with the parent's, stores that, and passes it to every child.
   */
  function SetTransformation(s: Surface, xf: Xform, invert: Affine -> Affine): (r: Surface)
    ensures r.shader == s.shader
    ensures !s.Group? ==> r == WithXform(s, xf)
    ensures s.Group? ==>
      (r.Group? && r.transform == s.transform && |r.objs| == |s.objs|
       && r.xf == GroupXform(s.transform, xf.m, invert))
    decreases s
  {
    if s.Group? then
      var gx := GroupXform(s.transform, xf.m, invert);
      Group(s.transform, SetChildren(s, gx, invert, 0), s.shader, gx)
    else WithXform(s, xf)
  }

  /** The group's children from index i on, each given the triple gx. */
  function SetChildren(g: Surface, gx: Xform, invert: Affine -> Affine, i: nat): (cs: seq<Surface>)
    requires g.Group? && i <= |g.objs|
    ensures |cs| == |g.objs| - i
    ensures forall j :: 0 <= j < |cs| ==> cs[j] == SetTransformation(g.objs[i + j], gx, invert)
    decreases g, |g.objs| - i
  {
    if i == |g.objs| then [] else [SetTransformation(g.objs[i], gx, invert)] + SetChildren(g, gx, invert, i + 1)
  }

  /** Each child of a placed group receives the group's own composed triple. */
  lemma ChildrenReceiveGroupXform(s: Surface, xf: Xform, invert: Affine -> Affine, i: int)
    requires s.Group? && 0 <= i < |s.objs|
    ensures var r := SetTransformation(s, xf, invert);
      r.objs[i] == SetTransformation(s.objs[i], r.xf, invert)
  {
  }

  /**
   * A surface placed in a group under parent matrix p carries the group's transform
   * followed by p: the group's own transform applies to the child's coordinates first.
   */
  lemma NestedPlacement(g: Surface, child: Surface, p: Affine, invert: Affine -> Affine, x: V3)
    requires g.Group? && |g.objs| == 1 && g.objs[0] == child && !child.Group?
    ensures var r := SetTransformation(g, Xform(p, invert(p), invert(Transpose(p))), invert);
      MulPos(r.objs[0].xf.m, x) == MulPos(p, MulPos(g.transform, x))
  {
  }

  /** The triangles `Mesh.appendRenderableSurfaces` makes: one per face, in face order. */
  function MeshTriangles(data: ObjMesh, shader: Shader, xf: Xform, i: nat): (ts: seq<Surface>)
    requires i <= |data.faces|
    ensures |ts| == |data.faces| - i
    ensures forall j :: 0 <= j < |ts| ==> ts[j] == Triangle(data, data.faces[i + j], shader, xf)
    decreases |data.faces| - i
  {
    if i == |data.faces| then [] else [Triangle(data, data.faces[i], shader, xf)] + MeshTriangles(data, shader, xf, i + 1)
  }

  /**
   * `appendRenderableSurfaces`: the renderable surfaces under s, in depth-first child
   * order. A box contributes the twelve triangles of its mesh.
   */
  function Flatten(s: Surface): seq<Surface>
    decreases s
  {
    match s
    case Group(_, _, _, _) => FlattenFrom(s, 0)
    case Mesh(data, sh, xf) => MeshTriangles(data, sh, xf, 0)
    case Box(lo, hi, sh, xf) => MeshTriangles(BoxMesh(lo, hi), sh, xf, 0)
    case _ => [s]
  }

  /** The flattened children of group g from index i on, in order. */
  function FlattenFrom(g: Surface, i: nat): seq<Surface>
    requires g.Group? && i <= |g.objs|
    decreases g, |g.objs| - i
  {
    if i == |g.objs| then [] else Flatten(g.objs[i]) + FlattenFrom(g, i + 1)
  }

  /** Only renderable surfaces come out of flattening: no group, mesh or box reaches the BVH. */
  lemma {:induction false} FlattenRenderable(s: Surface)
    ensures forall x :: x in Flatten(s) ==> Renderable(x)
    decreases s
  {
    if s.Group? {
      FlattenFromRenderable(s, 0);
    }
  }

  lemma {:induction false} FlattenFromRenderable(g: Surface, i: nat)
    requires g.Group? && i <= |g.objs|
    ensures forall x :: x in FlattenFrom(g, i) ==> Renderable(x)
    decreases g, |g.objs| - i
  {
    if i < |g.objs| {
      FlattenRenderable(g.objs[i]);
      FlattenFromRenderable(g, i + 1);
    }
  }

  /** A group flattens to its first children's surfaces followed by the last child's. */
  lemma FlattenGroupAppend(g: Surface, child: Surface)
    requires g.Group?
    ensures Flatten(AddSurface(g, child)) == Flatten(g) + Flatten(child)
  {
    FlattenFromAppend(g, child, 0);
  }

  lemma {:induction false} FlattenFromAppend(g: Surface, child: Surface, i: nat)
    requires g.Group? && i <= |g.objs|
    ensures FlattenFrom(AddSurface(g, child), i) == FlattenFrom(g, i) + Flatten(child)
    decreases |g.objs| - i
  {
    var r := AddSurface(g, child);
    if i == |g.objs| {
      assert r.objs[i] == child;
      assert FlattenFrom(r, i + 1) == [];
    } else {
      FlattenFromAppend(g, child, i + 1);
      assert r.objs[i] == g.objs[i];
    }
  }

  /** A renderable leaf flattens to itself; a mesh to one triangle per face carrying its shader and triple. */
  lemma FlattenLeaves(s: Surface)
    ensures Renderable(s) ==> Flatten(s) == [s]
    ensures s.Mesh? ==>
      (|Flatten(s)| == |s.data.faces|
       && forall i :: 0 <= i < |s.data.faces| ==>
            Flatten(s)[i] == Triangle(s.data, s.data.faces[i], s.shader, s.xf))
  {
  }

  // ---------------------------------------------------------------- the box's mesh

  /** The eight corners in `buildMesh` order: the z = min face counter-clockwise, then z = max. */
  function BoxPositions(lo: V3, hi: V3): seq<V3> {
    [V3(lo.x, lo.y, lo.z), V3(lo.x, hi.y, lo.z), V3(hi.x, hi.y, lo.z), V3(hi.x, lo.y, lo.z),
     V3(lo.x, lo.y, hi.z), V3(lo.x, hi.y, hi.z), V3(hi.x, hi.y, hi.z), V3(hi.x, lo.y, hi.z)]
  }

  /** The six outward normals: +x, -x, +y, -y, +z, -z. */
  function BoxNormals(): seq<V3> {
    [V3(1.0, 0.0, 0.0), V3(-1.0, 0.0, 0.0), V3(0.0, 1.0, 0.0),
     V3(0.0, -1.0, 0.0), V3(0.0, 0.0, 1.0), V3(0.0, 0.0, -1.0)]
  }

  function BoxUVs(): seq<V2> {
    [V2(0.0, 0.0), V2(1.0, 0.0), V2(1.0, 1.0), V2(0.0, 1.0)]
  }

  /** A face whose three corners share one normal. */
  function BoxFace(p0: nat, p1: nat, p2: nat, u0: nat, u1: nat, u2: nat, n: nat): ObjFace {
    ObjFace(Corners(p0, p1, p2), Some(Corners(u0, u1, u2)), Some(Corners(n, n, n)))
  }

  /** The twelve triangles, two per side, as `buildMesh` lists them. */
  function BoxFaces(): seq<ObjFace> {
    [BoxFace(0, 2, 1, 2, 0, 3, 5), BoxFace(0, 3, 2, 2, 1, 0, 5),
     BoxFace(0, 1, 5, 3, 2, 1, 1), BoxFace(0, 5, 4, 3, 1, 0, 1),
     BoxFace(0, 4, 7, 3, 2, 1, 3), BoxFace(0, 7, 3, 3, 1, 0, 3),
     BoxFace(4, 6, 5, 3, 1, 2, 4), BoxFace(4, 7, 6, 3, 0, 1, 4),
     BoxFace(2, 5, 6, 0, 2, 3, 2), BoxFace(2, 1, 5, 0, 1, 2, 2),
     BoxFace(2, 6, 7, 1, 2, 3, 0), BoxFace(2, 7, 3, 1, 3, 0, 0)]
  }

  /** `Box.buildMesh`: the box as an indexed triangle mesh in its own coordinates. */
  function BoxMesh(lo: V3, hi: V3): (mesh: ObjMesh)
    ensures |mesh.positions| == 8 && |mesh.normals| == 6 && |mesh.uvs| == 4 && |mesh.faces| == 12
  {
    ObjMesh(BoxPositions(lo, hi), BoxUVs(), BoxNormals(), BoxFaces())
  }

  /** The axis a box normal index names (0, 1: x; 2, 3: y; 4, 5: z); even indices face +. */
  function SideAxis(n: nat): Axis {
    if n / 2 == 0 then AxisX else if n / 2 == 1 then AxisY else AxisZ
  }

  /** The coordinate of the side that normal index n names. */
  function SideCoord(lo: V3, hi: V3, n: nat): real {
    if n % 2 == 0 then Get(hi, SideAxis(n)) else Get(lo, SideAxis(n))
  }

  /** The unit vector along an axis, signed. */
  function AxisVector(a: Axis, sign: real): V3 {
    match a
    case AxisX => V3(sign, 0.0, 0.0)
    case AxisY => V3(0.0, sign, 0.0)
    case AxisZ => V3(0.0, 0.0, sign)
  }

  /**
   * The box mesh is well indexed, every face lies on the side of the box its normal names,
   * and that normal points out of the box along the side's axis.
   */
  lemma BoxMeshOnSides(lo: V3, hi: V3)
    ensures MeshInRange(BoxMesh(lo, hi))
    ensures forall i, k :: 0 <= i < 12 && 0 <= k < 3 ==>
      var mesh := BoxMesh(lo, hi);
      var f := mesh.faces[i];
      var n := f.normal.value.At(k);
      n == f.normal.value.c0
      && Get(mesh.positions[f.pos.At(k)], SideAxis(n)) == SideCoord(lo, hi, n)
      && mesh.normals[n] == AxisVector(SideAxis(n), if n % 2 == 0 then 1.0 else -1.0)
  {
    var mesh := BoxMesh(lo, hi);
    forall i, k | 0 <= i < 12 && 0 <= k < 3
      ensures var f := mesh.faces[i];
        var n := f.normal.value.At(k);
        n == f.normal.value.c0
        && Get(mesh.positions[f.pos.At(k)], SideAxis(n)) == SideCoord(lo, hi, n)
        && mesh.normals[n] == AxisVector(SideAxis(n), if n % 2 == 0 then 1.0 else -1.0)
    {
    }
  }

  /** The side each consecutive pair of faces covers: -z, -x, -y, +z, +y, +x. */
  function SideOrder(): seq<nat> {
    [5, 1, 3, 4, 2, 0]
  }

  /**
   * Faces 2k and 2k + 1 cover side `SideOrder()[k]`, and the six pairs cover the six sides
   * once each: every side is made of exactly two triangles.
   */
  lemma BoxTwoFacesPerSide()
    ensures forall i :: 0 <= i < 12 ==> BoxFaces()[i].normal.value.c0 == SideOrder()[i / 2]
    ensures forall n: nat :: n < 6 ==> n in SideOrder()
    ensures forall k, l :: 0 <= k < l < 6 ==> SideOrder()[k] != SideOrder()[l]
  {
    assert SideOrder()[5] == 0 && SideOrder()[1] == 1 && SideOrder()[4] == 2;
    assert SideOrder()[2] == 3 && SideOrder()[3] == 4 && SideOrder()[0] == 5;
  }

  /** A box flattens to its twelve triangles, all carrying the box's shader and triple. */
  lemma BoxFlattensToTwelve(b: Surface)
    requires b.Box?
    ensures |Flatten(b)| == 12
    ensures forall i :: 0 <= i < 12 ==>
      Flatten(b)[i] == Triangle(BoxMesh(b.minPt, b.maxPt), BoxFaces()[i], b.shader, b.xf)
  {
  }
}
