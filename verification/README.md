# A verified model of the ComputerGraphics course projects

This project is a Dafny model of the algorithmic core of a series of Java graphics
assignments, with proofs of what that core promises. It covers:

- **The second ray tracer (`ray2`).** Surfaces (sphere, cylinder, box, triangle mesh,
  group) and the transformations they carry. Their bounding boxes and the ray/box slab
  test. The bounding-volume hierarchy: construction by sorting on the longest axis, and
  nearest-hit and any-hit traversal. The scene and its initialisation. The cameras. The
  lights and their sampling. The shaders' algebra (Lambertian, the BRDF sum over lights,
  Fresnel, reflection and refraction in `Glass` and `Glazed`). The environment cube map
  and its PFM header. The mutually recursive `shadeRay`/`shade` pair with its depth
  bound. The block spiral and the image renderer.
- **The first ray tracer (`ray1`).** Its sphere and triangle tests, image textures and
  cameras.
- **The animation engine (`anim.AnimationEngine`).** The timeline's frame pointer and its
  interpolation ratio.
- **Splines.** Cubic Bezier subdivision (`CubicBezier`) and the spline curve
  (`SplineCurve`): its editing operations and its surface of revolution.
- **Mesh generators.** The OBJ mesh generators (`meshgen`: cylinder, sphere, torus, the
  command-line parser and the normal calculator). The OpenGL-side mesh code (`MeshGenTorus`,
  `MeshConverter`) and `RenderCamera`'s projection update.

Java doubles are Dafny reals. Java ints are unbounded integers, except where Java's
truncating division, remainder or cast matters (module `JavaInt`). Mutable objects become
immutable datatypes, and each mutating method a function that returns the updated value.
Three kinds of input are parameters rather than code:

- the square root, as any function satisfying `Geometry.IsSqrt`;
- sine and cosine;
- matrix inversion, and the other routines of the vector library the code calls.

Nothing is assumed about these parameters beyond what each member states in its
`requires`.

Where the documentation of `Bvh.intersectHelper` says the output record is left unchanged
on a miss, the code overwrites it at every inner node the ray enters. The model follows the
code (`BvhTraversal.InnerMissClearsRecord`).

Where a row under Findings corrects a defect, the rest of the model uses the corrected
member. The scene intersects cylinders with `CylinderHits.CylinderHit` (used by
`SurfaceHits`), the first tracer's sphere record uses the checked tangent branch, the cube
map clamps its pixel offsets, and the surface of revolution uses the ring stride.

## Model

| member | source | states |
|---|---|---|
| Textures.RawIndex | a7/src/ray2/shader/ClampTexture.java:22-23 | the raw pixel index is c·n + 0.5 truncated toward zero: its floor when non-negative, its ceiling when negative |
| Textures.ClampIndex | a7/src/ray2/shader/ClampTexture.java:25-26 | the clamped index lies in [0, n) and an index already in range is kept |
| Textures.ClampNearest | a7/src/ray2/shader/ClampTexture.java:25-26 | clamping picks the in-range index nearest to the raw one (the nearest image boundary) |
| Textures.WrapIndex | a7/src/ray2/shader/RepeatTexture.java:25-28 | the wrapped index lies in [0, n) and an index already in range is kept |
| Textures.WrapIsModulo | a7/src/ray2/shader/RepeatTexture.java:25-28 | Java's remainder plus n when negative is exactly the mathematical x mod n, so the image repeats |
| Textures.ClampColor | a7/src/ray2/shader/ClampTexture.java:15-30 | without an image the colour is black; otherwise it is the colour of some pixel inside the image |
| Textures.RepeatColor | a7/src/ray2/shader/RepeatTexture.java:16-32 | without an image the colour is black; otherwise it is the colour of some pixel inside the image |
| Textures.ClampAgrees | a2/src/ray1/shader/ClampTexture.java:32-42 | the ray1 if-chain clamp equals the ray2 min/max clamp for every raw index |
| Textures.WrapAgrees | a2/src/ray1/shader/RepeatTexture.java:40-50 | the ray1 wrap (`x % n` above, `(x % n + n) % n` below) equals the ray2 wrap for every raw index |
| Textures.TexturesAgree | a2/src/ray1/shader/ClampTexture.java:16-44 | the ray1 clamp and repeat textures return the same colour as their ray2 counterparts for every coordinate |
| Lights.InverseSquare | a7/src/ray2/light/PointLight.java:38 | the attenuation times the squared distance is 1, and it is positive when the distance is |
| Lights.RectBasis | a7/src/ray2/light/RectangleLight.java:68-70 | the rectangle frame's V is W × U |
| Lights.RectBasisOrthonormal | a7/src/ray2/light/RectangleLight.java:63-72 | when the normal is not parallel to the up direction, U, V and W are unit length and mutually perpendicular, and W points along −normal |
| Lights.Init | a7/src/ray2/light/RectangleLight.java:63-72 | initialising changes nothing but the rectangle light's basis, which becomes the frame built from its normal and up direction |
| Lights.Spread | a7/src/ray2/light/RectangleLight.java:106-114 | a random draw in [0, 1) maps into [−extent/2, extent/2) |
| Lights.Sample | a7/src/ray2/light/RectangleLight.java:92-122 | sampling initialises an uninitialised rectangle light and changes nothing else; the distance is finite exactly for non-directional lights; the probability is 1 for point and directional lights and the area density `Density(width, height)` for a rectangle light |
| Lights.Density | a7/src/ray2/light/RectangleLight.java:121 | for a non-zero area the density times the area is 1, so it has the sign of the area; a zero area gives 0 (see Left out) |
| Lights.PointLightSample | a7/src/ray2/light/PointLight.java:36-41 | the shading point plus the direction is the light's position; the distance squared is the squared distance; attenuation × distance² = 1 away from the light; the probability is 1 |
| Lights.DirectionalIgnoresPoint | a7/src/ray2/light/DirectionalLight.java:37-42 | a directional light's sample does not depend on the shading point: its fixed direction, attenuation 1, infinite distance, probability 1 |
| Lights.RectangleSampleOnLight | a7/src/ray2/light/RectangleLight.java:106-121 | the sampled point is position + y·U + x·V with x within half the width and y within half the height, for any width and height, zero and negative included |
| Lights.RectangleAttenuationSign | a7/src/ray2/light/RectangleLight.java:119 | the attenuation has the sign of direction · W: positive in front of the light and negative behind it, although the light's documentation calls it one-sided |
| Shaders.Fresnel | a7/src/ray2/shader/Shader.java:71-87 | nothing is reflected from behind the surface; total internal reflection (negative cos² of the transmitted angle) reflects everything; the reflectance lies in [0, 1] for a positive index |
| Shaders.FresnelNormalIncidence | a7/src/ray2/shader/Shader.java:77-86 | at normal incidence the reflectance is ((η − 1)/(η + 1))² |
| Shaders.FresnelGrazing | a7/src/ray2/shader/Shader.java:77-86 | at grazing incidence everything is reflected, for every positive index other than 1 |
| Shaders.FresnelGrazingTest | a7/src/ray2/shader/ShaderTests.java:25-33 | the grazing case with normal (1, 1, 1), outgoing (−1, 1, 0) and index 2 gives reflectance 1 |
| Shaders.NormalColor | a7/src/ray2/shader/RGBNormals.java:27-31 | the colour decodes back to the normal: 2c − 1 = n |
| Shaders.NormalColorInRange | a7/src/ray2/shader/RGBNormals.java:27-31 | a unit normal encodes to a colour with every channel in [0, 1] |
| Shaders.LambertianConstant | a7/src/ray2/shader/Lambertian.java:20-24 | Lambertian's BRDF is its diffuse colour, independent of the directions, the normal, kD and the texture |
| Shaders.Diffuse | a7/src/ray2/shader/BRDFShader.java:75-81 | the diffuse coefficient is the texture's colour when a texture is set and the diffuse colour otherwise |
| Shaders.Contribution | a7/src/ray2/shader/BRDFShader.java:83-94 | a light at or below the surface, or with sampling probability 0, contributes nothing; otherwise the term is BRDF × intensity scaled by k with k × probability = (L·N) × attenuation |
| Shaders.Terms | a7/src/ray2/shader/BRDFShader.java:70-97 | one term per light, in list order, the k-th light sampled with the k-th draws and zero when shadowed |
| Shaders.AccumulateAppend | a7/src/ray2/shader/BRDFShader.java:69-97 | the accumulated colour of two runs of terms is the sum of their colours: every light is counted once |
| Shaders.AllDarkIsBlack | a7/src/ray2/shader/BRDFShader.java:69-97 | a point every light leaves dark (shadowed, or lit from below) is shaded black |
| Shaders.LambertianIgnoresTexture | a7/src/ray2/shader/BRDFShader.java:75-91 | a texture does not change a Lambertian surface's shade, because its BRDF ignores kD |
| Shaders.GlassInterface | a7/src/ray2/shader/Glass.java:65-85 | from outside, n1 = 1, n2 = η and Fresnel uses η; from inside, the normal flips, the indices swap and Fresnel uses 1/η (0 for η = 0); at grazing incidence both indices stay 0; θ = n·d ≥ 0 afterwards; any index is accepted |
| Shaders.MirrorReflects | a7/src/ray2/shader/Glass.java:87 | the mirror direction 2θn − d keeps the angle to the normal and the length, and mirroring twice restores d |
| Shaders.Tangent | a7/src/ray2/shader/Glass.java:101 | the tangential part d − (d·n)n is perpendicular to the unit normal |
| Shaders.TangentLength | a7/src/ray2/shader/Glass.java:101 | for unit d and n the tangential part has squared length 1 − (d·n)² |
| Shaders.RefractSnell | a7/src/ray2/shader/Glass.java:93-102 | Snell's law: when det ≥ 0 the refracted direction is a unit vector with normal component −√det and tangential part (n1/n2) times the incoming one |
| Surfaces.AddSurface | a7/src/ray2/surface/Group.java:73-75 | the child goes after the existing children and nothing else about the group changes |
| Surfaces.SetTranslate | a7/src/ray2/surface/Group.java:52-55 | the new transform maps every point to its old image plus the translation, and the children are unchanged |
| Surfaces.SetScale | a7/src/ray2/surface/Group.java:67-71 | the new transform maps every point to its old image scaled componentwise, and the children are unchanged |
| Surfaces.Transpose | a7/src/ray2/surface/Group.java:41 | the columns of the transpose are the rows of the linear part |
| Surfaces.GroupXform | a7/src/ray2/surface/Group.java:39-41 | the group's matrix applies its own transform first and then the parent's |
| Surfaces.SetTransformation | a7/src/ray2/surface/Surface.java:68-72 | a leaf stores the triple it is given; a group stores its composed triple, keeps its transform and children count, and keeps the shader |
| Surfaces.SetChildren | a7/src/ray2/surface/Group.java:43-47 | every child, in order, is placed with the group's composed triple |
| Surfaces.ChildrenReceiveGroupXform | a7/src/ray2/surface/Group.java:33-48 | each child of a placed group receives the group's own composed triple |
| Surfaces.NestedPlacement | a7/src/ray2/surface/Group.java:33-48 | a leaf inside a group placed under parent matrix p maps x to p(transform(x)) |
| Surfaces.MeshTriangles | a7/src/ray2/surface/Mesh.java:53-63 | a mesh yields one triangle per face, in face order, each with the mesh's shader and triple |
| Surfaces.FlattenRenderable | a7/src/ray2/surface/Surface.java:97-99 | flattening yields only spheres, cylinders and triangles: no group, mesh or box reaches the BVH |
| Surfaces.FlattenGroupAppend | a7/src/ray2/surface/Group.java:80-83 | a group with one more child flattens to the old group's surfaces followed by the child's |
| Surfaces.FlattenLeaves | a7/src/ray2/surface/Mesh.java:53-63 | a renderable leaf flattens to itself and a mesh to its triangles in face order |
| Surfaces.BoxMesh | a7/src/ray2/surface/Box.java:40-145 | the box mesh has eight positions, six normals, four uvs and twelve faces |
| Surfaces.BoxMeshOnSides | a7/src/ray2/surface/Box.java:40-145 | every face index is in range, every corner of a face lies on the box side its normal names, and that normal is the outward axis vector |
| Surfaces.BoxTwoFacesPerSide | a7/src/ray2/surface/Box.java:67-144 | faces 2k and 2k + 1 cover one side and the six pairs cover the six sides once each |
| Surfaces.BoxFlattensToTwelve | a7/src/ray2/surface/Box.java:188-191 | a box flattens to the twelve triangles of its mesh, all with the box's shader and triple |
| Aabb.RangeBoxContainsEach | a7/src/ray2/accel/Bvh.java:150-165 | the bounding box computed over a range contains every surface's box in the range |
| Aabb.RangeBoxLeast | a7/src/ray2/accel/Bvh.java:150-165 | it is the least such box: every box containing all of them contains it |
| Aabb.RangeBoxWellFormed | a7/src/ray2/accel/Bvh.java:150-165 | the hull of well-formed boxes is well formed |
| Aabb.AxisSlabMeaning | a7/src/ray2/accel/BvhNode.java:99-106 | one axis's slab holds t exactly when the ray point at t lies between that axis's two planes |
| Aabb.ClipMeaning | a7/src/ray2/accel/BvhNode.java:107-112 | a clipping step fails exactly when no parameter lies both in the running interval and in the slab; otherwise the new interval is their intersection |
| Aabb.ClipAllMeaning | a7/src/ray2/accel/BvhNode.java:93-146 | clipping the three slabs in turn succeeds exactly when one parameter lies in the interval and all three slabs |
| Aabb.InsideIffSlabs | a7/src/ray2/accel/BvhNode.java:99-138 | the point at t is in the box exactly when t lies in all three slabs |
| Aabb.IntersectsIff | a7/src/ray2/accel/BvhNode.java:85-147 | `intersects` holds exactly when some point of the ray segment [start, end] lies in the box |
| Bvh.BoundsContainsEach | a7/src/ray2/accel/Bvh.java:142-165 | a node's box contains the box of every surface of its range |
| Bvh.BoundsLeast | a7/src/ray2/accel/Bvh.java:142-165 | and it is the smallest box that does |
| Bvh.WidestAxis | a7/src/ray2/accel/Bvh.java:178-188 | x is chosen exactly when strictly wider than y and z, y exactly when strictly wider than x and z, z otherwise (ties included) |
| Bvh.Insert | a7/src/ray2/accel/Bvh.java:192-193 | inserting one surface adds exactly that surface to the multiset |
| Bvh.SortDesc | a7/src/ray2/accel/Bvh.java:192-193 | sorting permutes the range |
| Bvh.SortDescSorted | a7/src/ray2/accel/Bvh.java:222-230 | after sorting, average positions on the split axis never increase (the comparator puts larger first) |
| Bvh.CreateTree | a7/src/ray2/accel/Bvh.java:139-202 | building a subtree leaves the array outside [start, end) untouched and permutes the range |
| Bvh.Build | a7/src/ray2/accel/Bvh.java:122-125 | building permutes the surfaces and yields a tree exactly when there is at least one surface |
| Bvh.CreateTreeValid | a7/src/ray2/accel/Bvh.java:139-202 | the subtree records its range, leaves hold at most 10 surfaces, inner nodes split at the integer midpoint, every surface lies in its node's box and every child's box in its parent's; the root box is the range's bounds |
| Bvh.BuildValid | a7/src/ray2/accel/Bvh.java:122-125 | the built tree is valid over the whole permuted array and its box is the bounds of all surfaces |
| Bvh.LeavesPartition | a7/src/ray2/accel/Bvh.java:197-199 | read left to right, the leaves of a valid tree cover its range once each, with no gap or overlap |
| Bvh.Shape20 | a7/src/ray2/accel/BvhTests.java:303-312 | 20 surfaces give an inner root with two leaves of 10 |
| Bvh.Shape40 | a7/src/ray2/accel/BvhTests.java:344-363 | 40 surfaces give two inner children of 20 and four leaf grandchildren of 10 |
| Bvh.BuildOne | a7/src/ray2/accel/BvhTests.java:297-300 | one surface gives a single leaf whose box is that surface's box |
| SurfaceBounds.Images | a7/src/ray2/surface/Sphere.java:128-129 | each bounding point is transformed by the surface's matrix, in order |
| SurfaceBounds.HullOf | a7/src/ray2/surface/Sphere.java:115-142 | the min/max loop over the transformed points yields a well-formed box holding every one of them |
| SurfaceBounds.HullLeast | a7/src/ray2/surface/Sphere.java:115-142 | no smaller box holds all the transformed points |
| SurfaceBounds.SpherePointsAreCorners | a7/src/ray2/surface/Sphere.java:118-126 | the sphere's eight bounding points are the corners of the cube centre ± radius |
| SurfaceBounds.CylinderPointsAreCorners | a7/src/ray2/surface/Cylinder.java:160-168 | the cylinder's eight bounding points are the corners of centre ± (radius, radius, height/2) |
| SurfaceBounds.BoxPointsAreCorners | a7/src/ray2/surface/Box.java:155-163 | the box's eight bounding points are the corners of [minPt, maxPt] |
| SurfaceBounds.Bounds | a7/src/ray2/surface/Surface.java:91 | a sphere, cylinder, box or in-range triangle gets a box; a group or mesh computes none |
| SurfaceBounds.Average | a7/src/ray2/surface/Triangle.java:150-169 | the BVH sort key (the transformed centre of a sphere or cylinder, the box's midpoint, the mean of a triangle's transformed vertices) exists exactly when the surface has a bounding box, and lies inside that box |
| SurfaceBounds.ItemOf | a7/src/ray2/accel/Bvh.java:150-152 | the BVH entry of a surface carries the surface and a well-formed box |
| SurfaceBounds.CornerHullEncloses | a7/src/ray2/surface/Box.java:147-182 | transforming only the corners suffices: every point of the object-space box maps into the hull of the corners' images, whatever the affine map |
| SurfaceBounds.BoxBoundsEnclose | a7/src/ray2/surface/Box.java:147-182 | every point of the solid box maps into the box's bounds |
| SurfaceBounds.SphereBoundsEnclose | a7/src/ray2/surface/Sphere.java:112-145 | every point of the solid sphere maps into the sphere's bounds |
| SurfaceBounds.CylinderBoundsEnclose | a7/src/ray2/surface/Cylinder.java:153-187 | every point of the solid cylinder maps into the cylinder's bounds |
| SurfaceBounds.TriangleBoundsEnclose | a7/src/ray2/surface/Triangle.java:140-170 | every point of the triangle maps into the triangle's bounds |
| SurfaceBounds.TriangleBoundsCorners | a7/src/ray2/surface/Triangle.java:140-170 | a triangle's box is the componentwise min and max of its three transformed vertices |
| BvhTraversal.HitBelow | a7/src/ray2/accel/Bvh.java:87 | a leaf keeps a surface's hit exactly when it lies strictly before the ray's current end |
| BvhTraversal.ScanKeepsFound | a7/src/ray2/accel/Bvh.java:82-98 | once the leaf loop has found a hit, it still reports one at the end |
| BvhTraversal.LeafModesAgree | a7/src/ray2/accel/Bvh.java:86-98 | a leaf reports a hit in nearest mode exactly when it reports one in any-hit mode |
| BvhTraversal.AnyHitAgreesWithNearest | a7/src/ray2/accel/Bvh.java:69-119 | any-hit traversal answers true exactly when nearest-hit traversal does, for every tree and every surface routine: the early return only saves work |
| BvhTraversal.InnerMissClearsRecord | a7/src/ray2/accel/Bvh.java:106-116 | an inner node whose box the ray enters overwrites the caller's record even when nothing under it is hit, contrary to the "unchanged" promise at Bvh.java:36-39 |
| BvhTraversal.NoHitNoRecord | a7/src/ray2/accel/Bvh.java:69-119 | started from an empty record, the traversal fills the record exactly when it reports a hit |
| BvhTraversal.FirstMinSpec | a7/src/ray2/accel/Bvh.java:86-97 | the reference choice finds a least hit of the range, strictly below every earlier hit, and finds one whenever any exists |
| BvhTraversal.LeafScanIsFirstMin | a7/src/ray2/accel/Bvh.java:82-98 | when surfaces report their nearest hit in the window, the leaf loop's record is the range's nearest hit (earliest on ties) if it lies before the current end, and the incoming state otherwise |
| BvhTraversal.HitEntersBox | a7/src/ray2/accel/Bvh.java:77-78 | a surface's hit lies inside every box containing the surface's box, so culling by the box test never loses a hit |
| BvhTraversal.NearestIsMin | a7/src/ray2/accel/Bvh.java:69-119 | on a valid tree, nearest-hit traversal finds a hit exactly when some surface of the range has one, and returns one with the least t |
| BvhTraversal.InnerCombine | a7/src/ray2/accel/Bvh.java:106-116 | the inner node's choice between the children's records keeps a nearest hit of the whole range |
| BvhTraversal.BvhFindsNearest | a7/src/ray2/accel/Bvh.java:49-51 | `build` followed by `intersect` returns what a linear scan over all surfaces returns: a hit exactly when one exists, with the least t, and any-hit mode agrees |
| Cubemaps.TablesInverse | a7/src/ray2/light/Cubemap.java:94 | each face's block in the layout table is marked with that face in the reverse table (line 132) |
| Cubemaps.TablesInverseBack | a7/src/ray2/light/Cubemap.java:132 | every block the reverse table marks with a face is that face's block in the layout table (line 94) |
| Cubemaps.Centre | a7/src/ray2/light/Cubemap.java:143 | the face coordinate of a pixel centre lies strictly inside (−1, 1) |
| Cubemaps.SplitIndex | a7/src/ray2/light/Cubemap.java:135-137 | every pixel index of the map falls in a block column below 3 and a block row below 4 |
| Cubemaps.OffsetInBlock | a7/src/ray2/light/Cubemap.java:97-98 | a face coordinate in [−1, 1) gives a pixel offset inside the block |
| Cubemaps.FaceToIndex | a7/src/ray2/light/Cubemap.java:92-105 | for face coordinates in [−1, 1) the pixel `faceToIndex` picks lies in the map and `indexToFace` (lines 129-146) reports the same face for it |
| Cubemaps.IndexToFace | a7/src/ray2/light/Cubemap.java:129-146 | the reported face is −1 or one of the six faces, and on a face the centre coordinates lie strictly inside (−1, 1) |
| Cubemaps.CentreIndexRoundTrip | a7/src/ray2/light/Cubemap.java:92-146 | for every pixel on a face, `faceToIndex` of the face and centre `indexToFace` reports gives back that pixel |
| Cubemaps.OffsetOfCentre | a7/src/ray2/light/Cubemap.java:97-98 | the truncated offset of a pixel centre 2(i + 0.5)/blockSz − 1 (line 143) is i again |
| Cubemaps.DirToFace | a7/src/ray2/light/Cubemap.java:69-90 | for every non-zero direction both face coordinates lie in [−1, 1] |
| Cubemaps.FaceCoords | a7/src/ray2/light/Cubemap.java:74-86 | ±X is picked only when \|x\| strictly dominates; ±Y when \|y\| ≥ \|x\| and strictly beats \|z\|; ±Z otherwise; the coordinates lie in [−1, 1] |
| Cubemaps.DirToFaceScale | a7/src/ray2/light/Cubemap.java:69-90 | only the direction matters: scaling it by a positive factor gives the same face and coordinates |
| Cubemaps.DirFaceRoundTrip | a7/src/ray2/light/Cubemap.java:148-174 | `faceToDir` followed by `dirToFace` returns the face and the coordinates, for coordinates strictly inside the face |
| Cubemaps.FaceToDir | a7/src/ray2/light/Cubemap.java:148-174 | the direction has unit length and points the same way as the face's un-normalised direction for (u, v) |
| Cubemaps.EdgeDirectionLeavesFace | a7/src/ray2/light/Cubemap.java:92-105 | the edge direction (1, 0, 1) gets face +Z with u = 1, and `faceToIndex` then reads a pixel of an unused block (see Findings) |
| Cubemaps.ClampedInFace | a7/src/ray2/light/Cubemap.java:92-105 | with the offsets clamped to the block, every face coordinate, edges included, reads a pixel of its own face |
| Cubemaps.ClampAgrees | a7/src/ray2/light/Cubemap.java:92-105 | for coordinates in [−1, 1) clamping the offsets changes nothing: the clamped pixel is the one `faceToIndex` computes |
| Cubemaps.MapBits | a7/src/ray2/light/Cubemap.java:41-42 | the loop stops at the least b with 2^b ≥ width·height, as the comment at line 22 promises |
| Cubemaps.PixelProb | a7/src/ray2/light/Cubemap.java:176-188 | a pixel off the faces has probability 0; a face pixel has its brightest channel divided by the solid-angle weight |
| Cubemaps.Cumulative | a7/src/ray2/light/Cubemap.java:44-48 | the table starts at 0 and each entry adds the previous pixel's probability |
| Cubemaps.CumulativeMonotone | a7/src/ray2/light/Cubemap.java:44-48 | with non-negative pixel probabilities the cumulative table never decreases |
| Cubemaps.Normalise | a7/src/ray2/light/Cubemap.java:50-51 | every entry is divided by the original total, including the entries after the one that divides the total by itself |
| Cubemaps.Load | a7/src/ray2/light/Cubemap.java:31-52 | a loaded map is well formed, its mapBits is the least power covering the pixels, and its table starts at 0; for a non-zero total it ends at 1 with entry k the running sum over the total, and for an all-black map it is the running sums |
| Cubemaps.Table | a7/src/ray2/light/Cubemap.java:44-51 | one entry more than pixels, starting at 0; with a non-zero total entry k is the k-th running sum over the total and the last entry is 1; with a zero total the running sums are kept |
| Cubemaps.NormalisedMonotone | a7/src/ray2/light/Cubemap.java:44-51 | the normalised table never decreases and ends at 1 |
| Cubemaps.SkipSpace | a7/src/ray2/light/Cubemap.java:266-267 | skips exactly the leading whitespace bytes |
| Cubemaps.ScanWord | a7/src/ray2/light/Cubemap.java:269-270 | takes exactly the maximal run of non-whitespace bytes |
| Cubemaps.ReadWord | a7/src/ray2/light/Cubemap.java:262-273 | the word is a maximal non-whitespace run after whitespace, and the byte after it is consumed; the read fails exactly when no whitespace byte ends the word |
| Cubemaps.ParseInt | a7/src/ray2/light/Cubemap.java:247-248 | a parsed header number lies in Java's int range |
| Cubemaps.WrapInt | a7/src/ray2/light/Cubemap.java:249 | Java int multiplication wraps to 32 bits and leaves in-range values alone |
| Cubemaps.ReadPPMHeader | a7/src/ray2/light/Cubemap.java:229-260 | −1 for a file not starting "PF"; otherwise the float count width·height·3 in 32-bit arithmetic, with bands = 3 in the header info |
| Cubemaps.Evaluate | a7/src/ray2/light/Cubemap.java:58-67 | the radiance is scaleFactor times the colour of the pixel `faceToIndex` picks for the face and coordinates `dirToFace` gives, offsets kept inside the block, and that pixel lies in the map on the chosen face (see Findings) |
| Intersections.Untransform | a7/src/ray2/surface/Surface.java:58-66 | the object-space ray keeps the window and carries origin and direction through the inverse matrix |
| Intersections.UntransformKeepsParameter | a7/src/ray2/surface/Surface.java:58-66 | when the inverse undoes the matrix, the object-space point at t maps back to the world point at the same t, so hit parameters need no conversion |
| Intersections.SphereHit | a7/src/ray2/surface/Sphere.java:48-90 | a reported t lies strictly inside the window and the point at t lies on the sphere |
| Intersections.SphereHitIsNearest | a7/src/ray2/surface/Sphere.java:68-90 | for a non-zero direction, whenever some t' strictly inside the window lands on the sphere, a hit is reported and it is no later than t' |
| Intersections.ScalarRootsAreKnown | a7/src/ray2/surface/Sphere.java:80-82 | every root of the quadratic is one of the two values the code computes |
| Intersections.FirstInWindow | a7/src/ray2/surface/Sphere.java:84-90 | the chosen value is one of the two roots and lies strictly inside the window |
| Intersections.FirstInWindowIsNearest | a7/src/ray2/surface/Sphere.java:84-90 | with ordered roots, the choice is no later than any root inside the window |
| Intersections.SphereHitShorter | a7/src/ray2/surface/Sphere.java:84-90 | shortening the window to e gives exactly the old hit when it lies before e, and none otherwise |
| Intersections.CramerScaled | a7/src/ray2/surface/Triangle.java:83-101 | the numerators for t, beta and gamma solve the triangle's linear system scaled by the determinant M |
| Intersections.CramerUnique | a7/src/ray2/surface/Triangle.java:83-101 | every solution of the system, multiplied by M, gives back those numerators |
| Intersections.SolvesIsPoint | a7/src/ray2/surface/Triangle.java:45-51 | solving the system with columns v0−v1, v0−v2 and the direction means the ray's point at t equals the point with barycentric weights (1−beta−gamma, beta, gamma) |
| Intersections.Cramer | a7/src/ray2/surface/Triangle.java:83-101 | a solution exists exactly when M is non-zero, and it solves the system |
| Intersections.TriangleHit | a7/src/ray2/surface/Triangle.java:68-103 | a reported t lies in the closed window [start, end] |
| Intersections.TriangleHitOnTriangle | a7/src/ray2/surface/Triangle.java:93-103 | a reported hit has weights inside the triangle and the ray's point at t is that convex combination of the corners |
| Intersections.TriangleHitComplete | a7/src/ray2/surface/Triangle.java:93-103 | conversely, when M is non-zero any point of the triangle on the ray at a t in the window is reported, at exactly that t |
| Intersections.TriangleHitShorter | a7/src/ray2/surface/Triangle.java:94-95 | the window's end only rejects late hits, so a shorter window keeps exactly the hits before its end |
| Intersections.SphereRecord | a7/src/ray2/surface/Sphere.java:92-107 | a record is filled exactly when the object-space sphere is hit, with that t, and its location is the world ray's point at t |
| Intersections.SphereRecordAt | a7/src/ray2/surface/Sphere.java:94-105 | the record's t is the hit parameter and its location is the object-space point taken through the matrix |
| Intersections.SphereNormalIsRadius | a7/src/ray2/surface/Sphere.java:97-106 | the object-space normal is the outward unit radius at the hit point, and the record holds its image under the inverse transpose |
| Intersections.TriangleRecord | a7/src/ray2/surface/Triangle.java:105-133 | a record is filled exactly when the object-space triangle is hit, with that t and the world location at t; for weights (β, γ) in the triangle that place the corners' combination at the hit, the normal is the flat normal or the (1 − β − γ, β, γ) blend of the vertex normals, taken through the inverse transpose and normalised, and the uv is the same blend of the vertex uvs when the face has them |
| Intersections.TriangleRecordShading | a7/src/ray2/surface/Triangle.java:98-133 | those weights are unique: every (β, γ) whose combination of the corners is the object-space hit point gives the recorded normal and uv |
| Intersections.FlatNormalPerpendicular | a7/src/ray2/surface/Triangle.java:37-43 | without vertex normals, the world normal is perpendicular to both world edges from v0 when the inverse transpose is consistent with the matrix |
| Intersections.PerpendicularScaled | a7/src/ray2/surface/Triangle.java:127 | normalising the normal keeps it perpendicular to the edges |
| Intersections.RootsOnSphere | a7/src/ray2/surface/Sphere.java:68-82 | with a non-negative discriminant both roots the code computes put the ray's point on the sphere |
| CylinderHits.SideIsFlatSphere | a7/src/ray2/surface/Cylinder.java:61-68 | a root of the side quadratic puts the ray's point at distance radius from the axis |
| CylinderHits.FaceAgainst | a7/src/ray2/surface/Cylinder.java:141-142 | the turned normal never points along the direction, is the normal or its negation, and is left alone when it already faces the ray |
| CylinderHits.SideChoice | a7/src/ray2/surface/Cylinder.java:66-110 | a direction along the axis (dd = d.x² + d.y² = 0) leaves t at its initial 0; otherwise a non-zero t is a root of the side quadratic strictly inside the window |
| CylinderHits.SideChoiceNearest | a7/src/ray2/surface/Cylinder.java:95-110 | with dd > 0, whenever some root of the side quadratic lies strictly inside the window, the chosen t is an in-window root no later than it |
| CylinderHits.CylinderHitAsWritten | a7/src/ray2/surface/Cylinder.java:48-151 | the code as written: a reported normal faces against the ray |
| CylinderHits.AcceptAsWritten | a7/src/ray2/surface/Cylinder.java:83-142 | after the cap-slab clamp, a reported normal faces against the ray |
| CylinderHits.RootsBehind | a7/src/ray2/surface/Cylinder.java:101-110 | for a ray starting outside the radius and moving away from the axis, neither root is accepted and t stays 0 |
| CylinderHits.AsWrittenReportsOrigin | a7/src/ray2/surface/Cylinder.java:105-139 | for such a ray starting between the cap planes, the code reports a side hit at t = 0, a point not on the cylinder (see Findings) |
| CylinderHits.AcceptSide | a7/src/ray2/surface/Cylinder.java:122-139 | a t inside the clamped window and after the first cap plane is reported as a side hit at t |
| CylinderHits.EscapingRayLeavesOutward | a7/src/ray2/surface/Cylinder.java:48-151 | the ray from (5, 0, 0) along (1, 0, 1) and the unit cylinder at the origin meet the conditions of AsWrittenReportsOrigin |
| CylinderHits.Keep | a7/src/ray2/surface/Cylinder.java:105-110 | a candidate is kept exactly when its check holds and it lies strictly inside the window |
| CylinderHits.Nearer | a7/src/ray2/surface/Cylinder.java:128-139 | the nearer of two candidates is one of them and no later than either |
| CylinderHits.SideCandidates | a7/src/ray2/surface/Cylinder.java:90-110 | a side candidate lies on the curved side between the cap planes, strictly inside the window, with the normal against the ray |
| CylinderHits.CapAt | a7/src/ray2/surface/Cylinder.java:75-82 | a cap candidate lies on the cap plane within the radius, strictly inside the window |
| CylinderHits.CapPlaneTime | a7/src/ray2/surface/Cylinder.java:75-82 | the ray meets the plane z = zc exactly at (zc − o.z) / d.z |
| CylinderHits.CapCandidates | a7/src/ray2/surface/Cylinder.java:75-134 | a cap candidate lies on one of the end discs, strictly inside the window, with the normal against the ray |
| CylinderHits.CylinderHit | a7/src/ray2/surface/Cylinder.java:48-151 | the intended intersection: a reported t lies strictly inside the window, its point is on the cylinder and its normal faces against the ray |
| CylinderHits.CylinderHitIsNearest | a7/src/ray2/surface/Cylinder.java:48-151 | any t' in the window whose point is on the side or on a cap is reported or beaten: the hit is the nearest |
| CylinderHits.SideIsCandidate | a7/src/ray2/surface/Cylinder.java:90-110 | every side point in the window bounds the side candidate |
| CylinderHits.CapIsCandidate | a7/src/ray2/surface/Cylinder.java:75-82 | every cap point in the window bounds the cap candidate |
| CylinderHits.CylinderHitShorter | a7/src/ray2/surface/Cylinder.java:105-110 | a shorter window keeps the hit exactly when it lies before the new end |
| CylinderHits.OutwardStaysOutside | a7/src/ray2/surface/Cylinder.java:117-124 | a ray starting outside the radius and moving away from the axis stays outside it for every t > 0 |
| CylinderHits.CorrectedMissesOutward | a7/src/ray2/surface/Cylinder.java:48-151 | the intended intersection reports no hit for those rays |
| CylinderHits.CapEntryAsWritten | a7/src/ray2/surface/Cylinder.java:105-139 | for a ray with cap times (4, 6) whose near side root lies behind it, the code as written reports the far side root t = 5 with a side normal |
| CylinderHits.CapEntryRayAsWritten | a7/src/ray2/surface/Cylinder.java:105-139 | the ray from (0, 0, 5) along (0.2, 0, −1) is reported at t = 5, on its way out through the side, though its point at t = 4 is already on the top cap (see Findings) |
| CylinderHits.CapEntryCorrected | a7/src/ray2/surface/Cylinder.java:75-139 | the intended intersection reports a hit for that ray no later than t = 4, its cap entry |
| SurfaceHits.ObjectHit | a7/src/ray2/surface/Surface.java:75-85 | a reported object-space parameter lies in the window, its point lies on the surface, and only renderable surfaces (sphere, cylinder, triangle) are hit |
| SurfaceHits.SurfaceHit | a7/src/ray2/surface/Surface.java:53-85 | the world-space hit found through the inverse matrix lies in the world ray's window |
| SurfaceHits.OnSurfaceInBounds | a7/src/ray2/surface/Surface.java:87-91 | a point on a surface, taken through the surface's matrix, lies inside the bounding box `computeBoundingBox` stores |
| SurfaceHits.CylinderBetweenCaps | a7/src/ray2/surface/Cylinder.java:153-187 | a point on the cylinder lies within half the height of the centre along the axis and within the radius of the axis |
| SurfaceHits.SurfaceHitInBounds | a7/src/ray2/surface/Surface.java:29-91 | every hit of a world ray on a surface lies inside the surface's bounding box, which is what lets the BVH skip boxes the ray misses |
| SurfaceHits.ItemSound | a7/src/ray2/accel/Bvh.java:77-78 | each surface with consistent matrices is a sound BVH item: its hits lie in its box |
| SurfaceHits.ObjectHitShorter | a7/src/ray2/surface/Surface.java:75-85 | a shorter window finds the same object-space hit when it lies before the new end |
| SurfaceHits.HitFnConsistent | a7/src/ray2/accel/Bvh.java:81-99 | the surfaces' hit function is consistent under shortening the window, as the BVH's nearest-hit search needs |
| SurfaceHits.CylinderRecord | a7/src/ray2/surface/Cylinder.java:126-148 | a record is filled exactly when the cylinder is hit, with that t and the world location at t; its normal is normalised (or zero) |
| SurfaceHits.RecordOf | a7/src/ray2/surface/Surface.java:75-85 | for every surface, a record is filled exactly when the surface is hit, with that t and the world location at t |
| Cameras.ViewFrameOrthonormal | a7/src/ray2/camera/PerspectiveCamera.java:35-37 | unless viewUp is parallel to the facing direction, U, V, W are unit, mutually orthogonal, V = W × U, and W points along the facing direction |
| Cameras.ProjNormal | a7/src/ray2/camera/ParallelCamera.java:32-34 | a zero projNormal is replaced by viewDir; any other is kept |
| Cameras.InitParallel | a7/src/ray2/camera/ParallelCamera.java:30-45 | W never points along viewDir, is the unit projNormal or its negation, and the centre direction is the unit viewDir |
| Cameras.InitPerspective | a7/src/ray2/camera/PerspectiveCamera.java:34-39 | W is the unit −viewDir, and for a positive projDistance the centre direction points along viewDir |
| Cameras.WindowOffset | a7/src/ray2/camera/ParallelCamera.java:58-64 | image coordinates 0, 1/2 and 1 go to the window's lower edge, centre and upper edge |
| Cameras.GetRay | a7/src/ray2/camera/ParallelCamera.java:56-69 | the ray's window is [eps, ∞); a parallel ray looks along the centre direction and a perspective ray starts at the eye |
| Cameras.ParallelCentre | a7/src/ray2/camera/ParallelCamera.java:58-64 | the ray through the image centre starts at the view point |
| Cameras.PerspectiveCentre | a7/src/ray2/camera/PerspectiveCamera.java:48-61 | the ray through the image centre points along viewDir |
| Cameras.WindowCoordinates | a7/src/ray2/camera/ParallelCamera.java:62-64 | over an orthonormal frame, the window vector's U and V coordinates are the two offsets, and it has no W part |
| Cameras.ImageCoordinateInverts | a7/src/ray2/camera/ParallelCamera.java:58-64 | the window offset is invertible for a non-zero extent: the image coordinate is recovered from it |
| Cameras.ParallelRayRecoversImagePoint | a7/src/ray2/camera/ParallelCamera.java:56-69 | the parallel camera is one to one: the image point is recovered from the ray's origin, which lies in the image plane |
| Cameras.PerspectiveRayThroughWindow | a7/src/ray2/camera/PerspectiveCamera.java:48-61 | the normalised perspective ray reaches the eye plus centre direction plus window vector, at a parameter equal to that vector's length |
| Cameras.Init1 | a2/src/ray1/camera/PerspectiveCamera.java:35-40 | `init` builds the basis and changes nothing else |
| Cameras.RemapAffine | a2/src/ray1/camera/OrthographicCamera.java:55-77 | remapU and remapV send 0, 1/2 and 1 to the window's edges and centre, are affine with slope the extent, and agree with the newer camera's offset |
| Cameras.GetRay1 | a2/src/ray1/camera/OrthographicCamera.java:33-47 | the basis is built on the first call only; the window is [eps, ∞); an orthographic ray looks along viewDir and a perspective ray starts at the eye |
| Cameras.LazyInitInvisible | a2/src/ray1/camera/PerspectiveCamera.java:52-67 | building the basis lazily gives the same ray as building it first, and later calls leave the camera unchanged |
| Cameras.GetRay1Parts | a2/src/ray1/camera/PerspectiveCamera.java:57-64 | the orthographic origin is the view point plus the window vector, and the perspective direction is −projDistance W plus the window vector |
| Cameras.OrthographicCentre | a2/src/ray1/camera/OrthographicCamera.java:38-42 | the ray through the image centre starts at the view point |
| Cameras.PerspectiveCentre1 | a2/src/ray1/camera/PerspectiveCamera.java:59-64 | the ray through the image centre points along −projDistance W |
| Cameras.Ray1FrameMatchesRay2 | a2/src/ray1/camera/PerspectiveCamera.java:35-40 | the older camera's basis equals the newer one's whenever viewDir is not parallel to viewUp |
| Scenes.NewScene | a7/src/ray2/Scene.java:34-89 | a fresh scene has a positive exposure and no surfaces or lights |
| Scenes.SetExposure | a7/src/ray2/Scene.java:45-47 | a positive value is installed, a non-positive one is ignored, so the exposure stays positive, and nothing else changes |
| Scenes.ExposureStaysPositive | a7/src/ray2/Scene.java:45-47 | after any run of `setExposure` calls the exposure is still positive and equals the last positive value given (or the starting one) |
| Scenes.LastPositiveShift | a7/src/ray2/Scene.java:45-47 | the last positive value of a run is found by folding in the first value and continuing with the rest |
| Scenes.GetSamples | a7/src/ray2/Scene.java:83 | a sample count of 0 reads as 1; any other is returned as set |
| Scenes.RoundSqrt | a7/src/ray2/Scene.java:84 | for n > 0 the result k ≥ 1 satisfies k² − k < n ≤ k² + k; for n ≤ 0 it is 0 |
| Scenes.RoundSqrtFrom | a7/src/ray2/Scene.java:84 | the upward search finds a k no smaller than its start that satisfies the rounding interval |
| Scenes.RoundSqrtRounds | a7/src/ray2/Scene.java:84 | the search result is `Math.round(Math.sqrt(n))`: k − 1/2 ≤ √n < k + 1/2 |
| Scenes.RoundSqrtUnique | a7/src/ray2/Scene.java:84 | no other integer rounds √n, so the search is the rounding |
| Scenes.RoundsRootInInts | a7/src/ray2/Scene.java:84 | for k ≥ 1, rounding √n to k is the integer condition k² − k < n ≤ k² + k |
| Scenes.IntervalsOrdered | a7/src/ray2/Scene.java:84 | the rounding intervals of successive k follow one another without overlap |
| Scenes.SetSamples | a7/src/ray2/Scene.java:84 | a positive request stores the rounded square root, a non-positive one stores 0, and nothing else changes |
| Scenes.SquareSamples | a7/src/ray2/Scene.java:83-84 | asking for m² samples gives m per axis |
| Scenes.AddLight | a7/src/ray2/Scene.java:52 | the light is appended and nothing else changes |
| Scenes.AddSurface | a7/src/ray2/Scene.java:57 | the surface is appended and nothing else changes |
| Scenes.AddTexture | a7/src/ray2/Scene.java:63 | the texture is appended and nothing else changes |
| Scenes.AddShader | a7/src/ray2/Scene.java:68 | the shader is appended and nothing else changes |
| Scenes.SetTransform | a7/src/ray2/Scene.java:94-101 | every top-level surface, and only those, is placed under the identity |
| Scenes.SetTransformationIdempotent | a7/src/ray2/surface/Group.java:33-48 | placing a surface twice under the same matrix is placing it once |
| Scenes.SetTransformIdempotent | a7/src/ray2/Scene.java:94-101 | running `setTransform` again changes nothing |
| Scenes.RenderablesAppend | a7/src/ray2/Scene.java:108-112 | adding a surface adds its renderables after the earlier ones, in list order |
| Scenes.RenderablesRenderable | a7/src/ray2/Scene.java:108-116 | only spheres, cylinders and triangles reach the BVH |
| Scenes.ItemsOf | a7/src/ray2/Scene.java:114-116 | one BVH entry per renderable, in order |
| Scenes.InitCamera | a7/src/ray2/Scene.java:119 | initialising the camera keeps its kind, view point and view direction |
| Scenes.InitLights | a7/src/ray2/Scene.java:122-124 | every light is initialised, in order |
| Scenes.Init | a7/src/ray2/Scene.java:103-135 | init succeeds exactly when there is a camera and every renderable has a box; then the surfaces are placed, the BVH is built over exactly the renderables (a reordering of their entries), the camera and lights are initialised, and nothing else changes |
| Scenes.BuiltInBounds | a7/src/ray2/accel/Bvh.java:122-125 | a built tree indexes only entries of its array |
| Scenes.FirstIntersection | a7/src/ray2/Scene.java:146-149 | with no tree, no hit is reported and the record is returned unchanged |
| Scenes.FirstIntersectionRecord | a7/src/ray2/Scene.java:146-149 | from an empty record, the record is filled exactly when a hit is reported |
| Scenes.AnyIntersection | a7/src/ray2/Scene.java:158-160 | with no tree, nothing is hit |
| Scenes.LeafTestIsHitInWindow | a7/src/ray2/accel/Bvh.java:81-99 | the BVH's leaf test on a surface is the surface's own hit, kept when strictly before the ray's end |
| Scenes.FirstIntersectionIsNearest | a7/src/ray2/Scene.java:103-160 | after init, `getFirstIntersection` reports a hit exactly when some renderable is hit in the window, and then one of the nearest; `getAnyIntersection` answers the same question |
| Scenes.BuiltFindsNearest | a7/src/ray2/accel/Bvh.java:49-125 | searching a BVH built from the renderables is searching the renderables themselves |
| Scenes.BuildSearchesList | a7/src/ray2/accel/Bvh.java:122-202 | for any consistent hit test with sound entries, the built tree finds a hit exactly when the list has one, and the nearest one |
| Scenes.NonEmptyBuildSearchesList | a7/src/ray2/accel/Bvh.java:122-202 | the same for a non-empty list, whose tree exists and indexes only its array |
| Scenes.ItemsSound | a7/src/ray2/accel/Bvh.java:77-78 | every entry of surfaces with consistent matrices is sound for the hit test |
| Scenes.EntryInList | a7/src/ray2/accel/Bvh.java:192-193 | each entry of the reordered array holds some surface of the list |
| Scenes.ListInEntries | a7/src/ray2/accel/Bvh.java:192-193 | each surface of the list sits in some entry of the reordered array |
| Scenes.EntryHitIsSurfaceHit | a7/src/ray2/accel/Bvh.java:81-99 | a hit entry of the array is a hit surface of the list |
| Scenes.SurfaceHitIsEntryHit | a7/src/ray2/accel/Bvh.java:81-99 | a hit surface of the list is a hit entry of the array |
| Scenes.NearestTransfers | a7/src/ray2/accel/Bvh.java:81-99 | a nearest hit among the array's entries is a nearest hit among the list's surfaces |
| Tracer.OffsetRay | a7/src/ray2/shader/Glass.java:87-89 | the new ray starts at the hit point along the given direction with the window [eps, ∞) of `makeOffsetRay` |
| Tracer.Background | a7/src/ray2/RayTracer.java:280-286 | without a cubemap a missed ray takes the background colour |
| Tracer.ShadowRay | a7/src/ray2/shader/Shader.java:59-69 | the shadow ray runs from the hit point towards the light along the unit direction, from eps up to the light's distance |
| Tracer.ShadeRay | a7/src/ray2/RayTracer.java:271-292 | past `MAX_DEPTH` = 12 the colour is black; a ray that hits nothing takes the background; the mutual recursion with the shaders terminates because every further ray is one level deeper |
| Tracer.BlendInBox | a7/src/ray2/shader/Glass.java:109-111 | with R in [0, 1] the mix R·reflection + (1 − R)·other stays between bounds both colours respect |
| Tracer.BetweenChannel | a7/src/ray2/shader/Glazed.java:69-75 | one channel of such a mix stays between the bounds |
| Tracer.LastLevelSpecularIsBlack | a7/src/ray2/shader/Glass.java:91-107 | a glass hit at the last level traces its new rays past the cut-off, so it is black |
| Tracer.GlassWeight | a7/src/ray2/shader/Glass.java:71-85 | for a positive refractive index the glass's reflectance weight lies in [0, 1] whether the ray comes from outside, inside or grazes the surface |
| Tracer.MirrorSceneBounded | a7/src/ray2/RayTracer.java:271-292 | in a scene of glass and glazes with positive refractive indices every traced colour lies in any box that holds the background and black: reflection and refraction only mix what the rays see |
| Tracer.ShadeBounded | a7/src/ray2/RayTracer.java:288-289 | the same bound for a specular shader at a hit, the glaze's substrate included |
| Tracer.HitBounded | a7/src/ray2/RayTracer.java:271-292 | in such a scene a ray that hits a surface is shaded by a specular shader, so its colour stays in the box |
| Tracer.GlassBounded | a7/src/ray2/shader/Glass.java:55-113 | the glass colour stays in the box: both traced rays do, and the blend keeps it there |
| Tracer.GlassBlendInBox | a7/src/ray2/shader/Glass.java:94-112 | under total internal reflection the glass colour is the reflected one; otherwise it blends reflection and refraction with the Fresnel weight, so bounds both satisfy carry over |
| Tracer.GlazeBounded | a7/src/ray2/shader/Glazed.java:51-76 | a glaze with positive index over a specular substrate blends two in-box colours, so its colour stays in the box |
| BlockSpirals.GridSize | a7/src/ray2/BlockSpiral.java:33-34 | a positive extent gives at least one block per axis |
| BlockSpirals.GridSizeCovers | a7/src/ray2/BlockSpiral.java:33-34 | the grid has the fewest 32-pixel blocks that cover the extent |
| BlockSpirals.InitSpiral | a7/src/ray2/BlockSpiral.java:31-41 | the grid sizes and total are set from the image size, and the spiral starts heading +Y with two moves left on runs of one |
| BlockSpirals.Step | a7/src/ray2/BlockSpiral.java:49-65 | one step keeps the grid and moves the cell one place along the new direction |
| BlockSpirals.Increment | a7/src/ray2/BlockSpiral.java:46-67 | the spiral stops only on a cell inside the grid, and the grid is kept |
| BlockSpirals.TurnCycles | a7/src/ray2/BlockSpiral.java:50-52 | four turns bring the direction back, passing through all four directions |
| BlockSpirals.StepMovesOneCell | a7/src/ray2/BlockSpiral.java:57-64 | every step moves exactly one cell along a grid axis |
| BlockSpirals.StepTurnsWhenRunEnds | a7/src/ray2/BlockSpiral.java:49-65 | with moves left the direction and run length are kept and one move is used; with none left the direction turns, the run lengthens exactly when turning onto ±Y, and one move of the new run is used |
| BlockSpirals.IncrementsKeepCounters | a7/src/ray2/BlockSpiral.java:46-67 | any number of increments keeps the moves left non-negative and runs at least one cell long |
| BlockSpirals.IncrementKeepsCounters | a7/src/ray2/BlockSpiral.java:46-67 | one increment keeps those counters sane |
| BlockSpirals.RenderedCellsInGrid | a7/src/ray2/RayTracer.java:231-241 | the initial spiral has sane counters, and every cell handed to the renderer after an increment lies in the grid |
| BlockSpirals.LastIncrementInGrid | a7/src/ray2/BlockSpiral.java:66 | the cell after at least one increment lies in the grid |
| Render.SampleInsidePixel | a7/src/ray2/RayTracer.java:335-336 | every sample position of a pixel lies strictly inside that pixel's span of the image |
| Render.SamplesEvenlySpaced | a7/src/ray2/RayTracer.java:335-336 | neighbouring samples are one n-th of a pixel apart |
| Render.Row | a7/src/ray2/RayTracer.java:333-340 | the inner loop yields m values, the j-th being the value at (i, j) |
| Render.Grid | a7/src/ray2/RayTracer.java:332-341 | the nested loops yield m·n values |
| Render.GridAt | a7/src/ray2/RayTracer.java:332-341 | the value for (i, j) is the (i·n + j)-th produced: row-major order |
| Render.GridConst | a7/src/ray2/RayTracer.java:332-341 | when every loop value is c, every produced value is c |
| Render.Samples | a7/src/ray2/RayTracer.java:316-341 | a pixel takes samples² colours, samples being `getSamples` |
| Render.SampleOrder | a7/src/ray2/RayTracer.java:332-340 | sample (i, j) is the colour of the camera ray through the i-th and j-th sample positions traced at depth 1, added (i·n + j)-th |
| Render.AccumulateConst | a7/src/ray2/RayTracer.java:339 | adding k copies of one colour gives k times it |
| Render.SInvSqr | a7/src/ray2/RayTracer.java:316-319 | `sInvSqr` = (1/samples)² undoes a factor samples² |
| Render.Pixel | a7/src/ray2/RayTracer.java:316-342 | the colour written at a pixel, multiplied back by samples², is the exposure times the sum of its samples² sample colours |
| Render.AverageTimesCount | a7/src/ray2/RayTracer.java:342 | scaling the summed samples by `sInvSqr` and the exposure, then twice by n, gives the exposure times the sum |
| Render.MeanOfConst | a7/src/ray2/RayTracer.java:317-342 | a colour summed from nn copies of c, scaled by a factor q with q·nn = 1 and then by the exposure, is c times the exposure |
| Render.PixelOfUniformSamples | a7/src/ray2/RayTracer.java:304-347 | when every sample of a pixel brings back c, the pixel written is c times the exposure: supersampling averages |
| Render.SamplesConst | a7/src/ray2/RayTracer.java:332-341 | when every sample colour is c, every accumulated sample is c |
| Render.AverageOfConst | a7/src/ray2/RayTracer.java:342 | the scaled average of n² copies of c is c scaled |
| Render.EmptyScenePixel | a7/src/ray2/RayTracer.java:280-342 | in a scene with no surfaces and no cube map every pixel is the background times the exposure |
| Render.BlockOf | a7/src/ray2/RayTracer.java:242-245 | the block of cell (cx, cy) starts at (32·cx, 32·cy) |
| Render.Column | a7/src/ray2/RayTracer.java:325 | the inner loop visits (x, oy), (x, oy + 1), … in order |
| Render.BlockPixelsExact | a7/src/ray2/RayTracer.java:324-346 | a block writes exactly the pixels of its rectangle, each once |
| Render.BlockInImage | a7/src/ray2/RayTracer.java:242-245 | the block of a grid cell is a non-empty rectangle of at most 32 × 32 pixels inside the image |
| Render.CellStartsInside | a7/src/ray2/RayTracer.java:242-243 | a grid cell's first pixel lies inside the image |
| Render.PixelInOneBlock | a7/src/ray2/RayTracer.java:242-245 | every pixel of the image lies in the block of exactly one grid cell, the one at (x / 32, y / 32) |
| Render.CellOfCoordinate | a7/src/ray2/RayTracer.java:242-245 | along one axis, a coordinate lies in exactly one cell's span |
| Render.RenderBlock | a7/src/ray2/RayTracer.java:304-347 | the block writes its pixels in loop order, each inside the image, with the pixel colour the samples give |
| Render.Tag | a7/src/ray2/RayTracer.java:343 | each pixel is paired, in order, with its colour |
| Render.BlockOrder | a7/src/ray2/RayTracer.java:238-247 | k increments name k blocks |
| Render.BlockOrderInImage | a7/src/ray2/RayTracer.java:238-247 | every block the loop renders is a non-empty rectangle of at most 32 × 32 pixels inside the image |
| Render.ImageBlocks | a7/src/ray2/RayTracer.java:231-247 | the loop renders `totalSubblocks` = numSubX·numSubY blocks |
| Ray1Surfaces.Triangle1Hit | a2/src/ray1/surface/Triangle.java:68-89 | a reported t lies in the closed window [start, end] |
| Ray1Surfaces.Triangle1AgreesWithRay2 | a2/src/ray1/surface/Triangle.java:76-88 | checking gamma before beta, with beta ≤ 1 − gamma, accepts exactly the hits the newer triangle accepts, at the same t |
| Ray1Surfaces.Triangle1HitExact | a2/src/ray1/surface/Triangle.java:68-89 | a hit lands on the triangle, and when the ray is not parallel to its plane every point of the triangle in the window is found at its t |
| Ray1Surfaces.Triangle1Record | a2/src/ray1/surface/Triangle.java:90-113 | a record is filled exactly when the triangle is hit, with that t and the point o + t·d; for weights (β, γ) in the triangle that place the corners' combination at that point, the normal is the normalised flat normal or (α, β, γ) blend of the vertex normals, and the uv is the same blend of the vertex uvs when the face has them |
| Ray1Surfaces.Triangle1RecordShading | a2/src/ray1/surface/Triangle.java:78-112 | those weights are unique: every (β, γ) whose combination of the corners is the hit point gives the recorded normal and uv |
| Ray1Surfaces.Sphere1Hit | a2/src/ray1/surface/Sphere.java:47-68 | as written: except on a tangent ray, a reported t lies strictly inside the window |
| Ray1Surfaces.Sphere1HitOnSphere | a2/src/ray1/surface/Sphere.java:55-68 | every reported hit, the tangent one included, lies on the sphere |
| Ray1Surfaces.TangentHitBehindOrigin | a2/src/ray1/surface/Sphere.java:57-58 | the ray from (0, 1, z), z > 0, along +z grazes the unit sphere at t = −z, before the window's start, and the hit is still reported (see Findings) |
| Ray1Surfaces.Sphere1Tangent | a2/src/ray1/surface/Sphere.java:57-58 | on a tangent ray the single root −B/A is reported whatever the window |
| Ray1Surfaces.Sphere1HitChecked | a2/src/ray1/surface/Sphere.java:47-68 | the corrected tangent branch: a reported t lies strictly inside the window and its point lies on the sphere |
| Ray1Surfaces.Sphere1CheckedAgreesWithRay2 | a2/src/ray1/surface/Sphere.java:55-68 | with the window check on the tangent branch the older sphere agrees with the newer one on every ray |
| Ray1Surfaces.Sphere1DiffersOnlyWhenTangent | a2/src/ray1/surface/Sphere.java:57-58 | as written, the two generations differ only on tangent rays, and only by reporting a t outside the window |
| Ray1Surfaces.Sphere1Record | a2/src/ray1/surface/Sphere.java:70-82 | a record is filled exactly when the (corrected) sphere is hit, with that t and the point o + t·d |
| Ray1Surfaces.Sphere1NormalOutward | a2/src/ray1/surface/Sphere.java:73 | the recorded normal is a unit vector pointing from the centre to the hit point |
| Animation.Initial | a6/src/anim/AnimationEngine.java:31-47 | a new engine has frames 0 to 100 (101 frames), the pointer at the first frame, Euler rotations |
| Animation.MoveToFrame | a6/src/anim/AnimationEngine.java:113-119 | the frame is clamped onto the timeline: kept when on it, else the nearer end; the bounds and mode are kept |
| Animation.SetTimelineBounds | a6/src/anim/AnimationEngine.java:71-82 | the bounds are installed in order whichever order they are given, and the pointer is kept when it lies between them, else clamped |
| Animation.Advance | a6/src/anim/AnimationEngine.java:127-131 | advancing changes only the pointer |
| Animation.Rewind | a6/src/anim/AnimationEngine.java:139-143 | rewinding changes only the pointer |
| Animation.Ratio | a6/src/anim/AnimationEngine.java:300-306 | equal ends give 0; otherwise ratio·(max − min) = cur − min, and a frame between min and max gives a ratio in [0, 1] |
| Animation.Toggle | a6/src/anim/AnimationEngine.java:192-207 | toggling always changes the mode |
| Animation.ToggleRotationMode | a6/src/anim/AnimationEngine.java:192-207 | only the mode changes |
| Animation.MoveToFrameIdempotent | a6/src/anim/AnimationEngine.java:113-119 | clamping twice is clamping once, and a pointer on the timeline stays where it is |
| Animation.MoveToFrameNearest | a6/src/anim/AnimationEngine.java:106-119 | the clamped frame is the frame of the timeline nearest the one asked for |
| Animation.SetTimelineBoundsSymmetric | a6/src/anim/AnimationEngine.java:73-77 | the order of the two bounds does not matter |
| Animation.ValidHasFrames | a6/src/anim/AnimationEngine.java:157-159 | a valid timeline has at least one frame |
| Animation.AdvanceWraps | a6/src/anim/AnimationEngine.java:127-131 | within one lap, advancing is addition modulo the number of frames, and the pointer stays on the timeline |
| Animation.RewindWraps | a6/src/anim/AnimationEngine.java:139-143 | within one lap, rewinding is subtraction modulo the number of frames, and the pointer stays on the timeline |
| Animation.AdvanceThenRewind | a6/src/anim/AnimationEngine.java:121-143 | rewinding by the frames just advanced returns to the starting frame |
| Animation.RewindThenAdvance | a6/src/anim/AnimationEngine.java:121-143 | advancing by the frames just rewound returns to the starting frame |
| Animation.FullLap | a6/src/anim/AnimationEngine.java:127-143 | a whole lap forwards or backwards comes back to the same frame |
| Animation.ToggleCycles | a6/src/anim/AnimationEngine.java:192-205 | three toggles restore the mode, and two do not |
| Beziers.Unit2 | a5/src/splines/CubicBezier.java:71-72 | the normalised vector is a multiple of the input, and a zero vector stays zero |
| Beziers.Left | a5/src/splines/CubicBezier.java:95-105 | the first half starts at p0 |
| Beziers.Right | a5/src/splines/CubicBezier.java:95-111 | the second half ends at p3 and starts where the first half ends |
| Beziers.Subdivide | a5/src/splines/CubicBezier.java:81-113 | the point and tangent lists stay the same length, one entry per split performed (`Count`), whatever the flatness test decides |
| Beziers.Halves | a5/src/splines/CubicBezier.java:95-111 | the second half starts where the first half ends, at p30 |
| Beziers.CountBound | a5/src/splines/CubicBezier.java:82-84 | below depth d at most 2^(10 − d) − 1 points are stored, and none at depth 10 |
| Beziers.Tessellate | a5/src/splines/CubicBezier.java:67-79 | the lists are parallel and framed, hold between 1 and 1024 points, and start with p0 and the unit tangent p1 − p0 |
| Beziers.MidpointFormula | a5/src/splines/CubicBezier.java:95-100 | the inserted point p30 is (p0 + 3p1 + 3p2 + p3)/8, the curve's point at t = 1/2 |
| Beziers.Mirror | a5/src/splines/CubicBezier.java:95-100 | the Bernstein form read backwards is the same curve run backwards, which is why `lerp` from either end gives the same midpoint |
| Beziers.LeftHalf | a5/src/splines/CubicBezier.java:95-105 | the first half's control points trace the curve's parameters 0 to 1/2 |
| Beziers.RightHalf | a5/src/splines/CubicBezier.java:95-111 | the second half's control points trace the parameters 1/2 to 1 |
| Beziers.MidTangentIsDerivative | a5/src/splines/CubicBezier.java:102 | the midpoint's tangent p21 − p20 is a third of the curve's derivative there |
| Beziers.NormalsPerpendicular | a5/src/splines/CubicBezier.java:72-103 | every stored normal is perpendicular to its tangent |
| Beziers.NormalsOfAt | a5/src/splines/CubicBezier.java:72-75 | the k-th stored normal is the normalised quarter turn of the k-th tangent, for every k |
| Beziers.NormalPerpendicular | a5/src/splines/CubicBezier.java:103 | the normal `new Vector2(t.y, -t.x).normalize()` is perpendicular to its tangent t |
| Beziers.IncreasingJoin | a5/src/splines/CubicBezier.java:105-111 | increasing parameters on adjacent intervals joined at the midpoint stay increasing |
| Beziers.ParamsCount | a5/src/splines/CubicBezier.java:81-113 | there is one parameter per stored point |
| Beziers.ParamsIncreasing | a5/src/splines/CubicBezier.java:81-113 | the stored points' parameters increase and lie strictly inside the piece's interval |
| Beziers.RestrictLeft | a5/src/splines/CubicBezier.java:105 | the first half of a piece traces the first half of its parameter interval |
| Beziers.RestrictRight | a5/src/splines/CubicBezier.java:111 | the second half of a piece traces the second half of its parameter interval |
| Beziers.RestrictMid | a5/src/splines/CubicBezier.java:107 | the midpoint of a piece is the original curve's point at the middle parameter |
| Beziers.HalvesBisect | a5/src/splines/CubicBezier.java:95-111 | de Casteljau halving cuts every piece of the curve into the pieces over the two halves of its parameter interval, the second starting at the middle point |
| Beziers.TabulatesJoin | a5/src/splines/CubicBezier.java:105-111 | first-half points, the midpoint, then second-half points, each on the curve at its parameter, stay on the curve at the joined parameters |
| Beziers.SubdivideOnCurve | a5/src/splines/CubicBezier.java:81-113 | every point stored while subdividing a piece is the original curve's point at its parameter |
| Beziers.SubdivisionOnCurve | a5/src/splines/CubicBezier.java:78-113 | the points subdividing the whole curve lie on it, one per parameter |
| Beziers.TessellationTabulates | a5/src/splines/CubicBezier.java:67-113 | p0 and then the subdivision points are the curve's points at 0 and then at the subdivision parameters |
| Beziers.TessellationOnCurve | a5/src/splines/CubicBezier.java:67-113 | every stored point lies on the curve, at parameters that start at 0 and strictly increase below 1 |
| Splines.Windows | a5/src/splines/SplineCurve.java:194-217 | a closed curve has one window per control point and an open one three fewer (none below three points) |
| Splines.Mod | a5/src/splines/SplineCurve.java:200-203 | the wrapped index `(idx + k) % n` is always a valid control-point index |
| Splines.ModIsRemainder | a5/src/splines/SplineCurve.java:200-203 | the wrap-around used for closed windows is Java's remainder on non-negative indices |
| Splines.Build | a5/src/splines/SplineCurve.java:204-205 | each segment carries the Bezier control points the subclass's basis change produces for its window |
| Splines.BuildAll | a5/src/splines/SplineCurve.java:199-216 | one segment per window, in window order, each built from its own window |
| Splines.SetBeziers | a5/src/splines/SplineCurve.java:191-219 | rebuilding leaves the control points, closedness and tolerance alone and leaves the segments in step with them |
| Splines.New | a5/src/splines/SplineCurve.java:31-45 | construction succeeds exactly when there are at least 3 (closed) or 4 (open) points, otherwise it throws; a built curve satisfies the class invariant |
| Splines.SetClosed | a5/src/splines/SplineCurve.java:51-59 | refused exactly for a closed three-point curve, which is left unchanged; otherwise the flag is set, points kept, segments rebuilt, and the invariant preserved |
| Splines.SetControlPoint | a5/src/splines/SplineCurve.java:65-68 | an in-range index replaces exactly that point and rebuilds the segments; any other index throws |
| Splines.ModifyEpsilon | a5/src/splines/SplineCurve.java:139-142 | the tolerance changes, the points and closedness do not, and the invariant is preserved |
| Splines.Choose | a5/src/splines/SplineCurve.java:86-111 | the selection loop returns -1 or an index of a leg that qualified |
| Splines.InsertIndex | a5/src/splines/SplineCurve.java:84-111 | the chosen index is -1 or a qualifying leg, never the missing leg before point 0 of an open curve |
| Splines.ChooseNearest | a5/src/splines/SplineCurve.java:86-111 | by induction over the loop: the result is -1 exactly when no leg qualifies, otherwise a nearest qualifying leg with every later one strictly farther |
| Splines.InsertIndexNearest | a5/src/splines/SplineCurve.java:100-110 | the insertion point is on the nearest leg within `DIST_THRESH` that the point projects strictly inside, the last of equally near ones |
| Splines.AddControlPoint | a5/src/splines/SplineCurve.java:70-120 | refused at 20 points or when no leg qualifies, leaving the curve unchanged; otherwise the point is inserted before the chosen index, one point more, segments rebuilt, invariant kept |
| Splines.RemoveControlPoint | a5/src/splines/SplineCurve.java:122-137 | refused at the minimum count, throws exactly for a bad index otherwise, and else removes exactly that point and rebuilds, keeping the invariant |
| Splines.AddThenRemove | a5/src/splines/SplineCurve.java:113-137 | removing the point just added, at the index it went in, restores the original curve |
| Splines.RemoveKeepsMinimum | a5/src/splines/SplineCurve.java:122-133 | removal never takes a curve below the minimum control-point count |
| Splines.WindowsChain | a5/src/splines/SplineCurve.java:197-216 | consecutive segments share three control points, so the segments chain in order |
| Splines.ClosedWindowsWrap | a5/src/splines/SplineCurve.java:197-206 | on a closed curve the last window runs back into the first, so the chain closes |
| Splines.ClosedWindowStarts | a5/src/splines/SplineCurve.java:199-200 | on a closed curve window i starts at control point i |
| Splines.FlattenAppend | a5/src/splines/SplineCurve.java:152-158 | joining per-segment lists distributes over concatenation of segment lists |
| Splines.FlattenSlice | a5/src/splines/SplineCurve.java:152-158 | each segment's list sits contiguously in the joined list after those of the earlier segments |
| Splines.GetPointsInOrder | a5/src/splines/SplineCurve.java:152-158 | `getPoints` lists every segment's tessellation points contiguously, in chain order |
| Splines.NegateAll | a5/src/splines/SplineCurve.java:225-230 | every vector is replaced by its negation, position by position |
| Splines.Reverse | a5/src/splines/SplineCurve.java:224-231 | reversing keeps the control points, closedness, segment count and tessellation points |
| Splines.ReverseTwice | a5/src/splines/SplineCurve.java:224-231 | reversing twice restores every tangent and normal |
| Revolution.Ring | a5/src/splines/SplineCurve.java:284-297 | a ring holds one entry per curve point plus the first point again |
| Revolution.Rings | a5/src/splines/SplineCurve.java:281-298 | the table holds rings x (points + 1) entries |
| Revolution.ZeroUvs | a5/src/splines/SplineCurve.java:290-297 | every texture coordinate written is (0, 0) |
| Revolution.RingsAt | a5/src/splines/SplineCurve.java:281-298 | entry j of ring r sits at index r (n + 1) + j and is curve point j on ring r, or the first point again at j = n |
| Revolution.SliceFaces | a5/src/splines/SplineCurve.java:303-327 | a slice contributes two triangles per quad |
| Revolution.SlicesFaces | a5/src/splines/SplineCurve.java:302-329 | the face list holds two triangles per quad of every slice |
| Revolution.AsWrittenFaces | a5/src/splines/SplineCurve.java:302-329 | the faces as written number 2 x slices x quads per slice, a closed curve having n quads per slice and an open one n - 1 |
| Revolution.Faces | a5/src/splines/SplineCurve.java:302-329 | the corrected faces come in the same number |
| Revolution.SlicesFacesAt | a5/src/splines/SplineCurve.java:302-326 | quad v of slice s is at position 2 (s cols + v), lower-right triangle first and then upper-left |
| Revolution.FacesAt | a5/src/splines/SplineCurve.java:302-326 | the corrected faces run slice by slice and point by point |
| Revolution.QuadFacts | a5/src/splines/SplineCurve.java:308-326 | with the ring stride both triangles of a quad take uv and normal from their own vertex, and every position index lies within rings 0 .. slices |
| Revolution.FacesAligned | a5/src/splines/SplineCurve.java:302-329 | every corrected face is aligned and lies within rings 0 .. slices |
| Revolution.Assemble | a5/src/splines/SplineCurve.java:274-330 | the mesh fails exactly when the curve has no points or no normals; otherwise it has rings x (n + 1) positions, as many zero uvs as normals, and the given faces |
| Revolution.AsWrittenRevolve | a5/src/splines/SplineCurve.java:274-330 | the revolution as written fails exactly on an empty curve |
| Revolution.Revolve | a5/src/splines/SplineCurve.java:274-330 | the corrected revolution fails exactly on an empty curve and otherwise carries the corrected faces, two per quad |
| Revolution.RevolveTables | a5/src/splines/SplineCurve.java:274-330 | a curve with points and normals revolves into rings of its turned points and turned normals, with the corrected faces |
| Revolution.FlattenSameLengths | a5/src/splines/SplineCurve.java:152-170 | segment lists of matching lengths join into lists of equal length |
| Revolution.ValidCurveTables | a5/src/splines/SplineCurve.java:152-170 | a curve that satisfies its invariant has as many normals as points, and at least one point |
| Revolution.RevolveInRange | a5/src/splines/SplineCurve.java:274-330 | a valid curve always revolves into a mesh; when the angle loop visits slices + 1 angles every face index is in range and every corner is aligned |
| Revolution.FitMeshInRange | a5/src/splines/SplineCurve.java:281-329 | faces on rings 0 .. slices of tables holding (slices + 1)(n + 1) entries index only existing entries and are aligned |
| Revolution.SeamCloses | a5/src/splines/SplineCurve.java:293-315 | on a closed curve the last quad of a slice ends on the repeated first point, so it meets the slice's first quad |
| Revolution.RingSeam | a5/src/splines/SplineCurve.java:284-297 | the closing entry of every ring repeats its first entry |
| Revolution.SeamFaces | a5/src/splines/SplineCurve.java:302-315 | on a closed curve the last quad of slice s has its middle corner on point n of ring s and the first quad its last corner on point 0 |
| Revolution.ClosedSeam | a5/src/splines/SplineCurve.java:293-315 | in the mesh of a valid closed curve that seam corner and the first quad's corner hold the same position |
| Revolution.LowerRightAsWritten | a5/src/splines/SplineCurve.java:311-312 | with stride numVertices, the middle corner's normal index on slice s >= 1 lies s below its position index |
| Revolution.AsWrittenNormalSkips | a5/src/splines/SplineCurve.java:308-316 | every lower-right triangle from slice 1 on, as written, reads another vertex's normal and uv |
| Revolution.AsWrittenWrongNormal | a5/src/splines/SplineCurve.java:308-316 | for any curve of n >= 2 points, the first triangle of slice 1 sits on ring 1's point 1 but takes ring 1's normal of point 0 |
| VertexNormals.Mult | a1/src/meshgen/NormalCalculator.java:52-54 | a triangle touches a vertex at most three times, and not at all exactly when none of its corners is that vertex |
| VertexNormals.Spread | a1/src/meshgen/NormalCalculator.java:52-54 | adding a face normal at the three corners keeps the table's length |
| VertexNormals.SpreadAt | a1/src/meshgen/NormalCalculator.java:52-54 | one triangle adds its normal to a vertex once per corner that is that vertex |
| VertexNormals.Accumulate | a1/src/meshgen/NormalCalculator.java:42-55 | the face loop keeps one entry per vertex |
| VertexNormals.AccumulateIsIncidentSum | a1/src/meshgen/NormalCalculator.java:42-55 | by induction over the faces: each vertex ends with its start value plus the sum of incident face normals, counted with multiplicity |
| VertexNormals.UntouchedIsZero | a1/src/meshgen/NormalCalculator.java:37-55 | a vertex no face touches receives nothing |
| VertexNormals.SmoothNormals | a1/src/meshgen/NormalCalculator.java:37-60 | starting from zero vectors, each vertex's final normal is the normalised sum of its incident face normals |
| NormalCalculator.FaceNormal | a1/src/meshgen/NormalCalculator.java:48-50 | the face normal is perpendicular to both edges leaving the first corner |
| NormalCalculator.UnitPerpendicular | a1/src/meshgen/NormalCalculator.java:50 | normalising keeps a vector perpendicular to whatever it was perpendicular to |
| NormalCalculator.Contributions | a1/src/meshgen/NormalCalculator.java:42-50 | one contribution per face, in face order, carrying the face's own position indices |
| NormalCalculator.CalculateNormals | a1/src/meshgen/NormalCalculator.java:35-61 | positions, uvs and position indices are unchanged, there is one normal per position, every face's normal indices become its position indices, and each normal is the normalised sum of incident face normals |
| NormalCalculator.CalculateNormalsInRange | a1/src/meshgen/NormalCalculator.java:35-61 | a mesh whose faces index their tables still does so after the recomputation |
| NormalCalculator.UnusedVertexHasZeroNormal | a1/src/meshgen/NormalCalculator.java:37-40 | a position no face uses keeps the zero vector it started with |
| MeshConverter.RawNormal | a3/src/mesh/MeshConverter.java:46-48 | the cross product (p[z] − p[y]) × (p[x] − p[y]) is perpendicular to both triangle edges at p[y] |
| MeshConverter.RawNormalAgrees | a3/src/mesh/MeshConverter.java:46-49 | it equals (p[y] − p[x]) × (p[z] − p[x]), so the normalised converter normal is the mesh generator's face normal (NormalCalculator.java:48-50): both turn the same way |
| MeshConverter.Kept | a3/src/mesh/MeshConverter.java:51-56 | the surviving triangles are a subsequence of at most as many, still indexing the position list |
| MeshConverter.KeptNonDegenerate | a3/src/mesh/MeshConverter.java:51-56 | every surviving triangle has a non-zero normal, and when no triangle is degenerate all of them survive |
| MeshConverter.CornerPositions | a3/src/mesh/MeshConverter.java:59-61 | three positions per triangle |
| MeshConverter.CornerNormals | a3/src/mesh/MeshConverter.java:59-62 | three normals per triangle |
| MeshConverter.CornerIndices | a3/src/mesh/MeshConverter.java:115-117 | three indices per triangle |
| MeshConverter.FaceLoop | a3/src/mesh/MeshConverter.java:43-65 | the face loop never writes texture coordinates |
| MeshConverter.Count | a3/src/mesh/MeshConverter.java:43-63 | the running vertex numbers are consecutive from the start value |
| MeshConverter.CountSplit | a3/src/mesh/MeshConverter.java:59-64 | numbering three vertices and then the rest continues one consecutive run |
| MeshConverter.FaceLoopCounts | a3/src/mesh/MeshConverter.java:36-56 | both declared counts drop by three for every degenerate triangle |
| MeshConverter.FaceLoopVertices | a3/src/mesh/MeshConverter.java:44-65 | every surviving triangle appends its three corner positions and its unit normal three times, in triangle order |
| MeshConverter.FaceLoopIndices | a3/src/mesh/MeshConverter.java:43-65 | the index buffer continues the vertex numbering by three per surviving triangle |
| MeshConverter.CornerPositionsAt | a3/src/mesh/MeshConverter.java:59-63 | corner c of triangle k sits at slot 3k + c, in the position and index lists alike |
| MeshConverter.CornerNormalsAt | a3/src/mesh/MeshConverter.java:59-62 | every corner slot of triangle k holds that triangle's unit normal |
| MeshConverter.ConvertToFaceNormals | a3/src/mesh/MeshConverter.java:21-70 | both counts equal the number of vertices written, the indices are 0, 1, 2, ... and so all in range, and no uvs are written |
| MeshConverter.FaceNormalsLayout | a3/src/mesh/MeshConverter.java:36-64 | vertex 3k + c is corner c of the k-th non-degenerate triangle and carries that triangle's unit normal; the vertex count is three per surviving triangle |
| MeshConverter.VertexLoop | a3/src/mesh/MeshConverter.java:96-118 | the loop keeps one running sum per position |
| MeshConverter.WithNormals | a3/src/mesh/MeshConverter.java:98-101 | every triangle is paired, in order, with its own unit face normal |
| MeshConverter.VertexLoopSums | a3/src/mesh/MeshConverter.java:96-112 | the running sums equal the accumulation over the non-degenerate triangles only |
| MeshConverter.VertexLoopIndices | a3/src/mesh/MeshConverter.java:96-118 | the index buffer holds the surviving triangles' own index triples, and the index count drops by three per degenerate triangle |
| MeshConverter.VertexLoopFromZero | a3/src/mesh/MeshConverter.java:89-118 | started from zero sums, the loop leaves at each position the sum of the unit normals of the surviving triangles there, and the surviving triangles' index triples |
| MeshConverter.KeptIndicesInRange | a3/src/mesh/MeshConverter.java:115-117 | every index of a surviving triangle names a position |
| MeshConverter.ConvertToVertexNormals | a3/src/mesh/MeshConverter.java:77-132 | positions are copied unchanged, there is one normal per position, the indices are the surviving triangles' triples, all in range, and each normal is the normalised sum of the unit normals of the surviving triangles at that vertex |
| MeshGenTorus.RingIndices | a3/src/mesh/gen/MeshGenTorus.java:58-69 | each ring contributes six indices per quad |
| MeshGenTorus.IndexBuffer | a3/src/mesh/gen/MeshGenTorus.java:58-69 | the index buffer holds six indices per quad of every ring |
| MeshGenTorus.Generate | a3/src/mesh/gen/MeshGenTorus.java:21-31 | (L + 1)(lat + 1) vertices, each with a position, normal and uv, and 6 L lat indices, matching the declared counts |
| MeshGenTorus.RingIndicesInRange | a3/src/mesh/gen/MeshGenTorus.java:58-69 | the indices of ring i lie between the first vertex of ring i and the last vertex of the mesh |
| MeshGenTorus.IndexBufferInRange | a3/src/mesh/gen/MeshGenTorus.java:58-69 | every index of the buffer names one of the (L + 1)(lat + 1) vertices |
| MeshGenTorus.GenerateIndicesInRange | a3/src/mesh/gen/MeshGenTorus.java:21-69 | every index of the generated mesh is below its vertex count |
| MeshGenTorus.VertexLayout | a3/src/mesh/gen/MeshGenTorus.java:33-55 | vertex j of ring i sits at i (lat + 1) + j, at ring centre plus tube radius times the ring vector, with that vector as its normal and uv (1 - i/L, 1 - j/lat) inside the unit square |
| MeshGenTorus.QuadTriangles | a3/src/mesh/gen/MeshGenTorus.java:59-67 | the quad at vertex p of ring i becomes the triangles (si, si + V, si + 1) and (si + 1, si + V, si + V + 1) |
| MeshGenTorus.UnitNormals | a3/src/mesh/gen/MeshGenTorus.java:40-44 | given sin^2 + cos^2 = 1, every normal is a unit vector |
| MeshGenArgs.Defaults | a1/src/meshgen/Parser.java:47-55 | no mode, shape or files; 32 and 16 divisions and minor radius 0.25 |
| MeshGenArgs.Apply | a1/src/meshgen/Parser.java:29-42 | a recognised pair fails exactly when `-n` or `-m` carries text that is not an int, or `-r` text that is not a double, and the error names that text |
| MeshGenArgs.Scan | a1/src/meshgen/Parser.java:28-43 | with no arguments left the options are unchanged |
| MeshGenArgs.Parse | a1/src/meshgen/Parser.java:25-44 | an empty command line gives the defaults |
| MeshGenArgs.Final | a1/src/meshgen/Parser.java:28-43 | the pair found carries one of the flags asked about |
| MeshGenArgs.ScanKeepsLast | a1/src/meshgen/Parser.java:28-43 | by induction over the pairs: every field is what the last pair setting it says (mode from the last `-g` or `-i`), and a field no pair sets keeps its value |
| MeshGenArgs.ParseKeepsLast | a1/src/meshgen/Parser.java:25-55 | parsed options are the defaults overridden field by field by the last pair that sets each field |
| MeshGenArgs.GenerateAndCalculate | a1/src/meshgen/Parser.java:29-34 | `-g s` selects generation of shape s and `-i f` selects normal calculation for file f |
| MeshGenArgs.UnknownFlagSkipped | a1/src/meshgen/Parser.java:28-43 | an unrecognised flag is skipped together with its partner and changes nothing, and alone at the end it is ignored |
| MeshGenArgs.DanglingFlagFails | a1/src/meshgen/Parser.java:28-42 | a recognised flag in the last position, with no value after it, makes the parser throw |
| RenderCameras.AdjustedSize | a3/src/gl/RenderCamera.java:72-79 | the adjusted size never shrinks the image in either direction and keeps one of its two dimensions |
| RenderCameras.Positive | a3/src/gl/RenderCamera.java:72-73 | the scale factor of positive sizes is positive, so its inverse exists |
| RenderCameras.AdjustedMatchesViewport | a3/src/gl/RenderCamera.java:46-52 | the adjusted size has the viewport's width-to-height ratio, so nothing appears distorted |
| RenderCameras.ScaleFactorCross | a3/src/gl/RenderCamera.java:72-73 | the scale factor is the viewport aspect over the image aspect, stated without division |
| RenderCameras.InverseCross | a3/src/gl/RenderCamera.java:78-79 | heightening by the inverse scale factor reaches the viewport's aspect |
| RenderCameras.UpdateCameraMatrix | a3/src/gl/RenderCamera.java:56-95 | the view matrix is the inverse of the world transform; the projection, perspective or orthographic as the camera says, is built from a size covering the image at the viewport's aspect ratio; the view-projection matrix is their product |
| MeshGen.CylinderPositions | a1/src/meshgen/Cylinder.java:62-91 | two positions per rim vertex plus the two centroids |
| MeshGen.CylinderNormals | a1/src/meshgen/Cylinder.java:62-91 | one normal per rim vertex plus the two centroid normals |
| MeshGen.CylinderUvs | a1/src/meshgen/Cylinder.java:62-107 | 4U + 4 texture coordinates: side band, seam copies, lid centres and lid rims |
| MeshGen.CylinderSides | a1/src/meshgen/Cylinder.java:119-135 | two side triangles for each of the first U - 1 rim vertices |
| MeshGen.CylinderSeam | a1/src/meshgen/Cylinder.java:137-147 | two triangles close the seam |
| MeshGen.CylinderTop | a1/src/meshgen/Cylinder.java:150-158 | one top-lid triangle per rim vertex |
| MeshGen.CylinderBottom | a1/src/meshgen/Cylinder.java:161-169 | one bottom-lid triangle per rim vertex |
| MeshGen.Cylinder | a1/src/meshgen/Cylinder.java:33-170 | generation succeeds exactly for two or more divisions, otherwise it throws on a null endpoint; the mesh has 2U + 2 positions, U + 2 normals, 4U + 4 uvs and 4U faces |
| MeshGen.CylinderInRange | a1/src/meshgen/Cylinder.java:113-170 | every index of every face lies inside its table |
| MeshGen.CylinderCaps | a1/src/meshgen/Cylinder.java:150-169 | top face i fans from the upper centroid over upper rim vertices i and i + 1 (wrapping to 0) with the top normal; bottom face i joins lower rim vertices i + 1 and i to the lower centroid with the bottom normal |
| MeshGen.CylinderSideShading | a1/src/meshgen/Cylinder.java:119-147 | at every side corner the normal is the rim vertex's and the uv is the corner's own, except that the first rim vertex uses its u = 1 copy across the seam |
| MeshGen.CylinderRimGeometry | a1/src/meshgen/Cylinder.java:62-74 | a rim vertex's two copies differ only in height, +1 above and -1 below, and its normal is the horizontal part of its position |
| MeshGen.SpherePositions | a1/src/meshgen/Sphere.java:66-87 | the two poles plus n vertices on each of the m - 1 inner rings |
| MeshGen.SphereUvs | a1/src/meshgen/Sphere.java:92-112 | a north row of n, a row of n + 1 per inner ring, and a south row of n |
| MeshGen.NorthCap | a1/src/meshgen/Sphere.java:119-130 | one north-cap triangle per partition |
| MeshGen.SphereBand | a1/src/meshgen/Sphere.java:140-171 | two triangles per partition in each band |
| MeshGen.SphereBands | a1/src/meshgen/Sphere.java:136-172 | 2n triangles for each of the bands between consecutive inner rings |
| MeshGen.SouthCap | a1/src/meshgen/Sphere.java:175-192 | one south-cap triangle per partition |
| MeshGen.Sphere | a1/src/meshgen/Sphere.java:35-193 | generation succeeds exactly for at least one partition and three strips, otherwise reading the empty ring list throws; the mesh has (m - 1) n + 2 positions and normals, 2n + (m - 1)(n + 1) uvs and 2n(m - 1) faces |
| MeshGen.SpherePoles | a1/src/meshgen/Sphere.java:66-87 | the normals are the positions, the first being the north pole (0, 1, 0) and the last the south pole (0, -1, 0) |
| MeshGen.NorthCapFits | a1/src/meshgen/Sphere.java:119-130 | every north-cap face indexes inside the tables and takes its normal index from its position index |
| MeshGen.SphereBandFaceFits | a1/src/meshgen/Sphere.java:147-170 | one band triangle indexes inside the tables with normal indices equal to position indices |
| MeshGen.SphereBandFits | a1/src/meshgen/Sphere.java:136-171 | a whole band fits the tables, normals following positions |
| MeshGen.SphereBandsFit | a1/src/meshgen/Sphere.java:136-172 | by induction over the bands: all of them fit the tables, normals following positions |
| MeshGen.SouthCapFits | a1/src/meshgen/Sphere.java:175-192 | every south-cap face indexes inside the tables, normals following positions |
| MeshGen.SphereInRange | a1/src/meshgen/Sphere.java:117-193 | every face of the sphere indexes inside its tables and at every corner its normal index is its position index |
| MeshGen.NorthCapAtPole | a1/src/meshgen/Sphere.java:119-129 | each north-cap face starts at the north pole |
| MeshGen.SouthCapAtPole | a1/src/meshgen/Sphere.java:175-191 | each south-cap face ends at the south pole |
| MeshGen.SphereCaps | a1/src/meshgen/Sphere.java:117-193 | the first n faces fan from the north pole and the last n from the south pole |
| MeshGen.TorusRadii | a1/src/meshgen/Torus.java:34-39 | a missing minor radius becomes 0.25 and the major radius is always 1 |
| MeshGen.TorusVertices | a1/src/meshgen/Torus.java:69-76 | one position and one normal per slice and tube face |
| MeshGen.TorusUvs | a1/src/meshgen/Torus.java:78-86 | (n + 1)(m + 1) texture coordinates |
| MeshGen.TorusBand | a1/src/meshgen/Torus.java:98-143 | two triangles per tube face between two consecutive slices |
| MeshGen.TorusBands | a1/src/meshgen/Torus.java:96-144 | 2m triangles for each pair of consecutive slices |
| MeshGen.TorusClosing | a1/src/meshgen/Torus.java:146-178 | 2m triangles join the last slice to the first |
| MeshGen.Torus | a1/src/meshgen/Torus.java:34-180 | generation succeeds exactly for at least two slices and two tube faces, otherwise it throws on a null texture offset; the mesh has nm positions and normals, (n + 1)(m + 1) uvs and 2nm faces |
| MeshGen.TorusBandFaceFits | a1/src/meshgen/Torus.java:104-140 | one triangle between consecutive slices indexes inside the tables, normals following positions |
| MeshGen.TorusBandFits | a1/src/meshgen/Torus.java:98-143 | the triangles between two consecutive slices fit the tables, normals following positions |
| MeshGen.TorusBandsFit | a1/src/meshgen/Torus.java:96-144 | by induction over the slices: all inner triangles fit the tables |
| MeshGen.TorusClosingFaceFits | a1/src/meshgen/Torus.java:148-177 | a closing triangle fits the tables and has every corner on the last slice or on slice 0, at least one on slice 0 |
| MeshGen.TorusClosingFits | a1/src/meshgen/Torus.java:146-178 | all closing triangles fit the tables and join the last slice to slice 0 |
| MeshGen.TorusInRange | a1/src/meshgen/Torus.java:92-180 | every torus face indexes inside its tables with normal indices equal to position indices, and the last 2m faces join the last slice to slice 0 |

## Left out

- File input and output (scene XML loading, image reading and writing, OBJ and PFM pixel I/O), the GUI, OpenGL calls and threads: they move data in and out and have no logic of their own to prove.
- Floating point: doubles and floats are reals, so rounding, NaN and infinities are not modelled. Where Java would produce NaN or an infinity, the model picks a value and says so at the member: `Geometry.Unit` of the zero vector is zero, and a zero denominator in a ray test is a miss.
- Transcendental functions (`Math.sqrt`, `sin`, `cos`, `asin`, `atan2`, `acos`, `pow`, `exp`) are parameters. Only the square root is constrained, by `Geometry.IsSqrt`.
- `Matrix4d.invert` and the rest of the vector library are not part of this model. Inversion is a parameter, and `Group.setRotate`'s angle-to-matrix conversion is left out with it.
- `Cubemap.generate` (the binary-search importance-sampling draw) and the reading of the PFM pixel floats: the loaded data is a parameter.
- `Ray.makeOffsetRay` and `makeOffsetSegment` are not part of this model; an offset ray starts at a parameter `eps`.
- The draws from `java.util.Random` taken by rectangle lights and by the cube map are parameters.
- `Phong` and `CookTorrance`: their BRDFs need `pow` and `exp`, so they are one shader kind whose BRDF is a parameter. The light loop around it is modelled.
- BlockSpirals.Increment: the do-while loop of `incrementSublockSpiral` has no bound in the source, so the model runs it on a step budget and reports None when the budget runs out. That every block is eventually visited is not proved.
- Animation.Advance: frames are unbounded integers, so the 32-bit overflow of `curFrame + n` for huge n is not modelled. Keyframe interpolation (`updateTransformations`) and `addObject`/`removeObject` are left out: they call the matrix and quaternion library.
- Splines: `getMaxAngle` is left out (it needs `acos`). `toBezier` of the B-spline and Catmull-Rom subclasses is an abstract basis change (the `toBezier` field of `Splines.Basis`), because it goes through a 4 x 4 matrix inverse.
- Revolution.Revolve: `build3DRevolution`'s floating-point angle loop and its rotation and scale matrices are abstract. The number of rings is a parameter, and a `Sweep` places each point. The 32-bit overflow of its face indices is not modelled.
- MeshGenTorus.Generate requires positive division counts. For zero divisions Java divides by zero and fills the buffers with NaN or infinity.
- MeshConverter.ConvertToFaceNormals and MeshConverter.ConvertToVertexNormals require every triangle index to lie inside the position table. Java would throw an index exception there.
- NormalCalculator.CalculateNormals requires the faces' position indices to be in range, as Java would otherwise throw. A vertex no face touches gets the zero normal; Java normalises the zero vector to NaN.
- NormalCalculator.FaceNormal: the orientation (winding) of a face normal follows the corner order as written. Nothing is proved about it facing outwards.
- RenderCameras.UpdateCameraMatrix requires a positive viewport and image size. Java would divide by zero otherwise.
- MeshGenArgs.Parse: `Integer.parseInt` and `Double.parseDouble` are parameters that answer None where Java throws.
- Render.Pixel requires the scene to have a camera; Java throws a null-pointer exception otherwise.
- CylinderHits.CylinderHitAsWritten: a direction with no z part is modelled as no hit. Java's division gives infinite cap times there, so a horizontal ray between the cap planes keeps its own window and can hit the side; the model does not follow that case.
- CylinderHits.CylinderHit: this is the corrected intersection, not `Cylinder.intersect` as written. It differs from Java in the two cylinder rows under Findings: it reports no side hit at t = 0 outside the cylinder, and a ray entering through a cap is reported at the cap, not at its exit through the side.
- SurfaceHits.ObjectHit: its cylinder branch is the corrected CylinderHits.CylinderHit, so scene hits on cylinders are the intended ones, not Java's as written.
- SurfaceHits.CylinderRecord: it records the corrected cylinder hit. `Cylinder.intersect` never sets texture coordinates, so Java's record keeps the caller's stale value; the model writes (0, 0).
- Intersections.TriangleRecord: for a face without texture coordinates `Triangle.intersect` leaves the caller's texture coordinates unchanged; the model writes (0, 0).
- Ray1Surfaces.Triangle1Record: for a face without uvs Java keeps the caller's texture coordinates; the model writes (0, 0). Java's `(float)` casts of the weights are not modelled.
- Cubemaps.Load: for an all-black map the total is 0 and Java fills the table with 0 / 0 = NaN; the model keeps the running sums, which `evaluate` never reads.
- Ray1Surfaces.Sphere1Record: it is built on the corrected Ray1Surfaces.Sphere1HitChecked, so the tangent hit behind the start, which the code as written reports and records, gets no record.
- Lights.Density: a rectangle light of zero area has density 0 in the model, where Java's 1 / 0 gives infinity. Lights.Sample then reports probability 0, and Shaders.Contribution treats a zero probability as no contribution, as Java's division by infinity gives.
- Shaders.GlassInterface: a refractive index of 0, which `setRefractiveIndex` accepts, gives the inside case 1 / 0 in Java (infinite, with a NaN Fresnel term); the model's quotient gives 0 there.

## Findings

| source | as written | input that shows it | evidently intended | confidence | as-written member | corrected member |
|---|---|---|---|---|---|---|
| a7/src/ray2/light/Cubemap.java:92-105 | the pixel offset within a face is `(int)(blockSz * (u + 1) / 2)`, which equals `blockSz` when u or v is exactly 1 | the direction (1, 0, 1), on the edge between +X and +Z, maps to face +Z with u = 1 and reads a pixel of the unused block beside it | offsets clamped to `blockSz - 1`, so every direction reads a pixel of its own face | not executed | Cubemaps.EdgeDirectionLeavesFace | Cubemaps.ClampedInFace |
| a7/src/ray2/surface/Cylinder.java:70-124 | `t` starts at 0 and keeps that value when neither side root lies in the window; the cap test then accepts the ray | a cylinder of radius 1 and height 1 at the origin, and a ray from (5, 0, 0) along (1, 0, 1) whose window starts at 0: both side roots lie behind the origin, and a hit at t = 0 is reported at (5, 0, 0), off the cylinder. Rays the renderer builds start at eps > 0, and with such a start this ray is rejected at lines 122-124, so camera and shadow rays never meet the t = 0 hit | no side hit unless a root lies in the window; the nearest of the side and cap points strictly inside the window | not executed | CylinderHits.AsWrittenReportsOrigin | CylinderHits.CorrectedMissesOutward |
| a2/src/ray1/surface/Sphere.java:56-57 | when the discriminant is exactly zero, the single root is kept without the window check the other branch makes | the unit sphere at the origin and a ray from (0, 1, 5) along +z: it grazes the sphere at t = -5, behind its start, and the hit is reported | keep the tangent root only when it lies strictly inside the window | not executed | Ray1Surfaces.TangentHitBehindOrigin | Ray1Surfaces.Sphere1HitChecked |
| a5/src/splines/SplineCurve.java:311-312 | the lower-right triangle's middle corner takes its uv and normal index from `sliceIdx * numVertices + vertexIdx + 1`, although each ring of the uv and normal tables holds `numVertices + 1` entries | any cross-section with at least two points swept over at least two slices: slice 1, vertex 0 has position index n + 2 but normal index n + 1, so it takes the normal of ring 1's first point instead of its second | `sliceIdx * (numVertices + 1) + vertexIdx + 1`, the stride the position index uses | not executed | Revolution.AsWrittenWrongNormal | Revolution.RevolveInRange |
| a7/src/ray2/surface/Cylinder.java:105-134 | the side root is the first root inside the ray's window, and the cap is reported only when that root lies before the slab; when the near root lies behind the ray's start the far root is taken, and the slab test then passes | a cylinder of radius 1 and height 2 at the origin, and a ray from (0, 0, 5) along (0.2, 0, −1) starting at any eps in (0, 4): it enters through the top cap at t = 4, at (0.8, 0, 1), but t = 5, its exit through the side at (1, 0, 0), is reported. | the nearest of the side and cap points strictly inside the window: t = 4 on the top cap | not executed | CylinderHits.CapEntryRayAsWritten | CylinderHits.CapEntryCorrected |
