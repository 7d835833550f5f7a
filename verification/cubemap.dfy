/**
 * The environment cube map (`Cubemap`): six square faces stored in a 3x4 cross layout of
 * one floating-point image, the maps between directions, faces and pixels, the sampling
 * table built when the map is loaded, and the PFM header reader.
 *
 * Reading the pixel floats from disk is not modelled: the loaded data is a parameter.
 */
module Cubemaps {
  import opened Wrappers
  import opened Geometry
  import opened JavaInt

  /** A face number, 0..5 for +X, -X, +Y, -Y, +Z, -Z. */
  type Face = f: int | 0 <= f < 6

  /** The cross layout: three blocks wide and four high, each block one face. */
  predicate CrossLayout(width: int, height: int, blockSz: int) {
    blockSz >= 1 && width == 3 * blockSz && height == 4 * blockSz
  }

  datatype Cubemap = Cubemap(width: int, height: int, blockSz: int, mapBits: nat,
                             imageData: seq<real>, cumProb: seq<real>, scaleFactor: real)

  /** A loaded map: cross layout, three floats per pixel and one table entry more than pixels. */
  predicate Valid(cm: Cubemap) {
    CrossLayout(cm.width, cm.height, cm.blockSz)
    && |cm.imageData| == 3 * (cm.width * cm.height)
    && |cm.cumProb| == cm.width * cm.height + 1
  }

  // ---------------------------------------------------------------- layout tables

  /** `faceLoc`: the (column, row) block of each face. */
  function FaceLoc(f: Face): (int, int) {
    [(2, 2), (0, 2), (1, 3), (1, 1), (1, 0), (1, 2)][f]
  }

  /** `locFace`: the face stored in each block, -1 for the unused blocks. */
  function LocFace(row: int, col: int): int
    requires 0 <= row < 4 && 0 <= col < 3
  {
    [[-1, 4, -1], [-1, 3, -1], [1, 5, 0], [-1, 2, -1]][row][col]
  }

  /** The two tables are inverse to each other on the six faces. */
  lemma TablesInverse(f: Face)
    ensures 0 <= FaceLoc(f).1 < 4 && 0 <= FaceLoc(f).0 < 3
    ensures LocFace(FaceLoc(f).1, FaceLoc(f).0) == f
  {
  }

  /** Every block marked with a face is that face's block. */
  lemma TablesInverseBack(row: int, col: int)
    requires 0 <= row < 4 && 0 <= col < 3 && LocFace(row, col) != -1
    ensures 0 <= LocFace(row, col) < 6
    ensures FaceLoc(LocFace(row, col)) == (col, row)
  {
  }

  // ---------------------------------------------------------------- faces and pixels

  /** `(int) (blockSz * (c + 1) / 2)`: a face coordinate in [-1, 1] as a pixel offset. */
  function PixelOffset(blockSz: int, c: real): int {
    Trunc(blockSz as real * (c + 1.0) / 2.0)
  }

  /**
   * `faceToIndex`: the pixel of the whole map at face coordinates (u, v) of face f. For
   * coordinates in [-1, 1) the pixel lies in the map, on the block of face f.
   */
  function FaceToIndex(width: int, blockSz: int, f: Face, uv: V2): (idx: int)
    ensures CrossLayout(width, 4 * blockSz, blockSz) && -1.0 <= uv.x < 1.0 && -1.0 <= uv.y < 1.0 ==>
      0 <= idx < width * (4 * blockSz) && IndexToFace(width, blockSz, idx).0 == f
  {
    var iu := PixelOffset(blockSz, uv.x);
    var iv := PixelOffset(blockSz, uv.y);
    var ix := iu + blockSz * FaceLoc(f).0;
    var iy := iv + blockSz * FaceLoc(f).1;
    if CrossLayout(width, 4 * blockSz, blockSz) && -1.0 <= uv.x < 1.0 && -1.0 <= uv.y < 1.0 then
      OffsetInBlock(blockSz, uv.x);
      OffsetInBlock(blockSz, uv.y);
      TablesInverse(f);
      Compose(blockSz, FaceLoc(f).0, FaceLoc(f).1, iu, iv);
      ix + width * iy
    else ix + width * iy
  }

  /**
   * `indexToFace`: the face holding a pixel (-1 for none) and the face coordinates of its
   * centre, which lies strictly inside the face.
   */
  function IndexToFace(width: int, blockSz: int, index: int): (r: (int, V2))
    requires CrossLayout(width, 4 * blockSz, blockSz)
    requires 0 <= index < width * (4 * blockSz)
    ensures r.0 == -1 || 0 <= r.0 < 6
    ensures r.0 != -1 ==> -1.0 < r.1.x < 1.0 && -1.0 < r.1.y < 1.0
  {
    SplitIndex(blockSz, index);
    var ix := index % width;
    var iy := index / width;
    if LocFace(iy / blockSz, ix / blockSz) != -1 then
      TablesInverseBack(iy / blockSz, ix / blockSz);
      (LocFace(iy / blockSz, ix / blockSz), V2(Centre(blockSz, ix % blockSz), Centre(blockSz, iy % blockSz)))
    else (LocFace(iy / blockSz, ix / blockSz), V2(Centre(blockSz, ix % blockSz), Centre(blockSz, iy % blockSz)))
  }

  /** Round trip: `faceToIndex` maps the centre `indexToFace` reports back to the same pixel. */
  lemma CentreIndexRoundTrip(width: int, blockSz: int, index: int)
    requires CrossLayout(width, 4 * blockSz, blockSz)
    requires 0 <= index < width * (4 * blockSz)
    ensures var r := IndexToFace(width, blockSz, index);
      r.0 != -1 ==> FaceToIndex(width, blockSz, r.0, r.1) == index
  {
    SplitIndex(blockSz, index);
    var ix := index % width;
    var iy := index / width;
    if LocFace(iy / blockSz, ix / blockSz) != -1 {
      TablesInverseBack(iy / blockSz, ix / blockSz);
      OffsetOfCentre(blockSz, ix % blockSz);
      OffsetOfCentre(blockSz, iy % blockSz);
      Recompose(index, width, blockSz);
    }
  }

  /** Splitting an index into block and offset, column and row, and putting it back together. */
  lemma Recompose(index: int, width: int, blockSz: int)
    requires width >= 1 && blockSz >= 1 && index >= 0
    ensures var ix, iy := index % width, index / width;
      (ix % blockSz + blockSz * (ix / blockSz)) + width * (iy % blockSz + blockSz * (iy / blockSz)) == index
  {
    var ix, iy := index % width, index / width;
    assert ix % blockSz + blockSz * (ix / blockSz) == ix;
    assert iy % blockSz + blockSz * (iy / blockSz) == iy;
    assert ix + width * iy == index;
  }

  /** The pixel offset of the centre of pixel i is i. */
  lemma OffsetOfCentre(blockSz: int, i: int)
    requires blockSz >= 1 && 0 <= i < blockSz
    ensures PixelOffset(blockSz, Centre(blockSz, i)) == i
  {
    var b, a := blockSz as real, i as real + 0.5;
    var c := Centre(blockSz, i);
    assert c + 1.0 == 2.0 * a / b;
    DivMul(2.0 * a, b);
    assert b * (c + 1.0) == 2.0 * a;
    assert b * (c + 1.0) / 2.0 == a;
  }

  /** `2 * (i + 0.5) / blockSz - 1`: the face coordinate of the centre of pixel offset i. */
  function Centre(blockSz: int, i: int): (c: real)
    requires blockSz >= 1
    ensures 0 <= i < blockSz ==> -1.0 < c < 1.0
  {
    CentreInside(blockSz, i);
    2.0 * (i as real + 0.5) / blockSz as real - 1.0
  }

  lemma CentreInside(blockSz: int, i: int)
    requires blockSz >= 1
    ensures 0 <= i < blockSz ==> -1.0 < 2.0 * (i as real + 0.5) / blockSz as real - 1.0 < 1.0
  {
    if 0 <= i < blockSz {
      var b, a := blockSz as real, i as real + 0.5;
      DivMonotone(0.0, 2.0 * a, b);
      DivMonotone(2.0 * a, 2.0 * b, b);
      assert 2.0 * b / b == 2.0;
    }
  }

  /** Division by a positive number keeps order. */
  lemma DivMonotone(x: real, y: real, b: real)
    requires b > 0.0 && x <= y
    ensures x / b <= y / b
    ensures x < y ==> x / b < y / b
  {
  }

  lemma DivSelf(m: real)
    requires m > 0.0
    ensures m / m == 1.0 && -m / m == -1.0
  {
    assert (-m) / m * m == -m;
  }

  lemma MulMono(a: int, b: int, c: int)
    requires a >= 0 && b <= c
    ensures a * b <= a * c
  {
    assert a * c - a * b == a * (c - b);
  }

  lemma DivBelow(a: int, b: int, h: int)
    requires b > 0 && 0 <= a < b * h
    ensures 0 <= a / b < h
  {
    var q := a / b;
    assert a == b * q + a % b;
    if q >= h {
      MulMono(b, h, q);
    }
  }

  /** A pixel index of the map has a block column below 3 and a block row below 4. */
  lemma SplitIndex(blockSz: int, index: int)
    requires blockSz >= 1 && 0 <= index < (3 * blockSz) * (4 * blockSz)
    ensures 0 <= index / (3 * blockSz) < 4 * blockSz
    ensures 0 <= (index % (3 * blockSz)) / blockSz < 3
    ensures 0 <= (index / (3 * blockSz)) / blockSz < 4
  {
    var w := 3 * blockSz;
    DivBelow(index, w, 4 * blockSz);
    assert index % w < blockSz * 3;
    DivBelow(index % w, blockSz, 3);
    assert index / w < blockSz * 4;
    DivBelow(index / w, blockSz, 4);
  }

  /**
   * The pixel at offset (iu, iv) of block (col, row): its index lies in the map, and
   * dividing it back recovers the block and the offsets.
   */
  lemma Compose(blockSz: int, col: int, row: int, iu: int, iv: int)
    requires blockSz >= 1 && 0 <= col < 3 && 0 <= row < 4
    requires 0 <= iu < blockSz && 0 <= iv < blockSz
    ensures var w, ix, iy := 3 * blockSz, iu + blockSz * col, iv + blockSz * row;
      var idx := ix + w * iy;
      0 <= idx < w * (4 * blockSz)
      && idx % w == ix && idx / w == iy
      && ix / blockSz == col && ix % blockSz == iu
      && iy / blockSz == row && iy % blockSz == iv
  {
    var w, ix, iy := 3 * blockSz, iu + blockSz * col, iv + blockSz * row;
    MulMono(blockSz, col, 2);
    MulMono(blockSz, row, 3);
    assert 0 <= ix < w && 0 <= iy < 4 * blockSz;
    MulMono(w, iy, 4 * blockSz - 1);
    assert w * (4 * blockSz - 1) + w == w * (4 * blockSz);
    EuclidUnique(ix + w * iy, w, iy, ix);
    EuclidUnique(ix, blockSz, col, iu);
    EuclidUnique(iy, blockSz, row, iv);
  }

  /** A face coordinate in [-1, 1) lands on a pixel offset inside the block. */
  lemma OffsetInBlock(blockSz: int, c: real)
    requires blockSz >= 1 && -1.0 <= c < 1.0
    ensures 0 <= PixelOffset(blockSz, c) < blockSz
  {
    var b, t := blockSz as real, (c + 1.0) / 2.0;
    assert b * (c + 1.0) / 2.0 == b * t;
    FractionOf(b, t);
    var x := b * (c + 1.0) / 2.0;
    assert 0.0 <= x < b;
    var r := Trunc(x);
    assert r as real < blockSz as real;
  }

  lemma FractionOf(b: real, t: real)
    requires b > 0.0 && 0.0 <= t < 1.0
    ensures 0.0 <= b * t < b
  {
    assert b - b * t == b * (1.0 - t);
  }

  // ---------------------------------------------------------------- faces and directions

  function AbsR(x: real): real { if x < 0.0 then -x else x }

  /**
   * `dirToFace`: the dominant axis picks the face, and the other two components divided by
   * it give the face coordinates. Ties between x and another axis go to the other axis,
   * ties between y and z go to z. The zero direction, where Java divides 0 by 0, is given
   * the coordinates (-1, -1), which select the same pixel as Java's NaN cast to int.
   */
  function DirToFace(d: V3): (r: (Face, V2))
    ensures d != Zero() ==> -1.0 <= r.1.x <= 1.0 && -1.0 <= r.1.y <= 1.0
  {
    FaceCoords(d.x, d.y, d.z)
  }

  /** `dirToFace` on the three components of a direction. */
  function FaceCoords(x: real, y: real, z: real): (r: (Face, V2))
    ensures x != 0.0 || y != 0.0 || z != 0.0 ==> -1.0 <= r.1.x <= 1.0 && -1.0 <= r.1.y <= 1.0
    ensures r.0 == 0 || r.0 == 1 ==> AbsR(x) > AbsR(y) && AbsR(x) > AbsR(z)
    ensures r.0 == 2 || r.0 == 3 ==> AbsR(y) >= AbsR(x) && AbsR(y) > AbsR(z)
    ensures r.0 == 4 || (r.0 == 5 && (x != 0.0 || y != 0.0 || z != 0.0)) ==>
      AbsR(z) >= AbsR(x) && AbsR(z) >= AbsR(y)
  {
    if AbsR(x) > AbsR(y) && AbsR(x) > AbsR(z) then
      RatioBounded(z, x);
      RatioBounded(y, x);
      (if x > 0.0 then 0 else 1, V2(z / x, y / AbsR(x)))
    else if AbsR(y) > AbsR(z) then
      RatioBounded(x, y);
      RatioBounded(z, y);
      (if y > 0.0 then 2 else 3, V2(x / AbsR(y), z / y))
    else if z == 0.0 then
      (5, V2(-1.0, -1.0))
    else
      RatioBounded(x, z);
      RatioBounded(y, z);
      (if z > 0.0 then 4 else 5, V2(x / AbsR(z), -y / z))
  }

  lemma RatioBounded(a: real, b: real)
    requires b != 0.0 && AbsR(a) <= AbsR(b)
    ensures -1.0 <= a / b <= 1.0 && -1.0 <= a / AbsR(b) <= 1.0 && -1.0 <= -a / b <= 1.0
    ensures AbsR(a) < AbsR(b) ==> -1.0 < a / b < 1.0 && -1.0 < a / AbsR(b) < 1.0 && -1.0 < -a / b < 1.0
  {
    var m := AbsR(b);
    UnitRatio(a, m);
    UnitRatio(-a, m);
    if b < 0.0 {
      DivNeg(a, m);
    }
  }

  /** A value within [-m, m] divided by m lies in [-1, 1]. */
  lemma UnitRatio(x: real, m: real)
    requires m > 0.0 && -m <= x <= m
    ensures -1.0 <= x / m <= 1.0
    ensures -m < x < m ==> -1.0 < x / m < 1.0
  {
    DivMonotone(-m, x, m);
    DivMonotone(x, m, m);
    DivSelf(m);
  }

  lemma DivNeg(a: real, m: real)
    requires m > 0.0
    ensures a / -m == -a / m && -a / -m == a / m
  {
  }

  /** The direction through face coordinates (u, v) of face f, before normalising. */
  function FaceToDirRaw(f: Face, uv: V2): V3 {
    var (u, v) := (uv.x, uv.y);
    match f
    case 0 => V3(1.0, v, u)
    case 1 => V3(-1.0, v, -u)
    case 2 => V3(u, 1.0, v)
    case 3 => V3(u, -1.0, -v)
    case 4 => V3(u, -v, 1.0)
    case 5 => V3(u, v, -1.0)
  }

  /** `faceToDir`: the unit direction through the point (u, v) of face f on the cube. */
  function FaceToDir(sqrt: real -> real, f: Face, uv: V2): (d: V3)
    ensures IsSqrt(sqrt) ==> Dot(d, d) == 1.0 && SameDirection(d, FaceToDirRaw(f, uv))
  {
    var raw := FaceToDirRaw(f, uv);
    assert raw != Zero() by {
      assert raw.x == 1.0 || raw.x == -1.0 || raw.y == 1.0 || raw.y == -1.0 || raw.z == 1.0 || raw.z == -1.0;
    }
    Unit(sqrt, raw)
  }

  /** Only the direction matters to `dirToFace`, not its length. */
  lemma DirToFaceScale(d: V3, k: real)
    requires k > 0.0
    ensures DirToFace(Scale(k, d)) == DirToFace(d)
  {
    ScaleComponents(k, d);
    FaceCoordsScale(d.x, d.y, d.z, k);
  }

  lemma ScaleComponents(k: real, d: V3)
    ensures Scale(k, d) == V3(k * d.x, k * d.y, k * d.z)
  {
  }

  lemma FaceCoordsScale(x: real, y: real, z: real, k: real)
    requires k > 0.0
    ensures FaceCoords(k * x, k * y, k * z) == FaceCoords(x, y, z)
  {
    ScaledOrder(x, y, z, k);
    SignScale(k, x);
    SignScale(k, y);
    SignScale(k, z);
    ScaledRatios(x, y, z, k);
    SameFace(x, y, z, k * x, k * y, k * z);
  }

  lemma ScaledOrder(x: real, y: real, z: real, k: real)
    requires k > 0.0
    ensures (AbsR(k * x) > AbsR(k * y)) == (AbsR(x) > AbsR(y))
    ensures (AbsR(k * x) > AbsR(k * z)) == (AbsR(x) > AbsR(z))
    ensures (AbsR(k * y) > AbsR(k * z)) == (AbsR(y) > AbsR(z))
  {
    AbsCompare(k, x, y);
    AbsCompare(k, x, z);
    AbsCompare(k, y, z);
  }

  lemma ScaledRatios(x: real, y: real, z: real, k: real)
    requires k > 0.0
    ensures x != 0.0 ==> (k * z) / (k * x) == z / x && (k * y) / AbsR(k * x) == y / AbsR(x)
    ensures y != 0.0 ==> (k * x) / AbsR(k * y) == x / AbsR(y) && (k * z) / (k * y) == z / y
    ensures z != 0.0 ==> (k * x) / AbsR(k * z) == x / AbsR(z) && -(k * y) / (k * z) == -y / z
  {
    RatioPair(k, z, y, x);
    RatioPair(k, z, x, y);
    RatioPair(k, -y, x, z);
    assert -(k * y) == k * -y;
  }

  /** Scaling a, b and c alike leaves a / c and b / |c| unchanged. */
  lemma RatioPair(k: real, a: real, b: real, c: real)
    requires k > 0.0
    ensures c != 0.0 ==> (k * a) / (k * c) == a / c && (k * b) / AbsR(k * c) == b / AbsR(c)
  {
    if c != 0.0 {
      AbsScale(k, c);
      RatioScale(k, a, c);
      RatioScale(k, b, AbsR(c));
    }
  }

  /** Two directions with the same dominant axis, signs and ratios have the same face coordinates. */
  lemma SameFace(x: real, y: real, z: real, ex: real, ey: real, ez: real)
    requires (AbsR(ex) > AbsR(ey)) == (AbsR(x) > AbsR(y))
    requires (AbsR(ex) > AbsR(ez)) == (AbsR(x) > AbsR(z))
    requires (AbsR(ey) > AbsR(ez)) == (AbsR(y) > AbsR(z))
    requires (ex > 0.0) == (x > 0.0) && (ey > 0.0) == (y > 0.0) && (ez > 0.0) == (z > 0.0)
    requires (ex == 0.0) == (x == 0.0) && (ey == 0.0) == (y == 0.0) && (ez == 0.0) == (z == 0.0)
    requires x != 0.0 ==> ez / ex == z / x && ey / AbsR(ex) == y / AbsR(x)
    requires y != 0.0 ==> ex / AbsR(ey) == x / AbsR(y) && ez / ey == z / y
    requires z != 0.0 ==> ex / AbsR(ez) == x / AbsR(z) && -ey / ez == -y / z
    ensures FaceCoords(ex, ey, ez) == FaceCoords(x, y, z)
  {
  }

  /** Scaling by a positive factor keeps the order of magnitudes. */
  lemma AbsCompare(k: real, a: real, b: real)
    requires k > 0.0
    ensures AbsR(k * a) > AbsR(k * b) <==> AbsR(a) > AbsR(b)
    ensures AbsR(k * a) == k * AbsR(a)
  {
    AbsScale(k, a);
    AbsScale(k, b);
    ScaleStrict(k, AbsR(a), AbsR(b));
    ScaleStrict(k, AbsR(b), AbsR(a));
  }

  /** Scaling by a positive factor keeps the sign. */
  lemma SignScale(k: real, a: real)
    requires k > 0.0
    ensures k * a > 0.0 <==> a > 0.0
    ensures k * a == 0.0 <==> a == 0.0
  {
    ScaleStrict(k, a, 0.0);
    ScaleStrict(k, 0.0, a);
  }

  lemma AbsScale(k: real, a: real)
    requires k > 0.0
    ensures AbsR(k * a) == k * AbsR(a)
  {
  }

  lemma ScaleStrict(k: real, x: real, y: real)
    requires k > 0.0
    ensures x > y ==> k * x > k * y
    ensures x <= y ==> k * x <= k * y
  {
    if x > y {
      assert k * x - k * y == k * (x - y);
    } else {
      assert k * y - k * x == k * (y - x);
    }
  }

  lemma RatioScale(k: real, a: real, b: real)
    requires k > 0.0 && b != 0.0
    ensures (k * a) / (k * b) == a / b
  {
  }

  /**
   * Round trip: a direction built from a face and coordinates strictly inside it is
   * mapped back to that face and those coordinates.
   */
  lemma DirFaceRoundTrip(sqrt: real -> real, f: Face, uv: V2)
    requires IsSqrt(sqrt)
    requires -1.0 < uv.x < 1.0 && -1.0 < uv.y < 1.0
    ensures DirToFace(FaceToDir(sqrt, f, uv)) == (f, uv)
  {
    var raw := FaceToDirRaw(f, uv);
    assert raw != Zero() by {
      assert raw.x == 1.0 || raw.x == -1.0 || raw.y == 1.0 || raw.y == -1.0 || raw.z == 1.0 || raw.z == -1.0;
    }
    assert SameDirection(FaceToDir(sqrt, f, uv), raw);
    var k :| k > 0.0 && FaceToDir(sqrt, f, uv) == Scale(k, raw);
    DirToFaceScale(raw, k);
    RawFace(f, uv);
  }

  /** Before normalising, the direction through (u, v) of face f maps back to (f, u, v). */
  lemma RawFace(f: Face, uv: V2)
    requires -1.0 < uv.x < 1.0 && -1.0 < uv.y < 1.0
    ensures DirToFace(FaceToDirRaw(f, uv)) == (f, uv)
  {
    var (u, v) := (uv.x, uv.y);
    assert AbsR(u) < 1.0 && AbsR(v) < 1.0 && AbsR(-u) < 1.0 && AbsR(-v) < 1.0;
    match f
    case 0 => assert FaceCoords(1.0, v, u) == (0, V2(u / 1.0, v / AbsR(1.0)));
    case 1 => assert FaceCoords(-1.0, v, -u) == (1, V2(-u / -1.0, v / AbsR(-1.0)));
    case 2 => assert FaceCoords(u, 1.0, v) == (2, V2(u / AbsR(1.0), v / 1.0));
    case 3 => assert FaceCoords(u, -1.0, -v) == (3, V2(u / AbsR(-1.0), -v / -1.0));
    case 4 => assert FaceCoords(u, -v, 1.0) == (4, V2(u / AbsR(1.0), --v / 1.0));
    case 5 => assert FaceCoords(u, v, -1.0) == (5, V2(u / AbsR(-1.0), -v / -1.0));
  }

  // ---------------------------------------------------------------- lookup

  /** `evaluate`: the radiance stored at a direction, scaled by scaleFactor. */
  function Evaluate(cm: Cubemap, dir: V3): (c: Color)
    requires Valid(cm)
    ensures exists k ::
              0 <= k < cm.width * cm.height
              && IndexToFace(cm.width, cm.blockSz, k).0 == DirToFace(dir).0
              && c == Scale(cm.scaleFactor, PixelColor(cm, k))
    ensures var (f, uv) := DirToFace(dir);
      var k := FaceToIndexClamped(cm.width, cm.blockSz, f, uv);
      0 <= k < cm.width * cm.height && c == Scale(cm.scaleFactor, PixelColor(cm, k))
  {
    var (f, uv) := DirToFace(dir);
    var k := FaceToIndexClamped(cm.width, cm.blockSz, f, uv);
    ClampedInFace(cm.blockSz, f, uv);
    var idx := 3 * k;
    var c := Scale(cm.scaleFactor, V3(cm.imageData[idx], cm.imageData[idx + 1], cm.imageData[idx + 2]));
    assert c == Scale(cm.scaleFactor, PixelColor(cm, k));
    c
  }

  /** The red, green and blue values stored for pixel k. */
  function PixelColor(cm: Cubemap, k: int): Color
    requires Valid(cm) && 0 <= k < cm.width * cm.height
  {
    V3(cm.imageData[3 * k], cm.imageData[3 * k + 1], cm.imageData[3 * k + 2])
  }

  /**
   * A direction exactly on a cube edge, such as (1, 0, 1), gets a face coordinate of 1,
   * and `faceToIndex` then reads the first pixel past the face: for (1, 0, 1) a pixel of
   * the unused block beside the +Z face.
   */
  lemma EdgeDirectionLeavesFace(blockSz: int)
    requires blockSz >= 1
    ensures var (f, uv) := DirToFace(V3(1.0, 0.0, 1.0));
      var idx := FaceToIndex(3 * blockSz, blockSz, f, uv);
      f == 4 && uv == V2(1.0, 0.0)
      && 0 <= idx < (3 * blockSz) * (4 * blockSz)
      && IndexToFace(3 * blockSz, blockSz, idx).0 == -1
  {
    assert DirToFace(V3(1.0, 0.0, 1.0)) == (4, V2(1.0, 0.0));
    var iu := PixelOffset(blockSz, 1.0);
    assert blockSz as real * (1.0 + 1.0) / 2.0 == blockSz as real;
    var iv := PixelOffset(blockSz, 0.0);
    OffsetInBlock(blockSz, 0.0);
    assert iu + blockSz * 1 == 0 + blockSz * 2;
    Compose(blockSz, 2, 0, 0, iv);
  }

  /** `faceToIndex` with the pixel offsets clamped to the block, so edges stay on their face. */
  function FaceToIndexClamped(width: int, blockSz: int, f: Face, uv: V2): int
    requires blockSz >= 1
  {
    var iu := Clamp(PixelOffset(blockSz, uv.x), blockSz);
    var iv := Clamp(PixelOffset(blockSz, uv.y), blockSz);
    (iu + blockSz * FaceLoc(f).0) + width * (iv + blockSz * FaceLoc(f).1)
  }

  function Clamp(i: int, n: int): (r: int)
    requires n >= 1
    ensures 0 <= r < n
    ensures 0 <= i < n ==> r == i
  {
    if i < 0 then 0 else if i >= n then n - 1 else i
  }

  /** Clamping changes nothing for face coordinates in [-1, 1): only the edge value 1 moves. */
  lemma ClampAgrees(width: int, blockSz: int, f: Face, uv: V2)
    requires blockSz >= 1 && -1.0 <= uv.x < 1.0 && -1.0 <= uv.y < 1.0
    ensures FaceToIndexClamped(width, blockSz, f, uv) == FaceToIndex(width, blockSz, f, uv)
  {
    OffsetInBlock(blockSz, uv.x);
    OffsetInBlock(blockSz, uv.y);
  }

  /** With clamping every face coordinate, edges included, reads a pixel of its own face. */
  lemma ClampedInFace(blockSz: int, f: Face, uv: V2)
    requires blockSz >= 1
    ensures var idx := FaceToIndexClamped(3 * blockSz, blockSz, f, uv);
      0 <= idx < (3 * blockSz) * (4 * blockSz)
      && IndexToFace(3 * blockSz, blockSz, idx).0 == f
  {
    TablesInverse(f);
    Compose(blockSz, FaceLoc(f).0, FaceLoc(f).1,
            Clamp(PixelOffset(blockSz, uv.x), blockSz), Clamp(PixelOffset(blockSz, uv.y), blockSz));
  }

  // ---------------------------------------------------------------- sampling table

  function Pow2(b: nat): (r: nat)
    ensures r >= 1
  {
    if b == 0 then 1 else 2 * Pow2(b - 1)
  }

  /** `for (mapBits = 0; (1 << mapBits) < n; mapBits++)`: the least b with 2^b >= n. */
  function MapBits(n: int): (b: nat)
    ensures Pow2(b) >= n
    ensures b == 0 || Pow2(b - 1) < n
  {
    MapBitsFrom(0, n)
  }

  function MapBitsFrom(b: nat, n: int): (r: nat)
    requires b == 0 || Pow2(b - 1) < n
    ensures r >= b && Pow2(r) >= n
    ensures r == 0 || Pow2(r - 1) < n
    decreases if Pow2(b) < n then n - Pow2(b) else 0
  {
    if Pow2(b) < n then MapBitsFrom(b + 1, n) else b
  }

  /** The solid-angle weight `pow(1 + u^2 + v^2, 1.5)` of face coordinates; `pow15` is `Math.pow(_, 1.5)`. */
  function Weight(pow15: real -> real, uv: V2): real {
    pow15(1.0 + uv.x * uv.x + uv.y * uv.y)
  }

  /** The largest of the three channels of pixel k. */
  function Brightest(data: seq<real>, k: int): real
    requires 0 <= 3 * k && 3 * k + 2 < |data|
  {
    Max(Max(data[3 * k], data[3 * k + 1]), data[3 * k + 2])
  }

  /**
   * `calcPixelProb`: zero off the faces, else the brightest channel divided by the weight.
   * A zero weight, which `Math.pow` never returns here, gives zero.
   */
  function PixelProb(width: int, blockSz: int, data: seq<real>, pow15: real -> real, k: int): (p: real)
    requires CrossLayout(width, 4 * blockSz, blockSz)
    requires 0 <= k < width * (4 * blockSz) && |data| == 3 * (width * (4 * blockSz))
    ensures IndexToFace(width, blockSz, k).0 == -1 ==> p == 0.0
    ensures IndexToFace(width, blockSz, k).0 != -1 && Weight(pow15, IndexToFace(width, blockSz, k).1) != 0.0
      ==> p * Weight(pow15, IndexToFace(width, blockSz, k).1) == Brightest(data, k)
  {
    var (f, uv) := IndexToFace(width, blockSz, k);
    var w := Weight(pow15, uv);
    if f == -1 || w == 0.0 then 0.0
    else
      DivMul(Brightest(data, k), w);
      Brightest(data, k) / w
  }

  lemma DivMul(m: real, d: real)
    requires d != 0.0
    ensures m / d * d == m
  {
  }

  /** `cumProb` before normalising: c[0] = 0 and c[k] = c[k-1] + p[k-1]. */
  function Cumulative(p: seq<real>): (c: seq<real>)
    ensures |c| == |p| + 1 && c[0] == 0.0
    ensures forall k :: 1 <= k <= |p| ==> c[k] == c[k - 1] + p[k - 1]
  {
    if |p| == 0 then [0.0]
    else
      var c := Cumulative(p[..|p| - 1]);
      c + [c[|p| - 1] + p[|p| - 1]]
  }

  /** With non-negative pixel probabilities the cumulative table never decreases. */
  lemma {:induction false} CumulativeMonotone(p: seq<real>, i: int, j: int)
    requires forall k :: 0 <= k < |p| ==> p[k] >= 0.0
    requires 0 <= i <= j <= |p|
    ensures Cumulative(p)[i] <= Cumulative(p)[j]
    decreases j - i
  {
    if i < j {
      CumulativeMonotone(p, i, j - 1);
    }
  }

  /**
   * The normalising loop `cumProb[k] /= cumProb[n]` for k = 1..n. The last step divides
   * the total by itself, so every earlier entry is divided by the original total.
   */
  method Normalise(c: seq<real>) returns (r: seq<real>)
    requires |c| >= 1 && c[|c| - 1] != 0.0
    ensures |r| == |c| && r[0] == c[0]
    ensures forall k :: 1 <= k < |c| ==> r[k] == c[k] / c[|c| - 1]
  {
    var a := c;
    var n := |c| - 1;
    var k := 1;
    while k <= n
      invariant 1 <= k <= n + 1
      invariant |a| == |c| && a[0] == c[0]
      invariant forall j :: 1 <= j < k ==> a[j] == c[j] / c[n]
      invariant forall j :: k <= j <= n ==> a[j] == c[j]
    {
      a := a[k := a[k] / a[n]];
      k := k + 1;
    }
    r := a;
  }

  /**
   * `setFilename` after the file is read: block size, map bits and the normalised
   * cumulative table over all pixels. An all-black map has total 0, and Java's division
   * fills the table with 0 / 0; the model leaves that table as the running sums.
   */
  method Load(width: int, height: int, data: seq<real>, pow15: real -> real, scaleFactor: real)
    returns (cm: Cubemap)
    requires CrossLayout(width, height, width / 3) && |data| == 3 * (width * height)
    ensures Valid(cm) && cm.imageData == data && cm.blockSz == width / 3
    ensures cm.mapBits == MapBits(width * height)
    ensures cm.cumProb[0] == 0.0
    ensures Sum(Probs(width, width / 3, data, pow15)) != 0.0 ==> cm.cumProb[width * height] == 1.0
    ensures Sum(Probs(width, width / 3, data, pow15)) != 0.0 ==> forall k :: 1 <= k <= width * height ==>
      cm.cumProb[k] == Cumulative(Probs(width, width / 3, data, pow15))[k]
                       / Sum(Probs(width, width / 3, data, pow15))
    ensures Sum(Probs(width, width / 3, data, pow15)) == 0.0 ==>
      cm.cumProb == Cumulative(Probs(width, width / 3, data, pow15))
  {
    var bs := width / 3;
    var table := Table(Probs(width, bs, data, pow15));
    cm := Cubemap(width, height, bs, MapBits(width * height), data, table, scaleFactor);
  }

  /** The two loops of `setFilename` over the pixel probabilities p: running sums, then division by the total. */
  method Table(p: seq<real>) returns (table: seq<real>)
    ensures |table| == |p| + 1 && table[0] == 0.0
    ensures Sum(p) != 0.0 ==> table[|p|] == 1.0
    ensures Sum(p) != 0.0 ==> forall k :: 1 <= k <= |p| ==> table[k] == Cumulative(p)[k] / Sum(p)
    ensures Sum(p) == 0.0 ==> table == Cumulative(p)
  {
    var c := Cumulative(p);
    SumIsLast(p);
    table := c;
    if c[|c| - 1] != 0.0 {
      table := Normalise(c);
      assert c[|c| - 1] / c[|c| - 1] == 1.0;
    }
  }

  /** The probability of every pixel, in index order. */
  function Probs(width: int, blockSz: int, data: seq<real>, pow15: real -> real): (p: seq<real>)
    requires CrossLayout(width, 4 * blockSz, blockSz) && |data| == 3 * (width * (4 * blockSz))
    ensures |p| == width * (4 * blockSz)
  {
    seq(width * (4 * blockSz), k requires 0 <= k < width * (4 * blockSz) =>
      PixelProb(width, blockSz, data, pow15, k))
  }

  function Sum(p: seq<real>): real {
    if |p| == 0 then 0.0 else Sum(p[..|p| - 1]) + p[|p| - 1]
  }

  lemma {:induction false} SumIsLast(p: seq<real>)
    ensures Cumulative(p)[|p|] == Sum(p)
  {
    if |p| > 0 {
      SumIsLast(p[..|p| - 1]);
    }
  }

  /** The normalised table rises from 0 to 1 when every pixel probability is non-negative. */
  lemma NormalisedMonotone(c: seq<real>, r: seq<real>, i: int, j: int)
    requires |c| >= 1 && c[|c| - 1] > 0.0 && c[0] == 0.0
    requires |r| == |c| && r[0] == c[0]
    requires forall k :: 1 <= k < |c| ==> r[k] == c[k] / c[|c| - 1]
    requires forall a, b :: 0 <= a <= b < |c| ==> c[a] <= c[b]
    requires 0 <= i <= j < |c|
    ensures r[i] <= r[j] && r[|c| - 1] == 1.0
  {
    var t := c[|c| - 1];
    DivSelf(t);
    assert c[0] <= c[i] <= c[j];
    DivMonotone(0.0, c[i], t);
    DivMonotone(c[i], c[j], t);
  }

  // ---------------------------------------------------------------- PFM header

  /**
   * `Character.isWhitespace` on a byte cast to char: tab through carriage return, the
   * four separator controls 28..31, and space. Negative bytes become chars >= 0xFF80,
   * none of which is whitespace.
   */
  predicate IsWhitespace(b: int) {
    (9 <= b <= 13) || (28 <= b <= 32)
  }

  /** `(char) b` for a signed byte. */
  function ByteChar(b: int): char
    requires -128 <= b < 128
  {
    if b < 0 then (b + 65536) as char else b as char
  }

  predicate IsBytes(s: seq<int>) {
    forall i :: 0 <= i < |s| ==> -128 <= s[i] < 128
  }

  /** The first position at or after i that holds a non-whitespace byte, or the end. */
  function SkipSpace(s: seq<int>, i: nat): (j: nat)
    requires i <= |s|
    ensures i <= j <= |s|
    ensures forall k :: i <= k < j ==> IsWhitespace(s[k])
    ensures j < |s| ==> !IsWhitespace(s[j])
    decreases |s| - i
  {
    if i == |s| || !IsWhitespace(s[i]) then i else SkipSpace(s, i + 1)
  }

  /** The first position at or after i that holds a whitespace byte, or the end. */
  function ScanWord(s: seq<int>, i: nat): (j: nat)
    requires i <= |s|
    ensures i <= j <= |s|
    ensures forall k :: i <= k < j ==> !IsWhitespace(s[k])
    ensures j < |s| ==> IsWhitespace(s[j])
    decreases |s| - i
  {
    if i == |s| || IsWhitespace(s[i]) then i else ScanWord(s, i + 1)
  }

  function Chars(s: seq<int>): (r: string)
    requires IsBytes(s)
    ensures |r| == |s|
    ensures forall i :: 0 <= i < |s| ==> r[i] == ByteChar(s[i])
  {
    seq(|s|, i requires 0 <= i < |s| => ByteChar(s[i]))
  }

  /**
   * `readWord` from position i: skip whitespace, take the maximal run of other bytes,
   * and consume the one whitespace byte that ends it. Running out of input before that
   * byte is Java's EOFException, None here.
   */
  function ReadWord(s: seq<int>, i: nat): (r: Option<(string, nat)>)
    requires i <= |s| && IsBytes(s)
    ensures r.Some? ==> exists start, stop ::
      i <= start < stop < |s| && r.value.1 == stop + 1
      && (forall k :: i <= k < start ==> IsWhitespace(s[k]))
      && (forall k :: start <= k < stop ==> !IsWhitespace(s[k]))
      && IsWhitespace(s[stop])
      && r.value.0 == Chars(s[start..stop])
    ensures r.None? <==> forall k :: SkipSpace(s, i) < k < |s| ==> !IsWhitespace(s[k])
  {
    var start := SkipSpace(s, i);
    if start == |s| then None
    else
      var stop := ScanWord(s, start + 1);
      if stop == |s| then None
      else Some((Chars(s[start..stop]), stop + 1))
  }

  /** `Integer.parseInt`: an optional sign and at least one decimal digit, within int range. */
  function ParseInt(w: string): (r: Option<int>)
    ensures r.Some? ==> -0x8000_0000 <= r.value < 0x8000_0000
  {
    if |w| == 0 then None
    else
      var neg := w[0] == '-';
      var digits := if w[0] == '-' || w[0] == '+' then w[1..] else w;
      if |digits| == 0 || !AllDigits(digits) then None
      else
        var n: int := if neg then -(DecimalValue(digits) as int) else DecimalValue(digits);
        if -0x8000_0000 <= n < 0x8000_0000 then Some(n) else None
  }

  predicate AllDigits(w: string) {
    forall i :: 0 <= i < |w| ==> '0' <= w[i] <= '9'
  }

  function DecimalValue(w: string): nat
    requires AllDigits(w)
  {
    if |w| == 0 then 0
    else DecimalValue(w[..|w| - 1]) * 10 + (w[|w| - 1] as int - '0' as int)
  }

  /** The header fields `readPPMHeader` stores into its info argument. */
  datatype HeaderInfo = HeaderInfo(width: int, height: int, bands: int, maxval: real)

  /** Java int multiplication: the product wrapped to 32 bits. */
  function WrapInt(x: int): (r: int)
    ensures -0x8000_0000 <= r < 0x8000_0000
    ensures -0x8000_0000 <= x < 0x8000_0000 ==> r == x
  {
    var m := x % 0x1_0000_0000;
    if m >= 0x8000_0000 then m - 0x1_0000_0000 else m
  }

  /**
   * `readPPMHeader`: -1 unless the first two bytes are 'P' and 'F'; otherwise the number
   * of floats, width * height * 3, with the header fields when info is wanted. None is an
   * exception (end of input, or a word that does not parse); `parseFloat` is
   * `Float.parseFloat`.
   */
  function ReadPPMHeader(s: seq<int>, parseFloat: string -> Option<real>, wantInfo: bool)
    : (r: Option<(int, Option<HeaderInfo>)>)
    requires IsBytes(s)
    ensures r.Some? && r.value.0 != -1 ==> |s| >= 2 && s[0] == 'P' as int && s[1] == 'F' as int
    ensures |s| >= 1 && s[0] != 'P' as int ==> r == Some((-1, None))
    ensures |s| >= 2 && s[0] == 'P' as int && s[1] != 'F' as int ==> r == Some((-1, None))
    ensures r.Some? && r.value.1.Some? ==>
      (wantInfo && r.value.1.value.bands == 3
       && r.value.0 == WrapInt(WrapInt(r.value.1.value.width * r.value.1.value.height) * 3))
  {
    if |s| == 0 then None
    else if s[0] != 'P' as int then Some((-1, None))
    else if |s| == 1 then None
    else if s[1] != 'F' as int then Some((-1, None))
    else
      match ReadWord(s, 2)
      case None => None
      case Some((w1, i1)) =>
        match ReadWord(s, i1)
        case None => None
        case Some((w2, i2)) =>
          match (ParseInt(w1), ParseInt(w2))
          case (Some(width), Some(height)) =>
            var size := WrapInt(WrapInt(width * height) * 3);
            (match ReadWord(s, i2)
             case None => None
             case Some((w3, _)) =>
               match parseFloat(w3)
               case None => None
               case Some(maxval) =>
                 Some((size, if wantInfo then Some(HeaderInfo(width, height, 3, maxval)) else None)))
          case _ => None
  }
}
