/**
 * `RayTracer.renderImage` and `RayTracer.renderBlock`: the image is cut into blocks of at
 * most 32 x 32 pixels, visited in the order of the block spiral; each pixel of a block
 * averages samples x samples camera rays spread evenly over the pixel, and is scaled by
 * the scene's exposure.
 */
module Render {
  import opened Geometry
  import opened Shaders
  import opened JavaInt
  import opened BlockSpirals
  import Wrappers
  import Cameras
  import Scenes
  import Tracer

  // ---------------------------------------------------------------- supersampling

  /** `(x + (i + 0.5) / samples) / extent`: the i-th of n sample positions across pixel x. */
  function SampleCoord(x: int, i: int, n: int, extent: int): real
    requires n >= 1 && extent >= 1
  {
    (x as real + (i as real + 0.5) / n as real) / extent as real
  }

  /** Every sample position of a pixel lies strictly inside that pixel's span of the image. */
  lemma SampleInsidePixel(x: int, i: int, n: int, extent: int)
    requires n >= 1 && extent >= 1 && 0 <= i < n
    ensures x as real / extent as real < SampleCoord(x, i, n, extent) < (x + 1) as real / extent as real
  {
    var f := (i as real + 0.5) / n as real;
    FractionInside(i as real + 0.5, n as real);
    DivStrict(x as real, x as real + f, extent as real);
    DivStrict(x as real + f, (x + 1) as real, extent as real);
  }

  lemma FractionInside(a: real, n: real)
    requires 0.0 < a < n
    ensures 0.0 < a / n < 1.0
  {
    var q := a / n;
    assert q * n == a;
    if q >= 1.0 {
      MulLeMono(1.0, q, n);
      assert false;
    }
    if q <= 0.0 {
      MulLeMono(q, 0.0, n);
      assert false;
    }
  }

  lemma MulLeMono(x: real, y: real, k: real)
    requires x <= y && k > 0.0
    ensures x * k <= y * k
  {
    assert y * k - x * k == (y - x) * k;
  }

  lemma DivStrict(a: real, b: real, d: real)
    requires a < b && d > 0.0
    ensures a / d < b / d
  {
    assert b / d - a / d == (b - a) / d;
    FractionInside(b - a, b - a + d);
  }

  /** Neighbouring samples are one n-th of a pixel apart. */
  lemma SamplesEvenlySpaced(x: int, i: int, n: int, extent: int)
    requires n >= 1 && extent >= 1
    ensures SampleCoord(x, i + 1, n, extent) - SampleCoord(x, i, n, extent)
         == 1.0 / (n as real * extent as real)
  {
    var a := x as real + (i as real + 0.5) / n as real;
    var b := x as real + ((i + 1) as real + 0.5) / n as real;
    assert b - a == 1.0 / n as real;
    assert b / extent as real - a / extent as real == (b - a) / extent as real;
  }

  /** The colour the camera ray through sample (i, j) of pixel (x, y) brings back. */
  function SampleColor(env: Tracer.Env, s: Scenes.Scene, x: int, y: int, w: int, h: int, n: int, i: int, j: int): Color
    requires Tracer.Ready(env, s) && s.camera.Some? && n >= 1 && w >= 1 && h >= 1
  {
    var r := Cameras.GetRay(env.sqrt, env.eps, s.camera.value, SampleCoord(x, i, n, w), SampleCoord(y, j, n, h));
    Tracer.ShadeRay(env, s, r, 1)
  }

  /** The samples of pixel (x, y) as a function of the loop counters (i, j). */
  function SampleFn(env: Tracer.Env, s: Scenes.Scene, x: int, y: int, w: int, h: int, n: int): (int, int) -> Color
    requires Tracer.Ready(env, s) && s.camera.Some? && n >= 1 && w >= 1 && h >= 1
  {
    (i: int, j: int) => SampleColor(env, s, x, y, w, h, n, i, j)
  }

  /** The first m values of row i (the inner `j` loop). */
  function Row<T>(f: (int, int) -> T, i: int, m: int): (row: seq<T>)
    ensures |row| == if m < 0 then 0 else m
    ensures forall j :: 0 <= j < |row| ==> row[j] == f(i, j)
    decreases m
  {
    if m <= 0 then [] else Row(f, i, m - 1) + [f(i, m - 1)]
  }

  /** The values of the first m rows of n, in the order the nested loops produce them. */
  function Grid<T>(f: (int, int) -> T, n: int, m: int): (g: seq<T>)
    requires n >= 0
    ensures |g| == if m < 0 then 0 else m * n
    decreases m
  {
    if m <= 0 then [] else Grid(f, n, m - 1) + Row(f, m - 1, n)
  }

  /** Row-major order: the value for (i, j) sits at position i * n + j. */
  lemma {:induction false} GridAt<T>(f: (int, int) -> T, n: int, m: int, i: int, j: int)
    requires 0 <= i < m && 0 <= j < n
    ensures i * n + j < |Grid(f, n, m)| && Grid(f, n, m)[i * n + j] == f(i, j)
    decreases m
  {
    var front := Grid(f, n, m - 1);
    if i < m - 1 {
      GridAt(f, n, m - 1, i, j);
    } else {
      assert i * n + j == |front| + j;
    }
  }

  /** When every loop value is c, so is every entry of the grid. */
  lemma {:induction false} GridConst<T>(f: (int, int) -> T, n: int, m: int, c: T)
    requires n >= 0
    requires forall i, j :: 0 <= i < m && 0 <= j < n ==> f(i, j) == c
    ensures forall k :: 0 <= k < |Grid(f, n, m)| ==> Grid(f, n, m)[k] == c
    decreases m
  {
    if m > 0 {
      GridConst(f, n, m - 1, c);
      var row := Row(f, m - 1, n);
      assert forall j :: 0 <= j < |row| ==> row[j] == c;
    }
  }

  /** All samples of pixel (x, y); none when the sample count is not positive. */
  function Samples(env: Tracer.Env, s: Scenes.Scene, x: int, y: int, w: int, h: int): (g: seq<Color>)
    requires Tracer.Ready(env, s) && s.camera.Some? && w >= 1 && h >= 1
    ensures Scenes.GetSamples(s) >= 1 ==> |g| == Scenes.GetSamples(s) * Scenes.GetSamples(s)
    ensures Scenes.GetSamples(s) < 1 ==> g == []
  {
    var n := Scenes.GetSamples(s);
    if n < 1 then [] else Grid(SampleFn(env, s, x, y, w, h, n), n, n)
  }

  /**
   * Sample (i, j) of a pixel is the colour of the camera ray through the i-th horizontal
   * and j-th vertical sample position, traced at depth 1; it is added i * n + j-th.
   */
  lemma SampleOrder(env: Tracer.Env, s: Scenes.Scene, x: int, y: int, w: int, h: int, i: int, j: int)
    requires Tracer.Ready(env, s) && s.camera.Some? && w >= 1 && h >= 1
    requires 0 <= i < Scenes.GetSamples(s) && 0 <= j < Scenes.GetSamples(s)
    ensures var n := Scenes.GetSamples(s);
      i * n + j < |Samples(env, s, x, y, w, h)|
      && Samples(env, s, x, y, w, h)[i * n + j]
         == Tracer.ShadeRay(env, s, Cameras.GetRay(env.sqrt, env.eps, s.camera.value,
                                                   SampleCoord(x, i, n, w), SampleCoord(y, j, n, h)), 1)
  {
    var n := Scenes.GetSamples(s);
    GridAt(SampleFn(env, s, x, y, w, h, n), n, n, i, j);
  }

  /**
   * The colour written at pixel (x, y): the summed samples times `sInvSqr`, times the
   * exposure. Multiplied back by the samples², it is the exposure times the samples' sum.
   */
  function Pixel(env: Tracer.Env, s: Scenes.Scene, x: int, y: int, w: int, h: int): (c: Color)
    requires Tracer.Ready(env, s) && s.camera.Some? && 0 <= x < w && 0 <= y < h
    ensures var n := Scenes.GetSamples(s) as real;
      Scale(n, Scale(n, c)) == Scale(s.exposure, Accumulate(Samples(env, s, x, y, w, h)))
  {
    AverageTimesCount(Samples(env, s, x, y, w, h), Scenes.GetSamples(s), s.exposure);
    Average(Samples(env, s, x, y, w, h), Scenes.GetSamples(s), s.exposure)
  }

  /** The average scaled twice by n is the sum scaled by e: the average is the sum over n * n. */
  lemma AverageTimesCount(g: seq<Color>, n: int, e: real)
    requires n != 0
    ensures Scale(n as real, Scale(n as real, Average(g, n, e))) == Scale(e, Accumulate(g))
  {
    ScaleUndo(n as real, SInvSqr(n), e, Accumulate(g));
  }

  lemma ScaleUndo(r: real, q: real, e: real, a: Color)
    requires q * (r * r) == 1.0
    ensures Scale(r, Scale(r, Scale(e, Scale(q, a)))) == Scale(e, a)
  {
    ScaleScale(e, q, a);
    ScaleScale(r, e * q, a);
    ScaleScale(r, r * (e * q), a);
    var k := r * (r * (e * q));
    assert k == e * (q * (r * r));
    TimesOne(e, q * (r * r));
    assert k == e;
  }

  lemma TimesOne(e: real, m: real)
    requires m == 1.0
    ensures e * m == e
  {
  }

  lemma ScaleScale(k: real, l: real, a: Color)
    ensures Scale(k, Scale(l, a)) == Scale(k * l, a)
  {
  }

  /** `pixelColor.mul(sInvSqr).mul(exposure)` after the samples have been added up. */
  function Average(g: seq<Color>, n: int, e: real): Color
    requires n != 0
  {
    Scale(e, Scale(SInvSqr(n), Accumulate(g)))
  }

  /** `sInvSqr = sInv * sInv` with `sInv = 1.0 / samples`: it undoes a factor n * n. */
  function SInvSqr(n: int): (q: real)
    requires n != 0
    ensures q * ((n as real) * (n as real)) == 1.0
  {
    var inv := 1.0 / n as real;
    SquareCancels(inv, n as real);
    inv * inv
  }

  /** A sum of k copies of one colour is k times that colour. */
  lemma {:induction false} AccumulateConst(ts: seq<Color>, c: Color)
    requires forall k :: 0 <= k < |ts| ==> ts[k] == c
    ensures Accumulate(ts).x == |ts| as real * c.x
    ensures Accumulate(ts).y == |ts| as real * c.y
    ensures Accumulate(ts).z == |ts| as real * c.z
    decreases |ts|
  {
    if |ts| > 0 {
      var k := |ts| - 1;
      var front := ts[..k];
      assert forall i :: 0 <= i < |front| ==> front[i] == c;
      AccumulateConst(front, c);
      assert Accumulate(ts) == Add(Accumulate(front), c);
      AddOneMore(k as real, c.x);
      AddOneMore(k as real, c.y);
      AddOneMore(k as real, c.z);
    }
  }

  lemma AddOneMore(k: real, a: real)
    ensures k * a + a == (k + 1.0) * a
  {
  }

  /** Scaling n * n copies of c by a factor that undoes n * n gives c back. */
  lemma MeanOfConst(acc: Color, c: Color, nn: real, q: real, e: real)
    requires q * nn == 1.0
    requires acc.x == nn * c.x && acc.y == nn * c.y && acc.z == nn * c.z
    ensures Scale(e, Scale(q, acc)) == Scale(e, c)
  {
    CancelBy(q, nn, c.x);
    CancelBy(q, nn, c.y);
    CancelBy(q, nn, c.z);
  }

  lemma SquareCancels(u: real, n: real)
    requires u * n == 1.0
    ensures (u * u) * (n * n) == 1.0
  {
    assert (u * u) * (n * n) == (u * n) * (u * n);
  }

  lemma CancelBy(v: real, p: real, a: real)
    requires v * p == 1.0
    ensures v * (p * a) == a
  {
    assert v * (p * a) == (v * p) * a;
  }

  /**
   * When every sample ray of a pixel brings back the same colour, the pixel is that
   * colour times the exposure: the average over samples x samples rays is exact.
   */
  lemma PixelOfUniformSamples(env: Tracer.Env, s: Scenes.Scene, x: int, y: int, w: int, h: int, c: Color)
    requires Tracer.Ready(env, s) && s.camera.Some? && 0 <= x < w && 0 <= y < h && s.samples >= 0
    requires forall i, j :: 0 <= i < Scenes.GetSamples(s) && 0 <= j < Scenes.GetSamples(s) ==>
               SampleColor(env, s, x, y, w, h, Scenes.GetSamples(s), i, j) == c
    ensures Pixel(env, s, x, y, w, h) == Scale(s.exposure, c)
  {
    var n := Scenes.GetSamples(s);
    var g := Samples(env, s, x, y, w, h);
    SamplesConst(env, s, x, y, w, h, c);
    AverageOfConst(g, c, n, s.exposure);
  }

  lemma SamplesConst(env: Tracer.Env, s: Scenes.Scene, x: int, y: int, w: int, h: int, c: Color)
    requires Tracer.Ready(env, s) && s.camera.Some? && w >= 1 && h >= 1 && Scenes.GetSamples(s) >= 1
    requires forall i, j :: 0 <= i < Scenes.GetSamples(s) && 0 <= j < Scenes.GetSamples(s) ==>
               SampleColor(env, s, x, y, w, h, Scenes.GetSamples(s), i, j) == c
    ensures forall k :: 0 <= k < |Samples(env, s, x, y, w, h)| ==> Samples(env, s, x, y, w, h)[k] == c
  {
    var n := Scenes.GetSamples(s);
    var f := SampleFn(env, s, x, y, w, h, n);
    forall i, j | 0 <= i < n && 0 <= j < n
      ensures f(i, j) == c
    {
      assert f(i, j) == SampleColor(env, s, x, y, w, h, n, i, j);
    }
    GridConst(f, n, n, c);
  }

  /** The average of n * n copies of c, scaled by e, is c scaled by e. */
  lemma AverageOfConst(g: seq<Color>, c: Color, n: int, e: real)
    requires n >= 1 && |g| == n * n
    requires forall k :: 0 <= k < |g| ==> g[k] == c
    ensures Average(g, n, e) == Scale(e, c)
  {
    var r := n as real;
    var acc := Accumulate(g);
    AccumulateConst(g, c);
    SquareCount(g, n);
    ConstSum(acc, c, |g| as real, r * r);
    MeanOfConst(acc, c, r * r, SInvSqr(n), e);
  }

  lemma SquareCount(g: seq<Color>, n: int)
    requires |g| == n * n
    ensures |g| as real == (n as real) * (n as real)
  {
  }

  lemma ConstSum(acc: Color, c: Color, p: real, q: real)
    requires p == q
    requires acc.x == p * c.x && acc.y == p * c.y && acc.z == p * c.z
    ensures acc.x == q * c.x && acc.y == q * c.y && acc.z == q * c.z
  {
  }


  /** In a scene with no surfaces and no cube map, every pixel is the background colour times the exposure. */
  lemma EmptyScenePixel(env: Tracer.Env, s: Scenes.Scene, x: int, y: int, w: int, h: int)
    requires Tracer.Ready(env, s) && s.camera.Some? && 0 <= x < w && 0 <= y < h && s.samples >= 0
    requires s.accel.tree.None? && s.cubemap.None?
    ensures Pixel(env, s, x, y, w, h) == Scale(s.exposure, s.backColor)
  {
    var n := Scenes.GetSamples(s);
    forall i, j | 0 <= i < n && 0 <= j < n
      ensures SampleColor(env, s, x, y, w, h, n, i, j) == s.backColor
    {
    }
    PixelOfUniformSamples(env, s, x, y, w, h, s.backColor);
  }

  // ---------------------------------------------------------------- blocks

  /** A block of the image: its first pixel and its extent. */
  datatype Block = Block(ox: int, oy: int, sx: int, sy: int)

  function Min(a: int, b: int): int { if a <= b then a else b }

  /** The block of cell (cx, cy): offset `cell * 32`, size `min(extent - offset, 32)`. */
  function BlockOf(width: int, height: int, cx: int, cy: int): (b: Block)
    ensures b.ox == cx * SubSize && b.oy == cy * SubSize
  {
    var ox := cx * SubSize;
    var oy := cy * SubSize;
    Block(ox, oy, Min(width - ox, SubSize), Min(height - oy, SubSize))
  }

  /** The pixels of the column at x, from oy up, in the inner loop's order. */
  function Column(x: int, oy: int, sy: int): (c: seq<(int, int)>)
    ensures |c| == if sy < 0 then 0 else sy
    ensures forall k :: 0 <= k < |c| ==> c[k] == (x, oy + k)
    decreases sy
  {
    if sy <= 0 then [] else Column(x, oy, sy - 1) + [(x, oy + sy - 1)]
  }

  /** The pixels `renderBlock` writes, x outer and y inner. */
  function BlockPixels(b: Block): seq<(int, int)>
    decreases if b.sx < 0 then 0 else b.sx
  {
    if b.sx <= 0 then []
    else Column(b.ox, b.oy, b.sy) + BlockPixels(b.(ox := b.ox + 1, sx := b.sx - 1))
  }

  predicate InBlock(b: Block, p: (int, int)) {
    b.ox <= p.0 < b.ox + b.sx && b.oy <= p.1 < b.oy + b.sy
  }

  /** A block writes exactly the pixels of its rectangle, each of them once. */
  lemma {:induction false} BlockPixelsExact(b: Block)
    ensures forall p :: p in BlockPixels(b) <==> InBlock(b, p)
    ensures forall k1, k2 :: 0 <= k1 < k2 < |BlockPixels(b)| ==> BlockPixels(b)[k1] != BlockPixels(b)[k2]
    decreases if b.sx < 0 then 0 else b.sx
  {
    if b.sx > 0 {
      var rest := b.(ox := b.ox + 1, sx := b.sx - 1);
      BlockPixelsExact(rest);
      var c := Column(b.ox, b.oy, b.sy);
      var ps := BlockPixels(b);
      assert ps == c + BlockPixels(rest);
      forall p
        ensures p in ps <==> InBlock(b, p)
      {
        if p in c {
          var k :| 0 <= k < |c| && c[k] == p;
        }
        if InBlock(b, p) && p.0 == b.ox {
          assert c[p.1 - b.oy] == p;
        }
      }
      forall k1, k2 | 0 <= k1 < k2 < |ps|
        ensures ps[k1] != ps[k2]
      {
        if k2 >= |c| {
          assert ps[k2] == BlockPixels(rest)[k2 - |c|];
          assert ps[k2] in BlockPixels(rest);
          if k1 >= |c| {
            assert ps[k1] == BlockPixels(rest)[k1 - |c|];
          }
        }
      }
    }
  }

  /** The block of a cell of the grid is a non-empty rectangle of at most 32 x 32 pixels inside the image. */
  lemma BlockInImage(width: int, height: int, cx: int, cy: int)
    requires width >= 1 && height >= 1
    requires 0 <= cx < GridSize(width) && 0 <= cy < GridSize(height)
    ensures var b := BlockOf(width, height, cx, cy);
      0 <= b.ox && b.ox + b.sx <= width && 1 <= b.sx <= SubSize
      && 0 <= b.oy && b.oy + b.sy <= height && 1 <= b.sy <= SubSize
  {
    CellStartsInside(width, cx);
    CellStartsInside(height, cy);
  }

  lemma CellStartsInside(extent: int, c: int)
    requires extent >= 1 && 0 <= c < GridSize(extent)
    ensures 0 <= c * SubSize < extent
  {
    GridSizeCovers(extent);
    assert c * SubSize <= (GridSize(extent) - 1) * SubSize;
  }

  /**
   * The blocks of the grid tile the image: every pixel lies in the block of exactly one
   * cell, the one at (x / 32, y / 32).
   */
  lemma PixelInOneBlock(width: int, height: int, x: int, y: int, cx: int, cy: int)
    requires 0 <= x < width && 0 <= y < height
    ensures 0 <= x / SubSize < GridSize(width) && 0 <= y / SubSize < GridSize(height)
    ensures InBlock(BlockOf(width, height, x / SubSize, y / SubSize), (x, y))
    ensures InBlock(BlockOf(width, height, cx, cy), (x, y)) <==> cx == x / SubSize && cy == y / SubSize
  {
    CellOfCoordinate(width, x, cx);
    CellOfCoordinate(height, y, cy);
  }

  lemma CellOfCoordinate(extent: int, x: int, c: int)
    requires 0 <= x < extent
    ensures 0 <= x / SubSize < GridSize(extent)
    ensures (x / SubSize) * SubSize <= x < (x / SubSize) * SubSize + Min(extent - (x / SubSize) * SubSize, SubSize)
    ensures (c * SubSize <= x < c * SubSize + Min(extent - c * SubSize, SubSize)) <==> c == x / SubSize
  {
    GridSizeCovers(extent);
    var q := x / SubSize;
    assert x == q * SubSize + x % SubSize;
    assert q * SubSize <= (extent - 1);
  }

  predicate InImage(p: (int, int), w: int, h: int) {
    0 <= p.0 < w && 0 <= p.1 < h
  }

  /** `renderBlock`: each pixel of the block, in loop order, with the colour written there. */
  function RenderBlock(env: Tracer.Env, s: Scenes.Scene, w: int, h: int, b: Block): (out: seq<((int, int), Color)>)
    requires Tracer.Ready(env, s) && s.camera.Some?
    requires b.sx > 0 && b.sy > 0 ==> 0 <= b.ox && b.ox + b.sx <= w && 0 <= b.oy && b.oy + b.sy <= h
    ensures |out| == |BlockPixels(b)|
    ensures forall k :: 0 <= k < |out| ==> out[k].0 == BlockPixels(b)[k] && InBlock(b, out[k].0)
    ensures forall k :: 0 <= k < |out| ==>
      InImage(out[k].0, w, h) && out[k].1 == Pixel(env, s, out[k].0.0, out[k].0.1, w, h)
  {
    BlockPixelsExact(b);
    var ps := BlockPixels(b);
    assert forall k :: 0 <= k < |ps| ==> ps[k] in ps;
    Tag((p: (int, int)) requires InImage(p, w, h) => Pixel(env, s, p.0, p.1, w, h), ps)
  }

  /** Each pixel of ps, in order, paired with f of it. */
  function Tag<A>(f: ((int, int)) --> A, ps: seq<(int, int)>): (out: seq<((int, int), A)>)
    requires forall k :: 0 <= k < |ps| ==> f.requires(ps[k])
    ensures |out| == |ps|
    ensures forall k :: 0 <= k < |out| ==> out[k] == (ps[k], f(ps[k]))
    decreases |ps|
  {
    if |ps| == 0 then []
    else Tag(f, ps[..|ps| - 1]) + [(ps[|ps| - 1], f(ps[|ps| - 1]))]
  }

  // ---------------------------------------------------------------- the block loop

  /**
   * `renderImage`'s block loop: `totalSubblocks` increments of the spiral, each naming the
   * cell whose block is rendered next. None when an increment runs out of budget.
   */
  function BlockOrder(sp: BlockSpirals.Spiral, width: int, height: int, k: nat, fuel: nat)
    : (bs: Wrappers.Option<seq<Block>>)
    ensures bs.Some? ==> |bs.value| == k
    decreases k
  {
    if k == 0 then Wrappers.Some([])
    else match Increment(sp, fuel)
      case None => Wrappers.None
      case Some(t) =>
        match BlockOrder(t, width, height, k - 1, fuel)
        case None => Wrappers.None
        case Some(rest) => Wrappers.Some([BlockOf(width, height, t.curX, t.curY)] + rest)
  }

  /** Every block the loop renders is a non-empty rectangle of at most 32 x 32 pixels inside the image. */
  lemma {:induction false} BlockOrderInImage(sp: BlockSpirals.Spiral, width: int, height: int, k: nat, fuel: nat)
    requires width >= 1 && height >= 1
    requires sp.numSubX == GridSize(width) && sp.numSubY == GridSize(height)
    ensures var bs := BlockOrder(sp, width, height, k, fuel);
      bs.Some? ==> forall i :: 0 <= i < |bs.value| ==>
        0 <= bs.value[i].ox && bs.value[i].ox + bs.value[i].sx <= width && 1 <= bs.value[i].sx <= SubSize
        && 0 <= bs.value[i].oy && bs.value[i].oy + bs.value[i].sy <= height && 1 <= bs.value[i].sy <= SubSize
    decreases k
  {
    if k > 0 && Increment(sp, fuel).Some? {
      var t := Increment(sp, fuel).value;
      BlockInImage(width, height, t.curX, t.curY);
      BlockOrderInImage(t, width, height, k - 1, fuel);
    }
  }

  /** The loop of `renderImage` runs the spiral from its initial state for `totalSubblocks` blocks. */
  function ImageBlocks(width: int, height: int, fuel: nat): (bs: Wrappers.Option<seq<Block>>)
    ensures width >= 1 && height >= 1 && bs.Some? ==> |bs.value| == GridSize(width) * GridSize(height)
  {
    var sp := InitSpiral(width, height);
    if sp.total < 0 then Wrappers.Some([]) else BlockOrder(sp, width, height, sp.total, fuel)
  }
}
