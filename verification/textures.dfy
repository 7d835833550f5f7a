/**
 * Image textures (`ClampTexture`, `RepeatTexture`) in both tracer generations: a texture
 * coordinate is turned into a pixel index by scaling and truncating, and an index outside
 * the image is either clamped to the border or wrapped around.
 *
 * Loading the image from disk is not modelled; an image is its size and its pixel
 * lookup `getRGB(x, y)` converted to a colour.
 */
module Textures {
  import opened Wrappers
  import opened Geometry
  import opened JavaInt

  /** An image dimension: a loaded image is at least one pixel wide and high. */
  type Dim = n: int | n >= 1 witness 1

  datatype Image = Image(width: Dim, height: Dim, rgb: (int, int) -> Color)

  datatype Wrap = Clamp | Repeat

  /** A texture: how it treats coordinates outside [0, 1], and its image if one is set. */
  datatype Texture = Texture(wrap: Wrap, image: Option<Image>)

  /** `(int) (c * n + 0.5)`: the raw pixel index of a texture coordinate. */
  function RawIndex(c: real, n: Dim): (r: int)
    ensures c * n as real + 0.5 >= 0.0 ==> r as real <= c * n as real + 0.5 < r as real + 1.0
    ensures c * n as real + 0.5 < 0.0 ==> r as real - 1.0 < c * n as real + 0.5 <= r as real
  {
    Trunc(c * n as real + 0.5)
  }

  /** The raw column and row of a coordinate; rows count down from the top of the image. */
  function RawPixel(uv: V2, img: Image): (int, int) {
    (RawIndex(uv.x, img.width), RawIndex(1.0 - uv.y, img.height))
  }

  // ---------------------------------------------------------------- ray2 textures

  /** `Math.max(0, Math.min(n - 1, x))`. */
  function ClampIndex(x: int, n: Dim): (r: int)
    ensures 0 <= r < n
    ensures 0 <= x < n ==> r == x
  {
    if 0 > (if n - 1 < x then n - 1 else x) then 0 else if n - 1 < x then n - 1 else x
  }

  /** The clamped index is the in-range index nearest the raw one. */
  lemma ClampNearest(x: int, n: Dim, k: int)
    requires 0 <= k < n
    ensures Abs(ClampIndex(x, n) - x) <= Abs(k - x)
  {
  }

  /** `x % n`, plus n when that is negative: Java's remainder made non-negative. */
  function WrapIndex(x: int, n: Dim): (r: int)
    ensures 0 <= r < n
    ensures 0 <= x < n ==> r == x
  {
    RemSmall(x, n);
    var m := Rem(x, n);
    if m < 0 then m + n else m
  }

  /** Wrapping is reduction modulo n: the index is congruent to the raw one. */
  lemma WrapIsModulo(x: int, n: Dim)
    ensures WrapIndex(x, n) == x % n
  {
    if x >= 0 {
      RemNonNegative(x, n);
    } else {
      RemNegative(x, n);
    }
  }

  /** `ClampTexture.getTexColor` in ray2: black without an image. */
  function ClampColor(img: Option<Image>, uv: V2): (c: Color)
    ensures img.None? ==> c == Zero()
    ensures img.Some? ==> exists x, y :: 0 <= x < img.value.width && 0 <= y < img.value.height
                                    && c == img.value.rgb(x, y)
  {
    match img
    case None => Zero()
    case Some(i) =>
      var (x, y) := RawPixel(uv, i);
      var cx, cy := ClampIndex(x, i.width), ClampIndex(y, i.height);
      assert 0 <= cx < i.width && 0 <= cy < i.height;
      i.rgb(cx, cy)
  }

  /** `RepeatTexture.getTexColor` in ray2: black without an image. */
  function RepeatColor(img: Option<Image>, uv: V2): (c: Color)
    ensures img.None? ==> c == Zero()
    ensures img.Some? ==> exists x, y :: 0 <= x < img.value.width && 0 <= y < img.value.height
                                    && c == img.value.rgb(x, y)
  {
    match img
    case None => Zero()
    case Some(i) =>
      var (x, y) := RawPixel(uv, i);
      var wx, wy := WrapIndex(x, i.width), WrapIndex(y, i.height);
      assert 0 <= wx < i.width && 0 <= wy < i.height;
      i.rgb(wx, wy)
  }

  /** `Texture.getTexColor`, dispatched on the texture's kind. */
  function TexColor(t: Texture, uv: V2): Color {
    match t.wrap
    case Clamp => ClampColor(t.image, uv)
    case Repeat => RepeatColor(t.image, uv)
  }

  // ---------------------------------------------------------------- ray1 textures

  /** The ray1 clamp: an if-chain instead of min and max. */
  function ClampIndexRay1(x: int, n: Dim): int {
    if x > n - 1 then n - 1 else if x < 0 then 0 else x
  }

  /** The ray1 wrap: `x % n` above the range and `(x % n + n) % n` below it. */
  function WrapIndexRay1(x: int, n: Dim): int {
    if x > n - 1 then Rem(x, n)
    else if x < 0 then Rem(Rem(x, n) + n, n)
    else x
  }

  /** Both generations clamp every raw index the same way. */
  lemma ClampAgrees(x: int, n: Dim)
    ensures ClampIndexRay1(x, n) == ClampIndex(x, n)
  {
  }

  /** Both generations wrap every raw index the same way. */
  lemma {:induction false} WrapAgrees(x: int, n: Dim)
    ensures WrapIndexRay1(x, n) == WrapIndex(x, n)
  {
    if x > n - 1 {
      RemNonNegative(x, n);
    } else if x < 0 {
      var m := Rem(x, n);
      assert -(n as int) < m <= 0;
      RemNonNegative(m + n, n);
      if m == 0 {
        EuclidUnique(m + n, n, 1, 0);
      } else {
        EuclidUnique(m + n, n, 0, m + n);
      }
    }
  }

  function ClampColorRay1(img: Option<Image>, uv: V2): Color {
    match img
    case None => Zero()
    case Some(i) =>
      var (x, y) := RawPixel(uv, i);
      i.rgb(ClampIndexRay1(x, i.width), ClampIndexRay1(y, i.height))
  }

  function RepeatColorRay1(img: Option<Image>, uv: V2): Color {
    match img
    case None => Zero()
    case Some(i) =>
      var (x, y) := RawPixel(uv, i);
      i.rgb(WrapIndexRay1(x, i.width), WrapIndexRay1(y, i.height))
  }

  /** The ray1 and ray2 textures return the same colour for every coordinate. */
  lemma TexturesAgree(img: Option<Image>, uv: V2)
    ensures ClampColorRay1(img, uv) == ClampColor(img, uv)
    ensures RepeatColorRay1(img, uv) == RepeatColor(img, uv)
  {
    if img.Some? {
      var (x, y) := RawPixel(uv, img.value);
      ClampAgrees(x, img.value.width);
      ClampAgrees(y, img.value.height);
      WrapAgrees(x, img.value.width);
      WrapAgrees(y, img.value.height);
    }
  }
}
