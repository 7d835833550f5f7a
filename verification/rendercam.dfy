/**
 * `gl.RenderCamera.updateCameraMatrix`: the view matrix is the inverse of the camera's
 * world transformation, and the projection is built from the camera's image size widened
 * or heightened to the viewport's aspect ratio, never shrunk.
 *
 * Matrices are an abstract type `M` with inversion, the two projection constructors and
 * `mulAfter` as parameters; how the matrix library computes them is not modelled.
 */
module RenderCameras {
  import opened Geometry

  /** The scene camera's image size, near and far planes, and projection kind. */
  datatype SceneCamera = SceneCamera(imageSize: V2, zPlanes: V2, isPerspective: bool)

  datatype MatrixOps<!M> = MatrixOps(
    invert: M -> M,
    perspective: (real, real, real, real) -> M,
    orthographic: (real, real, real, real) -> M,
    mulAfter: (M, M) -> M)

  datatype CameraMatrices<M> = CameraMatrices(view: M, proj: M, viewProjection: M)

  /** Viewport aspect over image aspect. */
  function ScaleFactor(viewport: V2, image: V2): real
    requires viewport.y > 0.0 && image.x > 0.0
  {
    (viewport.x / viewport.y) * (image.y / image.x)
  }

  /** The adjusted view size: widen by the scale factor if it exceeds 1, else heighten by its inverse. */
  function AdjustedSize(viewport: V2, image: V2): (r: V2)
    requires viewport.x > 0.0 && viewport.y > 0.0 && image.x > 0.0 && image.y > 0.0
    ensures r.x >= image.x && r.y >= image.y
    ensures r.x == image.x || r.y == image.y
  {
    var sf := ScaleFactor(viewport, image);
    Positive(viewport, image);
    if sf > 1.0 then V2(image.x * sf, image.y) else V2(image.x, image.y * (1.0 / sf))
  }

  lemma Positive(viewport: V2, image: V2)
    requires viewport.x > 0.0 && viewport.y > 0.0 && image.x > 0.0 && image.y > 0.0
    ensures ScaleFactor(viewport, image) > 0.0
  {
    var a, b := viewport.x / viewport.y, image.y / image.x;
    assert a > 0.0 && b > 0.0;
    assert a * b > 0.0;
  }

  /**
   * The adjusted size has the viewport's aspect ratio (width/height equal, stated
   * without division), so nothing appears distorted.
   */
  lemma AdjustedMatchesViewport(viewport: V2, image: V2)
    requires viewport.x > 0.0 && viewport.y > 0.0 && image.x > 0.0 && image.y > 0.0
    ensures var r := AdjustedSize(viewport, image);
      r.x * viewport.y == r.y * viewport.x
  {
    var sf := ScaleFactor(viewport, image);
    Positive(viewport, image);
    var vx, vy, ix, iy := viewport.x, viewport.y, image.x, image.y;
    ScaleFactorCross(vx, vy, ix, iy);
    assert sf * (ix * vy) == vx * iy;
    if sf > 1.0 {
      assert (ix * sf) * vy == sf * (ix * vy);
    } else {
      InverseCross(sf, ix, iy, vx, vy);
    }
  }

  lemma ScaleFactorCross(vx: real, vy: real, ix: real, iy: real)
    requires vy > 0.0 && ix > 0.0
    ensures ((vx / vy) * (iy / ix)) * (ix * vy) == vx * iy
  {
    var a, b := vx / vy, iy / ix;
    assert a * vy == vx && b * ix == iy;
    assert (a * b) * (ix * vy) == (a * vy) * (b * ix);
  }

  lemma InverseCross(sf: real, ix: real, iy: real, vx: real, vy: real)
    requires sf > 0.0 && sf * (ix * vy) == vx * iy
    ensures ix * vy == (iy * (1.0 / sf)) * vx
  {
    var k := 1.0 / sf;
    assert k * sf == 1.0;
    assert (iy * k) * vx == k * (vx * iy);
    assert k * (sf * (ix * vy)) == (k * sf) * (ix * vy);
  }

  /**
   * `updateCameraMatrix(viewportSize)`: the projection is built from a view size that
   * covers the camera's image and has the viewport's aspect ratio.
   */
  function UpdateCameraMatrix<M>(ops: MatrixOps<M>, world: M, cam: SceneCamera, viewport: V2): (r: CameraMatrices<M>)
    requires viewport.x > 0.0 && viewport.y > 0.0 && cam.imageSize.x > 0.0 && cam.imageSize.y > 0.0
    ensures var size := AdjustedSize(viewport, cam.imageSize);
      && size.x >= cam.imageSize.x && size.y >= cam.imageSize.y
      && size.x * viewport.y == size.y * viewport.x
      && r.view == ops.invert(world)
      && (cam.isPerspective ==> r.proj == ops.perspective(size.x, size.y, cam.zPlanes.x, cam.zPlanes.y))
      && (!cam.isPerspective ==> r.proj == ops.orthographic(size.x, size.y, cam.zPlanes.x, cam.zPlanes.y))
      && r.viewProjection == ops.mulAfter(r.view, r.proj)
  {
    var view := ops.invert(world);
    var size := AdjustedSize(viewport, cam.imageSize);
    AdjustedMatchesViewport(viewport, cam.imageSize);
    var proj :=
      if cam.isPerspective then ops.perspective(size.x, size.y, cam.zPlanes.x, cam.zPlanes.y)
      else ops.orthographic(size.x, size.y, cam.zPlanes.x, cam.zPlanes.y);
    CameraMatrices(view, proj, ops.mulAfter(view, proj))
  }
}
