/**
 * Placement of the preview window (preview/egl_preview.cpp, makeWindow).
 *
 * The requested rectangle comes from the options; a zero width or height
 * means "unspecified" and selects the default 1024x768 size. A request that
 * asks for full screen, or that does not fit on the screen, is snapped to
 * the whole screen at the origin.
 */
module Geometry {

  const DefaultWidth: int := 1024
  const DefaultHeight: int := 768

  datatype Rect = Rect(x: int, y: int, width: int, height: int)

  /** The rectangle covering the whole screen. */
  function FullScreen(screenWidth: int, screenHeight: int): Rect
  {
    Rect(0, 0, screenWidth, screenHeight)
  }

  /** The request with an unspecified (zero) dimension replaced by the default size. */
  function Sized(req: Rect): (r: Rect)
    ensures r.x == req.x && r.y == req.y
    ensures req.width == 0 || req.height == 0 <==> r.width == DefaultWidth && r.height == DefaultHeight && r != req
    ensures req.width != 0 && req.height != 0 ==> r == req
    ensures r.width != 0 && r.height != 0
  {
    if req.width == 0 || req.height == 0 then req.(width := DefaultWidth, height := DefaultHeight)
    else req
  }

  /** True when the rectangle's right and bottom edges stay on the screen. */
  predicate Fits(r: Rect, screenWidth: int, screenHeight: int)
  {
    r.x + r.width <= screenWidth && r.y + r.height <= screenHeight
  }

  /** The geometry the preview window is created with. */
  function WindowGeometry(req: Rect, fullscreen: bool, screenWidth: int, screenHeight: int): (r: Rect)
    ensures Fits(r, screenWidth, screenHeight)
    ensures fullscreen ==> r == FullScreen(screenWidth, screenHeight)
    ensures !Fits(Sized(req), screenWidth, screenHeight) ==> r == FullScreen(screenWidth, screenHeight)
    ensures !fullscreen && Fits(Sized(req), screenWidth, screenHeight) ==> r == Sized(req)
    ensures r == Sized(req) || r == FullScreen(screenWidth, screenHeight)
  {
    var sized := Sized(req);
    if fullscreen || sized.x + sized.width > screenWidth || sized.y + sized.height > screenHeight then
      FullScreen(screenWidth, screenHeight)
    else
      sized
  }

  /** A window placed once is kept where it is when placed again without the full-screen flag. */
  lemma GeometryIsStable(req: Rect, fullscreen: bool, screenWidth: int, screenHeight: int)
    ensures var r := WindowGeometry(req, fullscreen, screenWidth, screenHeight);
            WindowGeometry(r, false, screenWidth, screenHeight) == r
  {
    var r := WindowGeometry(req, fullscreen, screenWidth, screenHeight);
    if r.width == 0 || r.height == 0 {
      // only the full-screen rectangle of an empty screen has a zero side
      assert r == FullScreen(screenWidth, screenHeight);
      assert !Fits(Sized(r), screenWidth, screenHeight);
    }
  }

  /** An unspecified size on a screen large enough for the default yields exactly the default window. */
  lemma DefaultSizeWhenUnspecified(x: int, y: int, screenWidth: int, screenHeight: int)
    requires x + DefaultWidth <= screenWidth && y + DefaultHeight <= screenHeight
    ensures WindowGeometry(Rect(x, y, 0, 0), false, screenWidth, screenHeight) == Rect(x, y, DefaultWidth, DefaultHeight)
  {
  }
}
