/**
 * The attributes with which a frame buffer is imported as an EGL image
 * (preview/egl_preview.cpp, makeBuffer), following the three-plane
 * YUV 4:2:0 layout of the EGL_EXT_image_dma_buf_import extension: a full
 * luma plane, then the U plane, then the V plane, all in the same buffer.
 *
 * The frame description holds 32-bit unsigned fields; the products and sums
 * are computed in unsigned 32-bit arithmetic and then cast to the signed
 * 32-bit `EGLint`, and both steps are written out here.
 */
module DmaBuf {

  import opened Wrappers
  import opened Colour

  const U32Modulus: int := 0x1_0000_0000
  const EglIntLimit: int := 0x8000_0000

  type u32 = x: int | 0 <= x < 0x1_0000_0000

  /** Width, height, row stride in bytes and colour space of one frame. */
  datatype StreamInfo = StreamInfo(width: u32, height: u32, stride: u32, colourSpace: Option<ColourSpace>)

  datatype Plane = Plane(fd: int, offset: int, pitch: int)

  /** Everything handed to the import besides the fixed YUV420 pixel format. */
  datatype ImportAttributes = ImportAttributes(width: int, height: int, planes: seq<Plane>, hint: ColourHint)

  /** Unsigned 32-bit wrap-around of an exact result. */
  function U32(x: int): (r: u32)
    ensures 0 <= x < U32Modulus ==> r == x
  {
    x % U32Modulus
  }

  /** Two's-complement reading of an unsigned 32-bit value as a signed one. */
  function EglInt(x: u32): (r: int)
    ensures -EglIntLimit <= r < EglIntLimit
    ensures x < EglIntLimit <==> r == x
    ensures U32(r) == x
  {
    if x < EglIntLimit then x else x - U32Modulus
  }

  function ImportAttributesFor(fd: int, info: StreamInfo): (a: ImportAttributes)
    ensures |a.planes| == 3
    ensures forall i :: 0 <= i < 3 ==> a.planes[i].fd == fd
    ensures a.planes[0].offset == 0
    ensures a.planes[1].pitch == a.planes[2].pitch
    ensures a.planes[1].pitch == info.stride / 2
    ensures a.hint == ColourSpaceInfo(info.colourSpace)
  {
    var half := info.stride / 2;
    var lumaSize := U32(info.stride * info.height);
    ImportAttributes(
      EglInt(info.width), EglInt(info.height),
      [ Plane(fd, 0, EglInt(info.stride)),
        Plane(fd, EglInt(lumaSize), EglInt(half)),
        Plane(fd, EglInt(U32(lumaSize + U32(half * (info.height / 2)))), EglInt(half)) ],
      ColourSpaceInfo(info.colourSpace))
  }

  /** The whole frame's plane offsets are representable as an `EGLint`. */
  predicate FitsEglInt(info: StreamInfo)
  {
    info.stride < EglIntLimit && info.width < EglIntLimit && info.height < EglIntLimit &&
    info.stride * info.height + (info.stride / 2) * (info.height / 2) < EglIntLimit
  }

  /**
   * Without wrap-around the planes are laid out back to back: the luma plane
   * takes stride*height bytes, the U plane (stride/2)*(height/2) bytes, and
   * the V plane follows it with the same half pitch.
   */
  lemma PlaneLayout(fd: int, info: StreamInfo)
    requires FitsEglInt(info)
    ensures var a := ImportAttributesFor(fd, info);
            && a.width == info.width && a.height == info.height
            && a.planes[0] == Plane(fd, 0, info.stride)
            && a.planes[1] == Plane(fd, info.stride * info.height, info.stride / 2)
            && a.planes[2] == Plane(fd, info.stride * info.height + (info.stride / 2) * (info.height / 2), info.stride / 2)
            && a.planes[0].offset <= a.planes[1].offset <= a.planes[2].offset
            && a.planes[2].offset - a.planes[1].offset == (info.stride / 2) * (info.height / 2)
  {
    var luma := info.stride * info.height;
    var chroma := (info.stride / 2) * (info.height / 2);
    NonNegProduct(info.stride, info.height);
    NonNegProduct(info.stride / 2, info.height / 2);
    assert U32(luma) == luma;
    assert U32(chroma) == chroma;
    assert U32(luma + chroma) == luma + chroma;
  }

  lemma NonNegProduct(a: nat, b: nat)
    ensures 0 <= a * b
  {
  }

  /** A 65536x65536 frame with stride 65536 wraps the U-plane offset back to 0, onto the luma plane. */
  lemma LargeFrameWrapsPlaneOffset()
    ensures var a := ImportAttributesFor(3, StreamInfo(65536, 65536, 65536, None));
            a.planes[1].offset == 0 == a.planes[0].offset
  {
  }
}
