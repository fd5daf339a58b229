/**
 * The countdown glyph textures built by the one-time GL setup
 * (preview/egl_preview.cpp, gl_setup).
 *
 * Glyphs are built for the characters '0' up to but not including '9'.
 * Each texture pixel is a 32-bit RGBA word whose four bytes all carry the
 * rasterised coverage byte, so the glyph blends as a white, soft-edged
 * shape. Glyph 0 ignores its raster and is a fully opaque white plane used
 * as a backdrop.
 */
module Glyphs {

  /** Number of glyphs the setup loop builds: ids 0 to 8. */
  const GlyphCount: int := 9

  /** The white, fully opaque pixel of the backdrop glyph. */
  const Opaque: bv32 := 0xffff_ffff

  /** An 8-bit coverage raster with `width` columns and `rows` rows, row after row. */
  datatype Bitmap = Bitmap(width: nat, rows: nat, buffer: seq<bv8>)

  function GlyphIds(): (ids: set<int>)
    ensures forall i :: i in ids <==> 0 <= i < GlyphCount
  {
    {0, 1, 2, 3, 4, 5, 6, 7, 8}
  }

  /** Byte `k` (0 = least significant, the red channel in memory order) of a pixel word. */
  function ByteAt(w: bv32, k: nat): bv8
    requires k < 4
  {
    ((w >> (8 * k)) & 0xff) as bv8
  }

  /** The coverage a pixel word carries: its lowest byte. */
  function Coverage(w: bv32): bv8
  {
    ByteAt(w, 0)
  }

  /** True when all four bytes of the word are equal. */
  predicate Uniform(w: bv32)
  {
    ByteAt(w, 1) == ByteAt(w, 0) && ByteAt(w, 2) == ByteAt(w, 0) && ByteAt(w, 3) == ByteAt(w, 0)
  }

  /** Replicate a coverage byte into every byte of a 32-bit word. */
  function Pack(b: bv8): (w: bv32)
    ensures ByteAt(w, 0) == b && ByteAt(w, 1) == b && ByteAt(w, 2) == b && ByteAt(w, 3) == b
  {
    var v := b as bv32;
    v | (v << 8) | (v << 16) | (v << 24)
  }

  /** Packing and reading the coverage are inverse on exactly the uniform words. */
  lemma PackCoverageInverse(b: bv8, w: bv32)
    ensures Coverage(Pack(b)) == b
    ensures Pack(Coverage(w)) == w <==> Uniform(w)
  {
  }

  /** The backdrop's white pixel is the packing of full coverage. */
  lemma OpaqueIsFullCoverage()
    ensures Pack(0xff) == Opaque
  {
  }

  /** The pixel at index `j` of glyph `id`: white for the backdrop, packed coverage otherwise. */
  function PixelOf(id: int, bm: Bitmap, j: nat): bv32
    requires id == 0 || j < |bm.buffer|
  {
    if id == 0 then Opaque else Pack(bm.buffer[j])
  }

  /**
   * The texture of glyph `id` from its raster. Pixel `j` reads byte `j` of
   * the raster; the raster's rows are taken as `width` bytes long.
   */
  method GlyphPixels(id: int, bm: Bitmap) returns (pixels: seq<bv32>)
    requires id == 0 || |bm.buffer| >= bm.width * bm.rows
    ensures |pixels| == bm.width * bm.rows
    ensures forall j :: 0 <= j < |pixels| ==> Uniform(pixels[j])
    ensures forall j :: 0 <= j < |pixels| ==> Coverage(pixels[j]) == (if id == 0 then 0xff else bm.buffer[j])
  {
    var n := bm.width * bm.rows;
    pixels := [];
    var j := 0;
    while j < n
      invariant 0 <= j <= n
      invariant |pixels| == j
      invariant forall k :: 0 <= k < j ==> pixels[k] == PixelOf(id, bm, k)
    {
      pixels := pixels + [PixelOf(id, bm, j)];
      j := j + 1;
    }
    forall k | 0 <= k < |pixels|
      ensures Uniform(pixels[k])
      ensures Coverage(pixels[k]) == (if id == 0 then 0xff else bm.buffer[k])
    {
      if id == 0 {
        OpaqueIsFullCoverage();
      }
    }
  }

  /** The rasters of glyphs 1 to 8 hold at least `width * rows` coverage bytes. */
  predicate RastersCover(font: seq<Bitmap>)
    requires |font| >= GlyphCount
  {
    forall i :: 1 <= i < GlyphCount ==> |font[i].buffer| >= font[i].width * font[i].rows
  }

  /**
   * The glyph table built at setup time; `font[i]` is the raster of the
   * character '0' + i.
   */
  method BuildAtlas(font: seq<Bitmap>) returns (atlas: map<int, seq<bv32>>)
    requires |font| >= GlyphCount && RastersCover(font)
    ensures atlas.Keys == GlyphIds()
    ensures forall i :: i in atlas ==> |atlas[i]| == font[i].width * font[i].rows
    ensures 0 in atlas && forall j :: 0 <= j < |atlas[0]| ==> atlas[0][j] == Opaque
    ensures forall i, j :: 1 <= i < GlyphCount && 0 <= j < |atlas[i]| ==>
              Uniform(atlas[i][j]) && Coverage(atlas[i][j]) == font[i].buffer[j]
  {
    atlas := map[];
    var i := 0;
    while i < GlyphCount
      invariant 0 <= i <= GlyphCount
      invariant forall k :: k in atlas <==> 0 <= k < i
      invariant forall k :: k in atlas ==> |atlas[k]| == font[k].width * font[k].rows
      invariant 0 < i ==> forall j :: 0 <= j < |atlas[0]| ==> atlas[0][j] == Opaque
      invariant forall k, j :: 1 <= k < i && 0 <= j < |atlas[k]| ==>
                  Uniform(atlas[k][j]) && Coverage(atlas[k][j]) == font[k].buffer[j]
    {
      var pixels := GlyphPixels(i, font[i]);
      if i == 0 {
        forall j | 0 <= j < |pixels|
          ensures pixels[j] == Opaque
        {
          PackCoverageInverse(0xff, pixels[j]);
          OpaqueIsFullCoverage();
        }
      }
      atlas := atlas[i := pixels];
      i := i + 1;
    }
  }
}
