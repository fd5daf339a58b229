/**
 * The colour-space hint attached to an imported frame
 * (preview/egl_preview.cpp, get_colour_space_info).
 *
 * A frame's colour space is one of the standard presets of the camera
 * stack, or a combination that matches none of them, or absent.
 */
module Colour {

  import opened Wrappers

  datatype ColourSpace = Raw | Srgb | Sycc | Smpte170m | Rec709 | Rec2020 | Unlisted

  /** The YUV encoding hint handed to the image import. */
  datatype Encoding = ItuRec601 | ItuRec709

  /** The sample range hint handed to the image import. */
  datatype Range = NarrowRange | FullRange

  /** The hint pair, and whether an "unexpected colour space" warning is logged. */
  datatype ColourHint = ColourHint(encoding: Encoding, range: Range, warned: bool)

  /** The colour spaces the preview knows how to describe to the import. */
  predicate Recognised(cs: Option<ColourSpace>)
  {
    cs == Some(Sycc) || cs == Some(Smpte170m) || cs == Some(Rec709)
  }

  function ColourSpaceInfo(cs: Option<ColourSpace>): (h: ColourHint)
    ensures h.range == FullRange <==> cs == Some(Sycc)
    ensures h.encoding == ItuRec709 <==> cs == Some(Rec709)
    ensures h.warned <==> !Recognised(cs)
    ensures !Recognised(cs) ==> h.encoding == ItuRec601 && h.range == NarrowRange
  {
    if cs == Some(Sycc) then ColourHint(ItuRec601, FullRange, false)
    else if cs == Some(Smpte170m) then ColourHint(ItuRec601, NarrowRange, false)
    else if cs == Some(Rec709) then ColourHint(ItuRec709, NarrowRange, false)
    else ColourHint(ItuRec601, NarrowRange, true)
  }

  /** Every colour space gets a hint in which at most one of the two defaults was changed. */
  lemma AtMostOneHintChanges(cs: Option<ColourSpace>)
    ensures var h := ColourSpaceInfo(cs);
            h.encoding == ItuRec601 || h.range == NarrowRange
  {
  }
}
