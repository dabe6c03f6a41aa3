/** What the converter reads from a decoded animation: the animated/static
    classification and the per-frame display time. Decoding itself is done by
    the imaging library and is represented only by its results. */
module Frames {
  import opened Common

  /** A metadata value as the decoder stores it under `info["duration"]`;
      the rule only asks whether it is a Python `int`. */
  datatype InfoValue = IntValue(i: int) | NonInteger

  datatype Rgba = Rgba(r: Byte, g: Byte, b: Byte, a: Byte)

  /** One decoded frame after `convert("RGBA")`: its own `info["duration"]`
      (absent, an integer, or something else) and its pixels. */
  datatype SourceFrame = SourceFrame(duration: Option<InfoValue>, pixels: seq<Rgba>)

  /** An opened source image: the decoder's `is_animated` and `n_frames`
      attributes where it defines them, whether reading them raises, the
      image-level `info["duration"]`, and the frames the frame iterator
      yields. */
  datatype SourceImage = SourceImage(
    animatedAttr: Option<bool>,
    frameCountAttr: Option<int>,
    attributesRaise: bool,
    duration: Option<InfoValue>,
    frames: seq<SourceFrame>)

  /** `is_animated`: the decoder's own flag or a frame count above one; a
      missing attribute counts as "not animated" and so does an exception. */
  function IsAnimated(img: SourceImage): (animated: bool)
    ensures animated ==> !img.attributesRaise
    ensures animated ==> img.animatedAttr == Some(true) || img.frameCountAttr.GetOr(1) > 1
    ensures !img.attributesRaise && img.animatedAttr == Some(true) ==> animated
    ensures !img.attributesRaise && img.frameCountAttr.GetOr(1) > 1 ==> animated
  {
    if img.attributesRaise then false
    else img.animatedAttr.GetOr(false) || img.frameCountAttr.GetOr(1) > 1
  }

  const DefaultDuration := 100

  /** The display time of one frame in milliseconds: the frame's own value if
      it has one, else the image's, else 100; a value that is not a positive
      integer becomes 100. An invalid frame value does not fall back to the
      image's value. */
  function ResolveDuration(frameValue: Option<InfoValue>, imageValue: Option<InfoValue>): (ms: int)
    ensures ms > 0
    ensures frameValue.Some? && frameValue.value.IntValue? && frameValue.value.i > 0
            ==> ms == frameValue.value.i
    ensures frameValue.Some? && !(frameValue.value.IntValue? && frameValue.value.i > 0)
            ==> ms == DefaultDuration
    ensures frameValue.None? && imageValue.Some? && imageValue.value.IntValue? && imageValue.value.i > 0
            ==> ms == imageValue.value.i
    ensures frameValue.None? && !(imageValue.Some? && imageValue.value.IntValue? && imageValue.value.i > 0)
            ==> ms == DefaultDuration
  {
    var v := frameValue.GetOr(imageValue.GetOr(IntValue(DefaultDuration)));
    if v.IntValue? && v.i > 0 then v.i else DefaultDuration
  }

  /** The alpha plane of a frame (`frame_rgba.split()[-1]`). */
  function Alphas(pixels: seq<Rgba>): (alpha: seq<Byte>)
    ensures |alpha| == |pixels|
  {
    seq(|pixels|, i requires 0 <= i < |pixels| => pixels[i].a)
  }
}
