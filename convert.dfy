/** `convert_file`: one animated image becomes the argument list of one GIF
    save call. Compositing, quantisation and encoding belong to the imaging
    library and appear here as the opaque functions of `Library`; the
    converter's own decisions (duration rule, palette sharing, transparency
    mask, encoder settings, skip and failure paths) are modelled. An exception
    raised by the library is represented by the parameter it would surface
    through: a source that does not decode opens as `None`, a failed encode or
    write is a `false` write outcome. */
module Convert {
  import opened Common
  import opened Frames
  import opened Palette

  /** A palette-mode image as the quantiser returns it: one index per pixel
      and a flat RGB palette list. */
  datatype Quantized = Quantized(indices: seq<Byte>, palette: seq<Byte>)

  /** The imaging-library operations the converter calls, without their
      semantics.
      - `onMatte(pixels, matte)`: the RGB channels pasted over a matte-coloured
        background with the alpha channel as the paste mask.
      - `onWhite(pixels)`: alpha compositing over opaque white, then RGB.
      - `adaptive(rgb, colors, dither)`: `convert("P", palette=ADAPTIVE, ...)`.
      - `remap(rgb, palette, dither)`: `quantize(palette=...)` onto a fixed
        palette. */
  datatype Library = Library(
    onMatte: (seq<Rgba>, Rgb) -> seq<Rgb>,
    onWhite: seq<Rgba> -> seq<Rgb>,
    adaptive: (seq<Rgb>, nat, nat) -> Quantized,
    remap: (seq<Rgb>, seq<Byte>, nat) -> seq<Byte>)

  /** The per-job flags `convert_file` receives. */
  datatype GifOptions = GifOptions(
    transparent: bool,
    matte: Rgb,
    alphaThreshold: int,
    noOptimize: bool,
    noDither: bool)

  /** One frame handed to the encoder: its index buffer and its palette. */
  datatype GifFrame = GifFrame(indices: seq<Byte>, palette: seq<Byte>)

  /** The arguments of `frames[0].save(dst, **save_kwargs)`. */
  datatype SaveCall = SaveCall(
    first: GifFrame,
    saveAll: bool,
    appendImages: seq<GifFrame>,
    duration: seq<int>,
    loop: nat,
    optimize: bool,
    disposal: nat,
    transparency: Option<Byte>)

  /** GIF loop count 0: repeat forever. */
  const InfiniteLoop: nat := 0
  /** GIF disposal method 2: restore to background before the next frame. */
  const RestoreToBackground: nat := 2

  /** Dither mode 0 (none) or 1 (Floyd-Steinberg). */
  function DitherMode(noDither: bool): (mode: nat)
    ensures mode <= 1
    ensures mode == 0 <==> noDither
  {
    if noDither then 0 else 1
  }

  /** The RGB pixels of a frame as the transparent mode composes them. */
  function Composed(lib: Library, frame: SourceFrame, matte: Rgb): seq<Rgb> {
    lib.onMatte(frame.pixels, matte)
  }

  /** Transparent mode, frame 0: adaptive quantisation to 255 colours. */
  function FirstQuantized(lib: Library, img: SourceImage, opts: GifOptions): Quantized
    requires |img.frames| > 0
  {
    lib.adaptive(Composed(lib, img.frames[0], opts.matte), 255, DitherMode(opts.noDither))
  }

  /** Transparent mode: the palette every frame carries. */
  function SharedPalette(lib: Library, img: SourceImage, opts: GifOptions): seq<Byte>
    requires |img.frames| > 0
  {
    BasePalette(FirstQuantized(lib, img, opts).palette, opts.matte)
  }

  /** Transparent mode: frame k's indices before the mask is pasted. Frame 0
      keeps its adaptive indices; later frames are mapped onto the whole base
      palette, matte slot and padding included. */
  function QuantizedIndices(lib: Library, img: SourceImage, opts: GifOptions, k: nat): seq<Byte>
    requires k < |img.frames|
  {
    if k == 0 then FirstQuantized(lib, img, opts).indices
    else lib.remap(Composed(lib, img.frames[k], opts.matte), SharedPalette(lib, img, opts),
                   DitherMode(opts.noDither))
  }

  /** Pasting the mask succeeds only when the quantised frame and its alpha
      plane have the same size; otherwise the library raises. */
  predicate MaskFits(lib: Library, img: SourceImage, opts: GifOptions, k: nat)
    requires k < |img.frames|
  {
    |QuantizedIndices(lib, img, opts, k)| == |img.frames[k].pixels|
  }

  /** Opaque (matte) mode: every frame is composited over white and gets its
      own adaptive 256-colour palette. */
  function OpaqueFrame(lib: Library, frame: SourceFrame, opts: GifOptions): GifFrame {
    var q := lib.adaptive(lib.onWhite(frame.pixels), 256, DitherMode(opts.noDither));
    GifFrame(q.indices, q.palette)
  }

  /** Transparent mode, frame k as it is appended to the frame list. */
  function TransparentFrame(lib: Library, img: SourceImage, opts: GifOptions, k: nat): (frame: GifFrame)
    requires k < |img.frames| && MaskFits(lib, img, opts, k)
  {
    GifFrame(Masked(QuantizedIndices(lib, img, opts, k), Alphas(img.frames[k].pixels), opts.alphaThreshold),
             SharedPalette(lib, img, opts))
  }

  /** Frame k as the loop appends it, in either mode. */
  function FrameAt(lib: Library, img: SourceImage, opts: GifOptions, k: nat): GifFrame
    requires k < |img.frames| && (opts.transparent ==> MaskFits(lib, img, opts, k))
  {
    if opts.transparent then TransparentFrame(lib, img, opts, k) else OpaqueFrame(lib, img.frames[k], opts)
  }

  /** The frame list the loop builds when nothing raises. */
  function ExpectedFrames(lib: Library, img: SourceImage, opts: GifOptions): seq<GifFrame>
    requires opts.transparent ==> forall k :: 0 <= k < |img.frames| ==> MaskFits(lib, img, opts, k)
  {
    seq(|img.frames|, k requires 0 <= k < |img.frames| => FrameAt(lib, img, opts, k))
  }

  /** The first `n` frames of the list, built frame by frame as the loop
      appends them. */
  function FramesUpTo(lib: Library, img: SourceImage, opts: GifOptions, n: nat): (frames: seq<GifFrame>)
    requires n <= |img.frames|
    requires opts.transparent ==> forall k :: 0 <= k < n ==> MaskFits(lib, img, opts, k)
    ensures |frames| == n
  {
    if n == 0 then [] else FramesUpTo(lib, img, opts, n - 1) + [FrameAt(lib, img, opts, n - 1)]
  }

  /** Built frame by frame, the list is the expected one. */
  lemma {:induction false} FramesUpToIsPrefix(lib: Library, img: SourceImage, opts: GifOptions, n: nat)
    requires n <= |img.frames|
    requires opts.transparent ==> forall k :: 0 <= k < |img.frames| ==> MaskFits(lib, img, opts, k)
    ensures FramesUpTo(lib, img, opts, n) == ExpectedFrames(lib, img, opts)[..n]
  {
    if n > 0 {
      FramesUpToIsPrefix(lib, img, opts, n - 1);
      assert ExpectedFrames(lib, img, opts)[..n] == ExpectedFrames(lib, img, opts)[..n - 1] + [FrameAt(lib, img, opts, n - 1)];
    }
  }

  /** The duration list the loop builds. */
  function ExpectedDurations(img: SourceImage): seq<int> {
    seq(|img.frames|, k requires 0 <= k < |img.frames| => ResolveDuration(img.frames[k].duration, img.duration))
  }

  /** The frame loop of `convert_file`: one duration and one frame per
      decoded frame, the base palette built once from frame 0, the mask pasted
      into every frame. `failed` is the exception a mismatched mask raises. */
  method ConvertFrames(img: SourceImage, opts: GifOptions, lib: Library)
    returns (frames: seq<GifFrame>, durations: seq<int>, key: Option<Byte>, failed: bool)
    ensures failed <==> opts.transparent && exists k :: 0 <= k < |img.frames| && !MaskFits(lib, img, opts, k)
    ensures !failed ==> frames == ExpectedFrames(lib, img, opts)
    ensures !failed ==> durations == ExpectedDurations(img)
    ensures !failed ==> key == if opts.transparent && |img.frames| > 0 then Some(TransparencyIndex) else None
  {
    frames, durations, key, failed := [], [], None, false;
    var base: seq<Byte> := [];
    var idx := 0;
    while idx < |img.frames|
      invariant 0 <= idx <= |img.frames|
      invariant |frames| == |durations| == idx
      invariant forall k :: 0 <= k < idx ==> durations[k] == ResolveDuration(img.frames[k].duration, img.duration)
      invariant key == if opts.transparent && idx > 0 then Some(TransparencyIndex) else None
      invariant opts.transparent && idx > 0 ==> base == SharedPalette(lib, img, opts)
      invariant opts.transparent ==> forall k :: 0 <= k < idx ==> MaskFits(lib, img, opts, k)
      invariant frames == FramesUpTo(lib, img, opts, idx)
    {
      var frame := img.frames[idx];
      durations := durations + [ResolveDuration(frame.duration, img.duration)];
      var next, fits;
      next, base, fits := FrameStep(img, opts, lib, idx, base);
      if !fits {
        failed := true;
        return;
      }
      if opts.transparent {
        key := Some(TransparencyIndex);
      }
      frames := frames + [next];
      idx := idx + 1;
    }
    FramesUpToIsPrefix(lib, img, opts, idx);
  }

  /** One pass of the frame loop's body. Transparent mode composites over the
      matte, quantises (frame 0 builds the base palette) and pastes the mask
      into a fresh index buffer, where `fits` is false if the paste raises;
      opaque mode quantises the frame over white on its own. */
  method FrameStep(img: SourceImage, opts: GifOptions, lib: Library, idx: nat, base: seq<Byte>)
    returns (frame: GifFrame, newBase: seq<Byte>, fits: bool)
    requires idx < |img.frames|
    requires opts.transparent && idx > 0 ==> base == SharedPalette(lib, img, opts)
    ensures opts.transparent ==> newBase == SharedPalette(lib, img, opts)
    ensures fits == (opts.transparent ==> MaskFits(lib, img, opts, idx))
    ensures fits ==> frame == FrameAt(lib, img, opts, idx)
  {
    var dither := DitherMode(opts.noDither);
    newBase := base;
    if !opts.transparent {
      var q := lib.adaptive(lib.onWhite(img.frames[idx].pixels), 256, dither);
      return GifFrame(q.indices, q.palette), newBase, true;
    }
    var composed := Composed(lib, img.frames[idx], opts.matte);
    var q: seq<Byte>;
    if idx == 0 {
      var first := lib.adaptive(composed, 255, dither);
      var pal := BuildBasePalette(first.palette, opts.matte);
      newBase := pal[..];
      q := first.indices;
    } else {
      q := lib.remap(composed, base, dither);
    }
    assert q == QuantizedIndices(lib, img, opts, idx);
    var alpha := Alphas(img.frames[idx].pixels);
    frame := GifFrame([], newBase);
    fits := |q| == |alpha|;
    if fits {
      var buffer := new Byte[|q|](i requires 0 <= i < |q| => q[i]);
      assert buffer[..] == q;
      PasteTransparency(buffer, alpha, opts.alphaThreshold);
      frame := GifFrame(buffer[..], newBase);
    }
  }

  /** The save call for a finished frame list; `None` when the list is empty
      (`frames[0]` raises). */
  function EncoderCall(frames: seq<GifFrame>, durations: seq<int>, opts: GifOptions, key: Option<Byte>)
    : (call: Option<SaveCall>)
    ensures call.Some? <==> |frames| > 0
  {
    if |frames| == 0 then None
    else Some(SaveCall(
      first := frames[0],
      saveAll := true,
      appendImages := frames[1..],
      duration := durations,
      loop := InfiniteLoop,
      optimize := !opts.noOptimize,
      disposal := RestoreToBackground,
      transparency := if opts.transparent && key.Some? then key else None))
  }

  /** The encoder receives every frame exactly once and in order, one duration
      per frame, infinite looping, disposal "restore to background", the
      optimise flag as the negation of `no_optimize`, and the transparency
      key exactly when the transparent mode produced one. */
  lemma EncoderCallSettings(frames: seq<GifFrame>, durations: seq<int>, opts: GifOptions, key: Option<Byte>)
    requires |frames| > 0
    ensures var call := EncoderCall(frames, durations, opts, key).value;
      && [call.first] + call.appendImages == frames
      && call.duration == durations
      && call.saveAll && call.loop == 0 && call.disposal == 2
      && call.optimize == !opts.noOptimize
      && (call.transparency.Some? <==> opts.transparent && key.Some?)
      && (call.transparency.Some? ==> call.transparency == key)
  {
    var call := EncoderCall(frames, durations, opts, key).value;
    assert [frames[0]] + frames[1..] == frames;
  }

  /** Whether `convert_file` returns `True`: the file opens, it is animated
      or static files are included, it has at least one frame, no mask paste
      raises, and the final write succeeds. */
  predicate ConvertSucceeds(source: Option<SourceImage>, skipStatic: bool, opts: GifOptions, lib: Library, written: bool) {
    && source.Some?
    && (IsAnimated(source.value) || !skipStatic)
    && |source.value.frames| > 0
    && (opts.transparent ==> forall k :: 0 <= k < |source.value.frames| ==> MaskFits(lib, source.value, opts, k))
    && written
  }

  /** `convert_file`. `source` is `None` when the file cannot be opened and
      `written` is the outcome of the final file write; `call` is the save
      call issued, if any. */
  method ConvertFile(source: Option<SourceImage>, skipStatic: bool, opts: GifOptions, lib: Library, written: bool)
    returns (ok: bool, call: Option<SaveCall>)
    ensures source.None? ==> !ok && call.None?
    ensures source.Some? && !IsAnimated(source.value) && skipStatic ==> !ok && call.None?
    ensures ok <==> call.Some? && written
    ensures ok <==> ConvertSucceeds(source, skipStatic, opts, lib, written)
    ensures call.Some? ==> source.Some? && (IsAnimated(source.value) || !skipStatic)
    ensures call.Some? ==>
      var img := source.value;
      && |img.frames| > 0
      && (opts.transparent ==> forall k :: 0 <= k < |img.frames| ==> MaskFits(lib, img, opts, k))
      && call == EncoderCall(ExpectedFrames(lib, img, opts), ExpectedDurations(img), opts,
                             if opts.transparent then Some(TransparencyIndex) else None)
  {
    if source.None? {
      return false, None;
    }
    var img := source.value;
    var animated := IsAnimated(img);
    if !animated && skipStatic {
      return false, None;
    }
    var frames, durations, key, failed := ConvertFrames(img, opts, lib);
    if failed {
      return false, None;
    }
    call := EncoderCall(frames, durations, opts, key);
    ok := call.Some? && written;
  }

  /** Transparent mode, one frame: it carries the shared base palette, has
      one index per pixel, the key on every pixel whose alpha is at or below
      the threshold and the quantiser's index everywhere else. */
  lemma TransparentFrameAt(lib: Library, img: SourceImage, opts: GifOptions, k: nat)
    requires opts.transparent && k < |img.frames|
    requires forall j :: 0 <= j < |img.frames| ==> MaskFits(lib, img, opts, j)
    ensures var f := ExpectedFrames(lib, img, opts)[k];
      && f.palette == SharedPalette(lib, img, opts)
      && |f.indices| == |img.frames[k].pixels|
      && (forall i :: 0 <= i < |f.indices| ==>
            f.indices[i] == if img.frames[k].pixels[i].a <= opts.alphaThreshold then TransparencyIndex
                            else QuantizedIndices(lib, img, opts, k)[i])
  {
    var f := ExpectedFrames(lib, img, opts)[k];
    assert MaskFits(lib, img, opts, k);
    assert f == TransparentFrame(lib, img, opts, k);
    var alpha := Alphas(img.frames[k].pixels);
    forall i | 0 <= i < |f.indices|
      ensures f.indices[i] == if img.frames[k].pixels[i].a <= opts.alphaThreshold then TransparencyIndex
                              else QuantizedIndices(lib, img, opts, k)[i]
    {
      MaskedAt(QuantizedIndices(lib, img, opts, k), alpha, opts.alphaThreshold, i);
      assert alpha[i] == img.frames[k].pixels[i].a;
    }
  }

  /** Transparent mode, end to end: one output frame per decoded frame, the
      transparency key 255 in the save call, every frame carrying the same
      base palette whose slot 255 is the matte colour, every pixel with alpha
      at or below the threshold mapped to the key, and every other pixel
      keeping the quantiser's index. */
  lemma TransparentOutput(lib: Library, img: SourceImage, opts: GifOptions)
    requires opts.transparent && |img.frames| > 0
    requires forall k :: 0 <= k < |img.frames| ==> MaskFits(lib, img, opts, k)
    ensures var call := EncoderCall(ExpectedFrames(lib, img, opts), ExpectedDurations(img), opts,
                                    Some(TransparencyIndex)).value;
      var out := [call.first] + call.appendImages;
      && |out| == |call.duration| == |img.frames|
      && call.transparency == Some(TransparencyIndex)
      && (forall k :: 0 <= k < |out| ==> out[k].palette == SharedPalette(lib, img, opts))
      && (forall k, i :: 0 <= k < |out| && 0 <= i < |img.frames[k].pixels| ==>
            i < |out[k].indices| &&
            out[k].indices[i] == if img.frames[k].pixels[i].a <= opts.alphaThreshold then TransparencyIndex
                                 else QuantizedIndices(lib, img, opts, k)[i])
    ensures var pal := SharedPalette(lib, img, opts);
      pal[3 * TransparencyIndex..3 * TransparencyIndex + 3] == [opts.matte.r, opts.matte.g, opts.matte.b]
  {
    var frames := ExpectedFrames(lib, img, opts);
    EncoderCallSettings(frames, ExpectedDurations(img), opts, Some(TransparencyIndex));
    BasePaletteShape(FirstQuantized(lib, img, opts).palette, opts.matte);
    forall k | 0 <= k < |frames| {
      TransparentFrameAt(lib, img, opts, k);
    }
  }

  /** Opaque (matte) mode, end to end: one output frame per decoded frame,
      each quantised on its own over white, and no transparency key. */
  lemma OpaqueOutput(lib: Library, img: SourceImage, opts: GifOptions)
    requires !opts.transparent && |img.frames| > 0
    ensures var call := EncoderCall(ExpectedFrames(lib, img, opts), ExpectedDurations(img), opts, None).value;
      var out := [call.first] + call.appendImages;
      && |out| == |call.duration| == |img.frames|
      && call.transparency.None?
      && (forall k :: 0 <= k < |out| ==> out[k] == OpaqueFrame(lib, img.frames[k], opts))
  {
    EncoderCallSettings(ExpectedFrames(lib, img, opts), ExpectedDurations(img), opts, None);
  }
}
