/** The transparent-GIF palette: frame 0's adaptive palette padded to 256
    entries with the matte colour in the last slot, and the binary
    transparency mask pasted onto each frame's index buffer. */
module Palette {
  import opened Common

  /** The reserved palette slot that becomes the GIF transparency key. */
  const TransparencyIndex: Byte := 255

  /** A full palette: 256 RGB entries, flattened. */
  const FullLength := 256 * 3

  /** Value i of the base palette: the matte colour in slot 255, the
      quantiser's value where it has one, and a zero of the padding
      elsewhere. */
  function PaletteValue(quantized: seq<Byte>, matte: Rgb, i: nat): Byte {
    if i == 3 * TransparencyIndex then matte.r
    else if i == 3 * TransparencyIndex + 1 then matte.g
    else if i == 3 * TransparencyIndex + 2 then matte.b
    else if i < |quantized| then quantized[i]
    else 0
  }

  /** The length of the base palette: 768, or more when the quantiser's list
      is longer. */
  function PaletteLength(quantized: seq<Byte>): nat {
    if |quantized| < FullLength then FullLength else |quantized|
  }

  /** The first n values of the base palette. */
  function PalettePrefix(quantized: seq<Byte>, matte: Rgb, n: nat): (pal: seq<Byte>)
    ensures |pal| == n
  {
    if n == 0 then [] else PalettePrefix(quantized, matte, n - 1) + [PaletteValue(quantized, matte, n - 1)]
  }

  /** The base palette built from the quantiser's flat palette list: zeros
      pad it to 768 values, then the three values of slot 255 are replaced
      by the matte colour (a list longer than 768 keeps its length). */
  function BasePalette(quantized: seq<Byte>, matte: Rgb): seq<Byte> {
    PalettePrefix(quantized, matte, PaletteLength(quantized))
  }

  /** Value by value, the prefix is `PaletteValue`. */
  lemma {:induction false} PalettePrefixValues(quantized: seq<Byte>, matte: Rgb, n: nat, i: nat)
    requires i < n
    ensures PalettePrefix(quantized, matte, n)[i] == PaletteValue(quantized, matte, i)
  {
    if i < n - 1 {
      PalettePrefixValues(quantized, matte, n - 1, i);
    }
  }

  /** The base palette has 768 values whenever the quantiser returned at
      most 256 colours; slot 255 holds the matte colour; every other value is
      the quantiser's own or a zero of the padding. */
  lemma BasePaletteShape(quantized: seq<Byte>, matte: Rgb)
    ensures var pal := BasePalette(quantized, matte);
      && |pal| == (if |quantized| < FullLength then FullLength else |quantized|)
      && pal[3 * TransparencyIndex..3 * TransparencyIndex + 3] == [matte.r, matte.g, matte.b]
      && (forall i :: 0 <= i < |quantized| && i < 3 * TransparencyIndex ==> pal[i] == quantized[i])
      && (forall i :: |quantized| <= i < 3 * TransparencyIndex ==> pal[i] == 0)
      && (forall i :: FullLength <= i < |quantized| ==> pal[i] == quantized[i])
  {
    var pal := BasePalette(quantized, matte);
    var n := PaletteLength(quantized);
    forall i | 0 <= i < n ensures pal[i] == PaletteValue(quantized, matte, i) {
      PalettePrefixValues(quantized, matte, n, i);
    }
    assert pal[3 * TransparencyIndex..3 * TransparencyIndex + 3] == [pal[765], pal[766], pal[767]];
  }

  /** The palette the script hands to every frame. */
  method BuildBasePalette(quantized: seq<Byte>, matte: Rgb) returns (pal: array<Byte>)
    ensures pal[..] == BasePalette(quantized, matte)
  {
    var n := if |quantized| < FullLength then FullLength else |quantized|;
    pal := new Byte[n](i requires 0 <= i < n => if i < |quantized| then quantized[i] else 0);
    var k := 3 * TransparencyIndex;
    pal[k], pal[k + 1], pal[k + 2] := matte.r, matte.g, matte.b;
    forall i | 0 <= i < n ensures pal[i] == BasePalette(quantized, matte)[i] {
      PalettePrefixValues(quantized, matte, n, i);
    }
  }

  /** The index buffer after pasting the transparency key through the
      mask `alpha <= threshold`, pixel by pixel in order. */
  function Masked(indices: seq<Byte>, alpha: seq<Byte>, threshold: int): (out: seq<Byte>)
    requires |indices| == |alpha|
    ensures |out| == |indices|
  {
    if indices == [] then []
    else
      var n := |indices| - 1;
      Masked(indices[..n], alpha[..n], threshold)
        + [if alpha[n] <= threshold then TransparencyIndex else indices[n]]
  }

  /** Pixel by pixel: the key where the alpha is at or below the threshold,
      the quantiser's index everywhere else. */
  lemma {:induction false} MaskedAt(indices: seq<Byte>, alpha: seq<Byte>, threshold: int, i: nat)
    requires |indices| == |alpha| && i < |indices|
    ensures Masked(indices, alpha, threshold)[i] == if alpha[i] <= threshold then TransparencyIndex else indices[i]
  {
    var n := |indices| - 1;
    if i < n {
      MaskedAt(indices[..n], alpha[..n], threshold, i);
    }
  }

  /** `Masked` is the only buffer that takes the key exactly where the mask
      selects and keeps every other index. */
  lemma MaskedUnique(indices: seq<Byte>, alpha: seq<Byte>, threshold: int, out: seq<Byte>)
    requires |indices| == |alpha| == |out|
    requires forall i :: 0 <= i < |out| ==> out[i] == if alpha[i] <= threshold then TransparencyIndex else indices[i]
    ensures out == Masked(indices, alpha, threshold)
  {
    var m := Masked(indices, alpha, threshold);
    forall i | 0 <= i < |out| ensures out[i] == m[i] {
      MaskedAt(indices, alpha, threshold, i);
    }
  }

  /** `frame_p.paste(transparency_index, mask=mask)`: the key is written into
      every pixel the mask selects and nowhere else. */
  method PasteTransparency(indices: array<Byte>, alpha: seq<Byte>, threshold: int)
    requires indices.Length == |alpha|
    modifies indices
    ensures indices[..] == Masked(old(indices[..]), alpha, threshold)
  {
    var i := 0;
    while i < indices.Length
      invariant 0 <= i <= indices.Length
      invariant forall j :: 0 <= j < i ==>
        indices[j] == if alpha[j] <= threshold then TransparencyIndex else old(indices[j])
      invariant forall j :: i <= j < indices.Length ==> indices[j] == old(indices[j])
    {
      if alpha[i] <= threshold {
        indices[i] := TransparencyIndex;
      }
      i := i + 1;
    }
    MaskedUnique(old(indices[..]), alpha, threshold, indices[..]);
  }

  /** With threshold 0 exactly the fully transparent pixels take the key; every
      other pixel keeps the quantiser's index. */
  lemma MaskedThresholdZero(indices: seq<Byte>, alpha: seq<Byte>, i: nat)
    requires |indices| == |alpha| && i < |indices|
    ensures Masked(indices, alpha, 0)[i] == if alpha[i] == 0 then TransparencyIndex else indices[i]
  {
    MaskedAt(indices, alpha, 0, i);
  }

  /** Raising the threshold only adds pixels to the transparent set. */
  lemma MaskedMonotone(indices: seq<Byte>, alpha: seq<Byte>, low: int, high: int, i: nat)
    requires |indices| == |alpha| && i < |indices| && low <= high
    requires Masked(indices, alpha, low)[i] == TransparencyIndex
    ensures Masked(indices, alpha, high)[i] == TransparencyIndex
  {
    MaskedAt(indices, alpha, low, i);
    MaskedAt(indices, alpha, high, i);
  }
}
