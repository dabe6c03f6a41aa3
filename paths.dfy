/** Output locations: the GIF file for a source, the directory of its PNG
    frames, and the zero-padded frame file names. A path is the list of its
    segments; the empty list is the current directory `.`. */
module Paths {
  import opened Common
  import opened Decimal

  type Path = seq<string>

  /** `path.name`: the last segment. */
  function Name(p: Path): string {
    if p == [] then "" else p[|p| - 1]
  }

  /** `path.parent`: every segment but the last (`.` is its own parent). */
  function Parent(p: Path): (q: Path)
    ensures p != [] ==> p == q + [Name(p)]
  {
    if p == [] then [] else p[..|p| - 1]
  }

  /** `p` lies at or below `root`, so `p.relative_to(root)` succeeds. */
  predicate Under(root: Path, p: Path) {
    |root| <= |p| && p[..|root|] == root
  }

  /** `p.relative_to(root)`. */
  function RelativeTo(p: Path, root: Path): (rel: Path)
    requires Under(root, p)
    ensures root + rel == p
  {
    p[|root|..]
  }

  /** `name.rfind('.')`. */
  function LastDot(name: string): (i: int)
    ensures -1 <= i < |name|
    ensures i >= 0 ==> name[i] == '.'
    ensures forall j :: i < j < |name| ==> name[j] != '.'
  {
    if |name| == 0 then -1
    else if name[|name| - 1] == '.' then |name| - 1
    else LastDot(name[..|name| - 1])
  }

  /** `path.suffix`: from the last dot on, unless that dot opens the name or
      ends it. */
  function Suffix(name: string): string {
    var i := LastDot(name);
    if 0 < i < |name| - 1 then name[i..] else ""
  }

  /** `path.stem`: the name without its suffix. */
  function Stem(name: string): string {
    var i := LastDot(name);
    if 0 < i < |name| - 1 then name[..i] else name
  }

  /** A name splits into its stem and its suffix; the suffix is empty or a
      dot followed by no other dot. */
  lemma StemSuffixSplit(name: string)
    ensures Stem(name) + Suffix(name) == name
    ensures Suffix(name) == "" || (Suffix(name)[0] == '.' && '.' !in Suffix(name)[1..])
  {
    var s := Suffix(name);
    if s != "" {
      forall j | 0 <= j < |s| - 1 ensures s[1..][j] != '.' {
        assert s[1..][j] == name[LastDot(name) + 1 + j];
      }
    }
  }

  /** `base.ext` has stem `base` whenever `base` is non-empty and `ext` is a
      non-empty extension without dots; `base` itself may hold dots. */
  lemma StemOfExtension(base: string, ext: string)
    requires |base| > 0 && |ext| > 0 && '.' !in ext
    ensures Stem(base + "." + ext) == base
    ensures Suffix(base + "." + ext) == "." + ext
  {
    var name := base + "." + ext;
    assert name[|base|] == '.';
    assert forall j :: |base| < j < |name| ==> name[j] == ext[j - |base| - 1];
    assert LastDot(name) == |base|;
  }

  /** A hidden file such as `.webp` has no suffix: its stem is the whole name. */
  lemma HiddenNameStem(ext: string)
    requires '.' !in ext
    ensures Stem("." + ext) == "." + ext
  {
    var name := "." + ext;
    assert name[0] == '.';
    assert forall j :: 0 < j < |name| ==> name[j] == ext[j - 1];
  }

  /** The GIF written for `src`: `stem + ".gif"` beside the source (in place),
      under the output root at the source's position relative to the input
      root (structure-preserving), or directly under the output root. */
  function GifOutputPath(src: Path, inputDir: Path, outputDir: Path, preserve: bool, inplace: bool): (out: Path)
    requires !inplace && preserve ==> Under(inputDir, src)
  {
    var file := Stem(Name(src)) + ".gif";
    if inplace then Parent(src) + [file]
    else if preserve then outputDir + Parent(RelativeTo(src, inputDir)) + [file]
    else outputDir + [file]
  }

  /** The output is named after the source's stem with the `.gif` suffix,
      and lies beside the source, in the mirrored sub-directory of the output
      root, or directly in the output root. */
  lemma GifOutputPlacement(src: Path, inputDir: Path, outputDir: Path, preserve: bool, inplace: bool)
    requires !inplace && preserve ==> Under(inputDir, src)
    ensures var out := GifOutputPath(src, inputDir, outputDir, preserve, inplace);
      && Name(out) == Stem(Name(src)) + ".gif"
      && (inplace ==> Parent(out) == Parent(src))
      && (!inplace && preserve ==> Parent(out) == outputDir + Parent(RelativeTo(src, inputDir)))
      && (!inplace && preserve && |src| > |inputDir| ==> inputDir + RelativeTo(Parent(out), outputDir) == Parent(src))
      && (!inplace && !preserve ==> Parent(out) == outputDir)
  {
    var out := GifOutputPath(src, inputDir, outputDir, preserve, inplace);
    if !inplace && preserve && |src| > |inputDir| {
      var rel := RelativeTo(src, inputDir);
      assert Parent(out) == outputDir + Parent(rel);
      assert inputDir + Parent(rel) == Parent(src);
    }
  }

  /** A source named `<stem>.webp` gives an output whose stem is the same and
      whose suffix is `.gif`. */
  lemma GifKeepsStem(src: Path, inputDir: Path, outputDir: Path, preserve: bool, inplace: bool, stem: string)
    requires !inplace && preserve ==> Under(inputDir, src)
    requires |stem| > 0 && Name(src) == stem + ".webp"
    ensures Stem(Name(GifOutputPath(src, inputDir, outputDir, preserve, inplace))) == stem
    ensures Suffix(Name(GifOutputPath(src, inputDir, outputDir, preserve, inplace))) == ".gif"
  {
    StemOfExtension(stem, "webp");
    assert stem + ".webp" == stem + "." + "webp";
    StemOfExtension(stem, "gif");
    assert stem + ".gif" == stem + "." + "gif";
    GifOutputPlacement(src, inputDir, outputDir, preserve, inplace);
  }

  /** The structure-preserving layout never sends two different `.webp`
      files below the input root to the same GIF. */
  lemma PreserveIsInjective(a: Path, b: Path, inputDir: Path, outputDir: Path, stemA: string, stemB: string)
    requires Under(inputDir, a) && Under(inputDir, b)
    requires |a| > |inputDir| && |stemA| > 0 && Name(a) == stemA + ".webp"
    requires |b| > |inputDir| && |stemB| > 0 && Name(b) == stemB + ".webp"
    requires GifOutputPath(a, inputDir, outputDir, true, false) == GifOutputPath(b, inputDir, outputDir, true, false)
    ensures a == b
  {
    var outA := GifOutputPath(a, inputDir, outputDir, true, false);
    GifOutputPlacement(a, inputDir, outputDir, true, false);
    GifOutputPlacement(b, inputDir, outputDir, true, false);
    GifKeepsStem(a, inputDir, outputDir, true, false, stemA);
    GifKeepsStem(b, inputDir, outputDir, true, false, stemB);
    assert Parent(a) == Parent(b);
    assert Name(a) == Name(b);
    assert a == Parent(a) + [Name(a)];
  }

  /** The directory that receives a source's PNG frames: `stem` beside the
      source, under the mirrored sub-directory, or under the PNG root. `None`
      stands for the `relative_to` failure when the source lies outside the
      given input root. */
  function PngTargetDir(src: Path, outBase: Path, inputRoot: Option<Path>, preserve: bool, inplace: bool)
    : (dir: Option<Path>)
    ensures dir.None? <==> !inplace && preserve && inputRoot.Some? && !Under(inputRoot.value, src)
    ensures dir.Some? ==> dir.value != [] && Name(dir.value) == Stem(Name(src))
  {
    var stem := Stem(Name(src));
    if inplace then Some(Parent(src) + [stem])
    else if preserve && inputRoot.Some? then
      if Under(inputRoot.value, src) then Some(outBase + Parent(RelativeTo(src, inputRoot.value)) + [stem])
      else None
    else Some(outBase + [stem])
  }

  /** The PNG directory follows the GIF layout exactly: it is the directory
      the GIF would be written to, plus the stem. */
  lemma PngDirFollowsGifLayout(src: Path, outBase: Path, inputRoot: Option<Path>, preserve: bool, inplace: bool)
    requires PngTargetDir(src, outBase, inputRoot, preserve, inplace).Some?
    ensures var mirror := preserve && inputRoot.Some?;
      var root := if inputRoot.Some? then inputRoot.value else [];
      && (!inplace && mirror ==> Under(root, src))
      && PngTargetDir(src, outBase, inputRoot, preserve, inplace).value
         == Parent(GifOutputPath(src, root, outBase, mirror, inplace)) + [Stem(Name(src))]
  {
  }

  /** `f"{idx:04d}.png"`. */
  function FrameFileName(idx: nat): string {
    ZeroPad(NatToDecimal(idx), 4) + ".png"
  }

  /** A frame name is at least four digits and `.png`; exactly four digits
      below frame 10000; and its digits read back as the frame index. */
  lemma FrameFileNameShape(idx: nat)
    ensures var name := FrameFileName(idx);
      && |name| >= 8
      && name[|name| - 4..] == ".png"
      && (idx < 10000 ==> |name| == 8)
      && AllDigits(name[..|name| - 4])
      && DigitsValue(name[..|name| - 4]) == idx
  {
    var digits := ZeroPad(NatToDecimal(idx), 4);
    assert FrameFileName(idx)[..|FrameFileName(idx)| - 4] == digits;
    PaddedRoundTrip(idx, 4);
    if idx < 10000 {
      assert Pow10(4) == 10000;
      DecimalLength(idx, 4);
    }
  }

  /** Distinct frames never share a file name, so no frame overwrites another. */
  lemma FrameFileNameInjective(i: nat, j: nat)
    requires FrameFileName(i) == FrameFileName(j)
    ensures i == j
  {
    FrameFileNameShape(i);
    FrameFileNameShape(j);
  }

  /** The first frame is `0000.png`. */
  lemma FirstFrameName()
    ensures FrameFileName(0) == "0000.png"
  {
    assert NatToDecimal(0) == "0";
    assert Zeros(3) == "000";
  }
}
