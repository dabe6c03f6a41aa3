/** `export_png_frames`: every decoded frame of one source written as a
    numbered RGBA PNG into the source's own directory. The PNG encoder and the
    file system are represented by the set of paths that exist beforehand and
    by `saved`, the outcome of each file write. */
module Export {
  import opened Common
  import opened Frames
  import opened Paths

  /** The files written for the first `n` frames, in order. */
  function FramePaths(dir: Path, n: nat): (paths: seq<Path>)
    ensures |paths| == n
  {
    seq(n, k requires 0 <= k < n => dir + [FrameFileName(k)])
  }

  /** No two frames of one export share a file. */
  lemma FramePathsDistinct(dir: Path, n: nat, i: nat, j: nat)
    requires i < j < n
    ensures FramePaths(dir, n)[i] != FramePaths(dir, n)[j]
  {
    if FramePaths(dir, n)[i] == FramePaths(dir, n)[j] {
      assert (dir + [FrameFileName(i)])[|dir|] == FrameFileName(i);
      assert (dir + [FrameFileName(j)])[|dir|] == FrameFileName(j);
      FrameFileNameInjective(i, j);
    }
  }

  /** The number of PNG files a completed export writes: one per frame, or the
      single `0000.png` of the fallback when the frame iterator yields nothing
      and static inputs are included. */
  function ExportedCount(frameCount: nat, includeStatic: bool): (n: nat)
    ensures frameCount > 0 ==> n == frameCount
    ensures frameCount == 0 ==> n == (if includeStatic then 1 else 0)
  {
    if frameCount == 0 && includeStatic then 1 else frameCount
  }

  /** One more frame appends its file to the list. */
  lemma FramePathsStep(dir: Path, n: nat)
    ensures FramePaths(dir, n + 1) == FramePaths(dir, n) + [dir + [FrameFileName(n)]]
  {
  }

  /** The frame loop of `export_png_frames`: frame k goes to `dir/kkkk.png`,
      in order, until a write fails. `complete` says that all `n` were
      written. */
  method SaveFrames(dir: Path, n: nat, saved: Path -> bool) returns (written: seq<Path>, complete: bool)
    ensures |written| <= n && written == FramePaths(dir, |written|)
    ensures AllSaved(written, saved)
    ensures complete <==> AllSaved(FramePaths(dir, n), saved)
    ensures complete ==> |written| == n
    ensures !complete ==> |written| < n && !saved(dir + [FrameFileName(|written|)])
  {
    written := [];
    var count := 0;
    while count < n
      invariant 0 <= count <= n
      invariant written == FramePaths(dir, count)
      invariant AllSaved(written, saved)
    {
      var path := dir + [FrameFileName(count)];
      if !saved(path) {
        assert path == FramePaths(dir, n)[count];
        return written, false;
      }
      FramePathsStep(dir, count);
      written := written + [path];
      count := count + 1;
    }
    complete := true;
  }

  /** The writes of `export_png_frames` once its target directory exists:
      every frame, then the single fallback frame of a source whose frame
      iterator yields nothing when static sources are included. */
  method WriteFrames(dir: Path, frameCount: nat, includeStatic: bool, saved: Path -> bool)
    returns (ok: bool, written: seq<Path>)
    ensures written == FramePaths(dir, |written|)
    ensures AllSaved(written, saved)
    ensures ok ==> |written| == ExportedCount(frameCount, includeStatic)
    ensures ok <==> AllSaved(FramePaths(dir, ExportedCount(frameCount, includeStatic)), saved)
    ensures !ok ==> |written| < ExportedCount(frameCount, includeStatic) && !saved(dir + [FrameFileName(|written|)])
  {
    var complete;
    written, complete := SaveFrames(dir, frameCount, saved);
    if !complete {
      return false, written;
    }
    if frameCount == 0 && includeStatic {
      var path := dir + [FrameFileName(0)];
      if !saved(path) {
        assert path == FramePaths(dir, 1)[0];
        return false, written;
      }
      written := [path];
    }
    ok := true;
  }

  /** Every path in `paths` was written successfully. */
  predicate AllSaved(paths: seq<Path>, saved: Path -> bool) {
    forall k :: 0 <= k < |paths| ==> saved(paths[k])
  }

  /** Whether `export_png_frames` gets as far as creating its target
      directory: the file opens, it is animated or static files are included,
      its target directory can be computed and is free (or may be
      overwritten). */
  predicate ExportStarts(src: Path, outBase: Path, overwrite: bool, includeStatic: bool, inputRoot: Option<Path>,
                         preserve: bool, inplace: bool, source: Option<SourceImage>, existing: set<Path>)
  {
    var dir := PngTargetDir(src, outBase, inputRoot, preserve, inplace);
    && source.Some? && (IsAnimated(source.value) || includeStatic)
    && dir.Some? && (dir.value !in existing || overwrite)
  }

  /** Whether `export_png_frames` returns `True`: it starts, and every frame
      file is written. */
  predicate ExportSucceeds(src: Path, outBase: Path, overwrite: bool, includeStatic: bool, inputRoot: Option<Path>,
                           preserve: bool, inplace: bool, source: Option<SourceImage>, existing: set<Path>,
                           saved: Path -> bool)
  {
    && ExportStarts(src, outBase, overwrite, includeStatic, inputRoot, preserve, inplace, source, existing)
    && AllSaved(FramePaths(PngTargetDir(src, outBase, inputRoot, preserve, inplace).value,
                           ExportedCount(|source.value.frames|, includeStatic)), saved)
  }

  /** The directories `mkdir(parents=True)` leaves behind for `p`: `p` and
      every ancestor of it below `.`. */
  function Prefixes(p: Path): (ps: set<Path>)
    ensures forall q :: q in ps ==> q != [] && q <= p
    ensures forall i :: 0 < i <= |p| ==> p[..i] in ps
  {
    if p == [] then {}
    else
      var up := p[..|p| - 1];
      assert forall i :: 0 < i <= |up| ==> up[..i] == p[..i];
      assert p[..|p|] == p;
      Prefixes(up) + {p}
  }

  /** `mkdir(parents=True)` creates exactly the non-empty prefixes of the
      path: the directory and every ancestor of it. */
  lemma PrefixesExact(p: Path)
    ensures forall q :: q in Prefixes(p) <==> q != [] && q <= p
  {
    forall q | q != [] && q <= p
      ensures q in Prefixes(p)
    {
      assert q == p[..|q|];
    }
  }

  /** What `shutil.rmtree(dir)` leaves: every path except `dir` and those
      below it. */
  function RemoveTree(paths: set<Path>, dir: Path): (rest: set<Path>)
    ensures rest <= paths
    ensures forall q :: q in paths && !(dir <= q) ==> q in rest
    ensures forall q :: q in rest ==> !(dir <= q)
  {
    set q | q in paths && !(dir <= q)
  }

  /** The directories after the existence check on `dir`, the `rmtree` of
      an existing `dir` and `mkdir(parents=True)`: an existing `dir` is gone
      with everything below it, then `dir` and its ancestors exist. Anything
      that neither lies below an existing `dir` nor is an ancestor of it is
      kept or stays absent. */
  function Recreate(existing: set<Path>, dir: Path): (dirs: set<Path>)
    ensures forall q :: q in dirs <==> (q in existing && !(dir in existing && dir <= q)) || (q != [] && q <= dir)
    ensures dir !in existing ==> existing <= dirs
  {
    PrefixesExact(dir);
    (if dir in existing then RemoveTree(existing, dir) else existing) + Prefixes(dir)
  }

  /** The directories that exist after `export_png_frames`: once the export
      starts, its target directory is recreated, whether or not the frame
      writes then succeed; an export that does not start changes nothing. */
  function ExportDirsAfter(src: Path, outBase: Path, overwrite: bool, includeStatic: bool, inputRoot: Option<Path>,
                           preserve: bool, inplace: bool, source: Option<SourceImage>, existing: set<Path>)
    : (dirs: set<Path>)
    ensures !overwrite ==> existing <= dirs
    ensures ExportStarts(src, outBase, overwrite, includeStatic, inputRoot, preserve, inplace, source, existing) ==>
      var dir := PngTargetDir(src, outBase, inputRoot, preserve, inplace).value;
      forall q :: q in dirs <==> (q in existing && !(dir in existing && dir <= q)) || (q != [] && q <= dir)
    ensures !ExportStarts(src, outBase, overwrite, includeStatic, inputRoot, preserve, inplace, source, existing) ==>
      dirs == existing
  {
    if ExportStarts(src, outBase, overwrite, includeStatic, inputRoot, preserve, inplace, source, existing)
    then Recreate(existing, PngTargetDir(src, outBase, inputRoot, preserve, inplace).value)
    else existing
  }

  /** The part of `export_png_frames` after the static check: the existence
      check on the target directory (`None` when it cannot be computed), its
      creation, and the frame writes. */
  method ExportInto(target: Option<Path>, existing: set<Path>, overwrite: bool, frameCount: nat,
                    includeStatic: bool, saved: Path -> bool)
    returns (ok: bool, written: seq<Path>, dirs: set<Path>)
    ensures !(target.Some? && (target.value !in existing || overwrite)) ==> !ok && written == [] && dirs == existing
    ensures target.Some? && (target.value !in existing || overwrite) ==>
      && dirs == Recreate(existing, target.value)
      && written == FramePaths(target.value, |written|)
      && (ok <==> AllSaved(FramePaths(target.value, ExportedCount(frameCount, includeStatic)), saved))
      && (ok ==> |written| == ExportedCount(frameCount, includeStatic))
      && (!ok ==> |written| < ExportedCount(frameCount, includeStatic)
                  && !saved(target.value + [FrameFileName(|written|)]))
    ensures AllSaved(written, saved)
  {
    if target.None? {
      return false, [], existing;
    }
    var dir := target.value;
    dirs := existing;
    if dir in existing {
      if !overwrite {
        return false, [], existing;
      }
      dirs := RemoveTree(existing, dir);
    }
    dirs := dirs + Prefixes(dir);
    ok, written := WriteFrames(dir, frameCount, includeStatic, saved);
  }

  /** `export_png_frames`. `ok` is its return value, `written` lists the
      files it wrote, in order, and `dirs` is the set of existing directories
      afterwards; a write that fails ends the export with the files written so
      far left in place. */
  method ExportPngFrames(src: Path, outBase: Path, overwrite: bool, includeStatic: bool, inputRoot: Option<Path>,
                         preserve: bool, inplace: bool, source: Option<SourceImage>, existing: set<Path>,
                         saved: Path -> bool)
    returns (ok: bool, written: seq<Path>, dirs: set<Path>)
    ensures source.None? ==> !ok && written == []
    ensures source.Some? && !IsAnimated(source.value) && !includeStatic ==> !ok && written == []
    ensures PngTargetDir(src, outBase, inputRoot, preserve, inplace).None? ==> !ok && written == []
    ensures var dir := PngTargetDir(src, outBase, inputRoot, preserve, inplace);
      dir.Some? && dir.value in existing && !overwrite ==> !ok && written == []
    ensures ExportStarts(src, outBase, overwrite, includeStatic, inputRoot, preserve, inplace, source, existing) ==>
      written == FramePaths(PngTargetDir(src, outBase, inputRoot, preserve, inplace).value, |written|)
    ensures AllSaved(written, saved)
    ensures ok ==> source.Some? && |written| == ExportedCount(|source.value.frames|, includeStatic)
    ensures ExportStarts(src, outBase, overwrite, includeStatic, inputRoot, preserve, inplace, source, existing)
            && !ok ==>
      && |written| < ExportedCount(|source.value.frames|, includeStatic)
      && !saved(PngTargetDir(src, outBase, inputRoot, preserve, inplace).value + [FrameFileName(|written|)])
    ensures ok <==> ExportSucceeds(src, outBase, overwrite, includeStatic, inputRoot, preserve, inplace, source,
                                   existing, saved)
    ensures dirs == ExportDirsAfter(src, outBase, overwrite, includeStatic, inputRoot, preserve, inplace, source,
                                    existing)
  {
    written, dirs := [], existing;
    if source.None? {
      return false, [], existing;
    }
    var img := source.value;
    if !IsAnimated(img) && !includeStatic {
      return false, [], existing;
    }
    var target := PngTargetDir(src, outBase, inputRoot, preserve, inplace);
    ok, written, dirs := ExportInto(target, existing, overwrite, |img.frames|, includeStatic, saved);
  }
}
