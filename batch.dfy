/** The two batch drivers, `batch_convert` and `batch_export_png`: the sorted
    file list is planned, each pending file is processed, and the results are
    tallied into "done" and "skipped". The directory listing, the existence
    checks and the per-file I/O are parameters; the worker pools are replaced
    by processing the jobs one after the other, which the tally cannot tell
    apart from any other completion order (see `TallyIgnoresOrder`). */
module Batch {
  import opened Common
  import opened Frames
  import opened Palette
  import opened Convert
  import opened Paths
  import opened Export

  /** One GIF job: source, destination, and the options it runs with. */
  datatype ConvertTask = ConvertTask(src: Path, dst: Path, skipStatic: bool, options: GifOptions)

  /** The totals a batch logs at the end. */
  datatype Summary = Summary(total: nat, done: nat, skipped: nat)

  /** Every listed file lies at or below the input directory. */
  predicate Listed(inputDir: Path, files: seq<Path>) {
    forall i :: 0 <= i < |files| ==> Under(inputDir, files[i])
  }

  /** The number of `True` outcomes. */
  function CountTrue(outcomes: seq<bool>): (n: nat)
    ensures n <= |outcomes|
  {
    if outcomes == [] then 0
    else CountTrue(outcomes[..|outcomes| - 1]) + (if outcomes[|outcomes| - 1] then 1 else 0)
  }

  /** The count is the multiplicity of `True` in the outcomes. */
  lemma {:induction false} CountTrueIsMultiplicity(outcomes: seq<bool>)
    ensures CountTrue(outcomes) == multiset(outcomes)[true]
  {
    if outcomes != [] {
      var n := |outcomes| - 1;
      CountTrueIsMultiplicity(outcomes[..n]);
      assert outcomes == outcomes[..n] + [outcomes[n]];
      assert multiset(outcomes) == multiset(outcomes[..n]) + multiset{outcomes[n]};
    }
  }

  /** `as_completed` yields the jobs in any order: every order of the same
      outcomes gives the same totals. */
  lemma TallyIgnoresOrder(a: seq<bool>, b: seq<bool>)
    requires multiset(a) == multiset(b)
    ensures CountTrue(a) == CountTrue(b)
    ensures |a| - CountTrue(a) == |b| - CountTrue(b)
  {
    CountTrueIsMultiplicity(a);
    CountTrueIsMultiplicity(b);
    assert |a| == |multiset(a)| == |multiset(b)| == |b|;
  }

  /** The result loop: each `True` counts as done, anything else as skipped,
      on top of the files already skipped. */
  method Tally(outcomes: seq<bool>, skippedBefore: nat) returns (done: nat, skipped: nat)
    ensures done == CountTrue(outcomes)
    ensures done + skipped == skippedBefore + |outcomes|
  {
    done, skipped := 0, skippedBefore;
    var i := 0;
    while i < |outcomes|
      invariant 0 <= i <= |outcomes|
      invariant done == CountTrue(outcomes[..i])
      invariant done + skipped == skippedBefore + i
    {
      assert outcomes[..i + 1][..i] == outcomes[..i];
      if outcomes[i] {
        done := done + 1;
      } else {
        skipped := skipped + 1;
      }
      i := i + 1;
    }
    assert outcomes[..i] == outcomes;
  }

  /** The GIF path `batch_convert` computes for a listed file. */
  function GifTarget(inputDir: Path, outputDir: Path, preserve: bool, inplace: bool): Path --> Path {
    f requires !inplace && preserve ==> Under(inputDir, f) => GifOutputPath(f, inputDir, outputDir, preserve, inplace)
  }

  /** `target` applied to each of the first `k` listed files, in order. */
  function MapPaths(files: seq<Path>, target: Path --> Path, k: nat): (out: seq<Path>)
    requires k <= |files|
    requires forall i :: 0 <= i < k ==> target.requires(files[i])
    ensures |out| == k
  {
    if k == 0 then [] else MapPaths(files, target, k - 1) + [target(files[k - 1])]
  }

  lemma {:induction false} MapPathsAt(files: seq<Path>, target: Path --> Path, k: nat, i: nat)
    requires i < k <= |files|
    requires forall j :: 0 <= j < k ==> target.requires(files[j])
    ensures MapPaths(files, target, k)[i] == target(files[i])
  {
    if i < k - 1 {
      MapPathsAt(files, target, k - 1, i);
    }
  }

  /** The GIF path of each listed file, in listing order. */
  function Destinations(files: seq<Path>, inputDir: Path, outputDir: Path, preserve: bool, inplace: bool)
    : (dsts: seq<Path>)
    requires !inplace && preserve ==> Listed(inputDir, files)
    ensures |dsts| == |files|
  {
    MapPaths(files, GifTarget(inputDir, outputDir, preserve, inplace), |files|)
  }

  lemma DestinationAt(files: seq<Path>, inputDir: Path, outputDir: Path, preserve: bool, inplace: bool, i: nat)
    requires !inplace && preserve ==> Listed(inputDir, files)
    requires i < |files|
    ensures Destinations(files, inputDir, outputDir, preserve, inplace)[i]
            == GifOutputPath(files[i], inputDir, outputDir, preserve, inplace)
  {
    MapPathsAt(files, GifTarget(inputDir, outputDir, preserve, inplace), |files|, i);
  }

  /** The job planned for a listed file `f` whose GIF path is `dst`: none
      when that GIF already exists and overwriting is off. */
  function Plan(f: Path, dst: Path, overwrite: bool, existing: set<Path>, skipStatic: bool, opts: GifOptions)
    : (job: seq<ConvertTask>)
    ensures |job| <= 1
    ensures forall t :: t in job ==> t.src == f && t.dst == dst
  {
    if dst in existing && !overwrite then [] else [ConvertTask(f, dst, skipStatic, opts)]
  }

  /** The jobs planned for the first `k` listed files, in listing order,
      given their GIF paths `dsts`. */
  function PlannedUpTo(files: seq<Path>, dsts: seq<Path>, overwrite: bool, existing: set<Path>,
                       skipStatic: bool, opts: GifOptions, k: nat): (tasks: seq<ConvertTask>)
    requires |dsts| == |files| && k <= |files|
    ensures |tasks| <= k
  {
    if k == 0 then []
    else PlannedUpTo(files, dsts, overwrite, existing, skipStatic, opts, k - 1)
           + Plan(files[k - 1], dsts[k - 1], overwrite, existing, skipStatic, opts)
  }

  /** The jobs `batch_convert` submits: one per listed file, in listing order,
      except files whose GIF already exists while overwriting is off. */
  function PendingTasks(files: seq<Path>, inputDir: Path, outputDir: Path, preserve: bool, inplace: bool,
                        overwrite: bool, existing: set<Path>, skipStatic: bool, opts: GifOptions)
    : (tasks: seq<ConvertTask>)
    requires !inplace && preserve ==> Listed(inputDir, files)
    ensures |tasks| <= |files|
  {
    var dsts := Destinations(files, inputDir, outputDir, preserve, inplace);
    PlannedUpTo(files, dsts, overwrite, existing, skipStatic, opts, |files|)
  }

  /** Every planned job is the job of some earlier listed file, going to its
      GIF path, which is missing or may be overwritten. */
  lemma {:induction false} PlannedSound(files: seq<Path>, dsts: seq<Path>, overwrite: bool, existing: set<Path>,
                                        skipStatic: bool, opts: GifOptions, k: nat, t: ConvertTask)
    returns (i: nat)
    requires |dsts| == |files| && k <= |files|
    requires t in PlannedUpTo(files, dsts, overwrite, existing, skipStatic, opts, k)
    ensures i < k && t == ConvertTask(files[i], dsts[i], skipStatic, opts)
    ensures dsts[i] !in existing || overwrite
  {
    assert k != 0;
    var prev := PlannedUpTo(files, dsts, overwrite, existing, skipStatic, opts, k - 1);
    assert PlannedUpTo(files, dsts, overwrite, existing, skipStatic, opts, k)
           == prev + Plan(files[k - 1], dsts[k - 1], overwrite, existing, skipStatic, opts);
    if t in prev {
      i := PlannedSound(files, dsts, overwrite, existing, skipStatic, opts, k - 1, t);
    } else {
      i := k - 1;
    }
  }

  /** Every job is for a listed file, goes to that file's GIF path, whose GIF
      is missing or may be overwritten, and carries the batch's options. */
  lemma PendingTasksSound(files: seq<Path>, inputDir: Path, outputDir: Path, preserve: bool, inplace: bool,
                          overwrite: bool, existing: set<Path>, skipStatic: bool, opts: GifOptions, t: ConvertTask)
    requires !inplace && preserve ==> Listed(inputDir, files)
    requires t in PendingTasks(files, inputDir, outputDir, preserve, inplace, overwrite, existing, skipStatic, opts)
    ensures t.src in files
    ensures !inplace && preserve ==> Under(inputDir, t.src)
    ensures t.dst == GifOutputPath(t.src, inputDir, outputDir, preserve, inplace)
    ensures t.dst !in existing || overwrite
    ensures t.skipStatic == skipStatic && t.options == opts
  {
    var dsts := Destinations(files, inputDir, outputDir, preserve, inplace);
    var i := PlannedSound(files, dsts, overwrite, existing, skipStatic, opts, |files|, t);
    DestinationAt(files, inputDir, outputDir, preserve, inplace, i);
    assert t.src == files[i];
  }

  /** Planning one more file appends that file's job, if any. */
  lemma PlannedStep(files: seq<Path>, dsts: seq<Path>, overwrite: bool, existing: set<Path>, skipStatic: bool,
                    opts: GifOptions, k: nat)
    requires |dsts| == |files| && k < |files|
    ensures dsts[k] in existing && !overwrite ==>
      PlannedUpTo(files, dsts, overwrite, existing, skipStatic, opts, k + 1) == PlannedUpTo(files, dsts, overwrite, existing, skipStatic, opts, k)
    ensures dsts[k] !in existing || overwrite ==>
      PlannedUpTo(files, dsts, overwrite, existing, skipStatic, opts, k + 1)
      == PlannedUpTo(files, dsts, overwrite, existing, skipStatic, opts, k) + [ConvertTask(files[k], dsts[k], skipStatic, opts)]
  {
  }

  /** The planning loop of `batch_convert`: the jobs to submit, and the
      number of files skipped because their GIF already exists. */
  method PlanConversions(files: seq<Path>, inputDir: Path, outputDir: Path, preserve: bool, inplace: bool,
                         overwrite: bool, existing: set<Path>, skipStatic: bool, opts: GifOptions)
    returns (tasks: seq<ConvertTask>, skipped: nat)
    requires !inplace && preserve ==> Listed(inputDir, files)
    ensures tasks == PendingTasks(files, inputDir, outputDir, preserve, inplace, overwrite, existing, skipStatic, opts)
    ensures skipped == |files| - |tasks|
  {
    ghost var dsts := Destinations(files, inputDir, outputDir, preserve, inplace);
    tasks, skipped := [], 0;
    var i := 0;
    while i < |files|
      invariant 0 <= i <= |files|
      invariant tasks == PlannedUpTo(files, dsts, overwrite, existing, skipStatic, opts, i)
      invariant skipped + |tasks| == i
    {
      var f := files[i];
      var dst := GifOutputPath(f, inputDir, outputDir, preserve, inplace);
      assert dst == dsts[i] by {
        DestinationAt(files, inputDir, outputDir, preserve, inplace, i);
      }
      PlannedStep(files, dsts, overwrite, existing, skipStatic, opts, i);
      if dst in existing && !overwrite {
        skipped := skipped + 1;
      } else {
        tasks := tasks + [ConvertTask(f, dst, skipStatic, opts)];
      }
      i := i + 1;
    }
  }

  lemma {:induction false} PlannedComplete(files: seq<Path>, dsts: seq<Path>, overwrite: bool, existing: set<Path>,
                                           skipStatic: bool, opts: GifOptions, k: nat, i: nat)
    requires |dsts| == |files| && i < k <= |files|
    requires dsts[i] !in existing || overwrite
    ensures ConvertTask(files[i], dsts[i], skipStatic, opts)
            in PlannedUpTo(files, dsts, overwrite, existing, skipStatic, opts, k)
  {
    if i < k - 1 {
      PlannedComplete(files, dsts, overwrite, existing, skipStatic, opts, k - 1, i);
    } else {
      assert Plan(files[i], dsts[i], overwrite, existing, skipStatic, opts)
             == [ConvertTask(files[i], dsts[i], skipStatic, opts)];
    }
  }

  /** No file is lost: every file whose GIF is missing, or may be overwritten,
      becomes a job. */
  lemma PendingTasksComplete(files: seq<Path>, inputDir: Path, outputDir: Path, preserve: bool, inplace: bool,
                             overwrite: bool, existing: set<Path>, skipStatic: bool, opts: GifOptions, i: nat)
    requires !inplace && preserve ==> Listed(inputDir, files)
    requires i < |files|
    requires GifOutputPath(files[i], inputDir, outputDir, preserve, inplace) !in existing || overwrite
    ensures ConvertTask(files[i], GifOutputPath(files[i], inputDir, outputDir, preserve, inplace), skipStatic, opts)
            in PendingTasks(files, inputDir, outputDir, preserve, inplace, overwrite, existing, skipStatic, opts)
  {
    var dsts := Destinations(files, inputDir, outputDir, preserve, inplace);
    DestinationAt(files, inputDir, outputDir, preserve, inplace, i);
    PlannedComplete(files, dsts, overwrite, existing, skipStatic, opts, |files|, i);
  }

  lemma {:induction false} OverwritePlansAll(files: seq<Path>, dsts: seq<Path>, existing: set<Path>,
                                             skipStatic: bool, opts: GifOptions, k: nat)
    requires |dsts| == |files| && k <= |files|
    ensures |PlannedUpTo(files, dsts, true, existing, skipStatic, opts, k)| == k
  {
    if k > 0 {
      OverwritePlansAll(files, dsts, existing, skipStatic, opts, k - 1);
    }
  }

  /** With overwriting on, every listed file becomes a job. */
  lemma OverwriteSubmitsAll(files: seq<Path>, inputDir: Path, outputDir: Path, preserve: bool, inplace: bool,
                            existing: set<Path>, skipStatic: bool, opts: GifOptions)
    requires !inplace && preserve ==> Listed(inputDir, files)
    ensures |PendingTasks(files, inputDir, outputDir, preserve, inplace, true, existing, skipStatic, opts)| == |files|
  {
    var dsts := Destinations(files, inputDir, outputDir, preserve, inplace);
    OverwritePlansAll(files, dsts, existing, skipStatic, opts, |files|);
  }

  lemma {:induction false} RerunPlansNothing(files: seq<Path>, dsts: seq<Path>, existing: set<Path>,
                                             skipStatic: bool, opts: GifOptions, k: nat)
    requires |dsts| == |files| && k <= |files|
    requires forall i :: 0 <= i < |dsts| ==> dsts[i] in existing
    ensures PlannedUpTo(files, dsts, false, existing, skipStatic, opts, k) == []
  {
    if k > 0 {
      RerunPlansNothing(files, dsts, existing, skipStatic, opts, k - 1);
    }
  }

  /** A second run without overwriting, once every GIF exists, submits
      nothing. */
  lemma RerunSubmitsNothing(files: seq<Path>, inputDir: Path, outputDir: Path, preserve: bool, inplace: bool,
                            existing: set<Path>, skipStatic: bool, opts: GifOptions)
    requires !inplace && preserve ==> Listed(inputDir, files)
    requires forall i :: 0 <= i < |files| ==>
               GifOutputPath(files[i], inputDir, outputDir, preserve, inplace) in existing
    ensures PendingTasks(files, inputDir, outputDir, preserve, inplace, false, existing, skipStatic, opts) == []
  {
    var dsts := Destinations(files, inputDir, outputDir, preserve, inplace);
    forall i | 0 <= i < |dsts|
      ensures dsts[i] in existing
    {
      DestinationAt(files, inputDir, outputDir, preserve, inplace, i);
    }
    RerunPlansNothing(files, dsts, existing, skipStatic, opts, |files|);
  }

  /** Whether each job's `convert_file` returns `True`, in submission order.
      `open` gives what opening a source yields and `writes` whether writing
      a destination succeeds. */
  function ConvertOutcomes(tasks: seq<ConvertTask>, open: Path -> Option<SourceImage>, lib: Library,
                           writes: Path -> bool): (outcomes: seq<bool>)
    ensures |outcomes| == |tasks|
  {
    seq(|tasks|, k requires 0 <= k < |tasks| =>
      ConvertSucceeds(open(tasks[k].src), tasks[k].skipStatic, tasks[k].options, lib, writes(tasks[k].dst)))
  }

  /** The result loop of `batch_convert` run one job at a time: each job's
      `convert_file` outcome, in submission order. */
  method RunConversions(tasks: seq<ConvertTask>, open: Path -> Option<SourceImage>, lib: Library,
                        writes: Path -> bool)
    returns (outcomes: seq<bool>)
    ensures outcomes == ConvertOutcomes(tasks, open, lib, writes)
  {
    outcomes := [];
    var k := 0;
    while k < |tasks|
      invariant 0 <= k <= |tasks|
      invariant outcomes == ConvertOutcomes(tasks, open, lib, writes)[..k]
    {
      var t := tasks[k];
      var ok, _ := ConvertFile(open(t.src), t.skipStatic, t.options, lib, writes(t.dst));
      outcomes := outcomes + [ok];
      k := k + 1;
    }
  }

  /** `batch_convert`. `inputExists` is the input directory's existence,
      `files` the sorted listing, `existing` the paths present at planning
      time. The result is `None` when the input directory is missing. */
  method BatchConvert(inputExists: bool, files: seq<Path>, inputDir: Path, outputDir: Path, overwrite: bool,
                      skipStatic: bool, opts: GifOptions, preserve: bool, inplace: bool, existing: set<Path>,
                      open: Path -> Option<SourceImage>, lib: Library, writes: Path -> bool)
    returns (summary: Option<Summary>, tasks: seq<ConvertTask>, outcomes: seq<bool>)
    requires !inplace && preserve ==> Listed(inputDir, files)
    ensures !inputExists ==> summary.None? && tasks == [] && outcomes == []
    ensures inputExists ==>
      && tasks == PendingTasks(files, inputDir, outputDir, preserve, inplace, overwrite, existing, skipStatic, opts)
      && outcomes == ConvertOutcomes(tasks, open, lib, writes)
      && summary == Some(Summary(|files|, CountTrue(outcomes), |files| - CountTrue(outcomes)))
  {
    tasks, outcomes := [], [];
    if !inputExists {
      return None, tasks, outcomes;
    }
    var skipped;
    tasks, skipped := PlanConversions(files, inputDir, outputDir, preserve, inplace, overwrite, existing,
                                      skipStatic, opts);
    outcomes := RunConversions(tasks, open, lib, writes);
    var done, skippedTotal := Tally(outcomes, skipped);
    assert skippedTotal == |files| - done;
    summary := Some(Summary(|files|, done, skippedTotal));
  }

  /** How many of the first `k` GIF paths already exist. */
  function ExistingUpTo(dsts: seq<Path>, existing: set<Path>, k: nat): (n: nat)
    requires k <= |dsts|
    ensures n <= k
  {
    if k == 0 then 0
    else ExistingUpTo(dsts, existing, k - 1) + (if dsts[k - 1] in existing then 1 else 0)
  }

  /** The number of listed files whose GIF already exists. */
  function ExistingOutputs(files: seq<Path>, inputDir: Path, outputDir: Path, preserve: bool, inplace: bool,
                           existing: set<Path>): (n: nat)
    requires !inplace && preserve ==> Listed(inputDir, files)
    ensures n <= |files|
  {
    var dsts := Destinations(files, inputDir, outputDir, preserve, inplace);
    ExistingUpTo(dsts, existing, |files|)
  }

  lemma {:induction false} PlannedPlusExisting(files: seq<Path>, dsts: seq<Path>, existing: set<Path>,
                                               skipStatic: bool, opts: GifOptions, k: nat)
    requires |dsts| == |files| && k <= |files|
    ensures |PlannedUpTo(files, dsts, false, existing, skipStatic, opts, k)| + ExistingUpTo(dsts, existing, k) == k
  {
    if k > 0 {
      PlannedPlusExisting(files, dsts, existing, skipStatic, opts, k - 1);
    }
  }

  /** Without overwriting, the planned jobs and the files with an existing
      GIF partition the listing. */
  lemma PendingPlusExisting(files: seq<Path>, inputDir: Path, outputDir: Path, preserve: bool, inplace: bool,
                            existing: set<Path>, skipStatic: bool, opts: GifOptions)
    requires !inplace && preserve ==> Listed(inputDir, files)
    ensures |PendingTasks(files, inputDir, outputDir, preserve, inplace, false, existing, skipStatic, opts)|
            + ExistingOutputs(files, inputDir, outputDir, preserve, inplace, existing) == |files|
  {
    var dsts := Destinations(files, inputDir, outputDir, preserve, inplace);
    PlannedPlusExisting(files, dsts, existing, skipStatic, opts, |files|);
  }

  /** The skipped total `batch_convert` reports (the files minus the
      conversions that returned `True`) counts at least every listed file
      whose GIF already existed, when overwriting is off. */
  lemma SkippedCoversExisting(files: seq<Path>, inputDir: Path, outputDir: Path, preserve: bool, inplace: bool,
                              existing: set<Path>, skipStatic: bool, opts: GifOptions,
                              open: Path -> Option<SourceImage>, lib: Library, writes: Path -> bool)
    requires !inplace && preserve ==> Listed(inputDir, files)
    ensures var tasks := PendingTasks(files, inputDir, outputDir, preserve, inplace, false, existing, skipStatic, opts);
      |files| - CountTrue(ConvertOutcomes(tasks, open, lib, writes))
      >= ExistingOutputs(files, inputDir, outputDir, preserve, inplace, existing)
  {
    PendingPlusExisting(files, inputDir, outputDir, preserve, inplace, existing, skipStatic, opts);
  }

  /** The first `k` files of `batch_export_png`, one after the other: whether
      each one's `export_png_frames` returns `True`, in listing order, and
      the directories present afterwards. The batch always passes its input
      directory as the root, and each export sees the directories the earlier
      ones created. */
  function ExportsUpTo(files: seq<Path>, inputDir: Path, outputDir: Path, overwrite: bool, includeStatic: bool,
                       preserve: bool, inplace: bool, open: Path -> Option<SourceImage>, existing: set<Path>,
                       saved: Path -> bool, k: nat): (r: (seq<bool>, set<Path>))
    requires k <= |files|
    ensures |r.0| == k && (!overwrite ==> existing <= r.1)
  {
    if k == 0 then ([], existing)
    else
      var (outcomes, dirs) := ExportsUpTo(files, inputDir, outputDir, overwrite, includeStatic, preserve, inplace, open, existing, saved, k - 1);
      var f := files[k - 1];
      var ok := ExportSucceeds(f, outputDir, overwrite, includeStatic, Some(inputDir), preserve, inplace, open(f),
                               dirs, saved);
      (outcomes + [ok],
       ExportDirsAfter(f, outputDir, overwrite, includeStatic, Some(inputDir), preserve, inplace, open(f), dirs))
  }

  /** One more file extends the fold by that file's export, run on the
      directories the earlier exports left. */
  lemma ExportsStep(files: seq<Path>, inputDir: Path, outputDir: Path, overwrite: bool, includeStatic: bool,
                    preserve: bool, inplace: bool, open: Path -> Option<SourceImage>, existing: set<Path>,
                    saved: Path -> bool, k: nat, outcomes: seq<bool>, dirs: set<Path>)
    requires k < |files|
    requires (outcomes, dirs) == ExportsUpTo(files, inputDir, outputDir, overwrite, includeStatic, preserve, inplace,
                                             open, existing, saved, k)
    ensures ExportsUpTo(files, inputDir, outputDir, overwrite, includeStatic, preserve, inplace, open, existing,
                        saved, k + 1)
            == (outcomes + [ExportSucceeds(files[k], outputDir, overwrite, includeStatic, Some(inputDir), preserve,
                                           inplace, open(files[k]), dirs, saved)],
                ExportDirsAfter(files[k], outputDir, overwrite, includeStatic, Some(inputDir), preserve, inplace,
                                open(files[k]), dirs))
  {
  }

  /** Whether each file's `export_png_frames` returns `True`, in listing
      order, starting from the paths present before the batch. */
  function ExportOutcomes(files: seq<Path>, inputDir: Path, outputDir: Path, overwrite: bool, includeStatic: bool,
                          preserve: bool, inplace: bool, open: Path -> Option<SourceImage>, existing: set<Path>,
                          saved: Path -> bool): (outcomes: seq<bool>)
    ensures |outcomes| == |files|
  {
    ExportsUpTo(files, inputDir, outputDir, overwrite, includeStatic, preserve, inplace, open, existing, saved, |files|).0
  }

  /** Two sources sharing a PNG directory (same stem in the flat layout):
      once the first has created it, the second is skipped when overwriting
      is off, whatever happens to the first one's frame writes. */
  lemma SharedTargetSkipsSecond(a: Path, b: Path, inputDir: Path, outputDir: Path, includeStatic: bool,
                                preserve: bool, inplace: bool, open: Path -> Option<SourceImage>,
                                existing: set<Path>, saved: Path -> bool)
    requires PngTargetDir(a, outputDir, Some(inputDir), preserve, inplace).Some?
    requires PngTargetDir(a, outputDir, Some(inputDir), preserve, inplace)
             == PngTargetDir(b, outputDir, Some(inputDir), preserve, inplace)
    requires PngTargetDir(a, outputDir, Some(inputDir), preserve, inplace).value !in existing
    requires open(a).Some? && (IsAnimated(open(a).value) || includeStatic)
    ensures ExportOutcomes([a, b], inputDir, outputDir, false, includeStatic, preserve, inplace, open, existing,
                           saved)[1] == false
  {
    var dir := PngTargetDir(a, outputDir, Some(inputDir), preserve, inplace).value;
    assert dir != [];
    var dirs := ExportDirsAfter(a, outputDir, false, includeStatic, Some(inputDir), preserve, inplace, open(a),
                                existing);
    assert dir in dirs;
    var first := ExportsUpTo([a, b], inputDir, outputDir, false, includeStatic, preserve, inplace, open, existing,
                             saved, 1);
    assert [a, b][0] == a && [a, b][1] == b;
    assert ExportsUpTo([a, b], inputDir, outputDir, false, includeStatic, preserve, inplace, open, existing, saved, 0)
           == ([], existing);
    assert first.1 == dirs;
  }

  /** One `export_png_frames` call of the batch: the next file's export,
      run on the directories the earlier exports left, extends the fold. */
  method ExportNext(files: seq<Path>, inputDir: Path, outputDir: Path, overwrite: bool, includeStatic: bool,
                    preserve: bool, inplace: bool, open: Path -> Option<SourceImage>, existing: set<Path>,
                    saved: Path -> bool, k: nat, outcomes: seq<bool>, dirs: set<Path>)
    returns (outcomes': seq<bool>, dirs': set<Path>)
    requires k < |files|
    requires (outcomes, dirs) == ExportsUpTo(files, inputDir, outputDir, overwrite, includeStatic, preserve, inplace,
                                             open, existing, saved, k)
    ensures (outcomes', dirs') == ExportsUpTo(files, inputDir, outputDir, overwrite, includeStatic, preserve, inplace,
                                              open, existing, saved, k + 1)
  {
    var f := files[k];
    var ok, written;
    ok, written, dirs' := ExportPngFrames(f, outputDir, overwrite, includeStatic, Some(inputDir), preserve,
                                          inplace, open(f), dirs, saved);
    outcomes' := outcomes + [ok];
    ExportsStep(files, inputDir, outputDir, overwrite, includeStatic, preserve, inplace, open, existing, saved, k,
                outcomes, dirs);
  }

  /** The result loop of `batch_export_png` run one file at a time: each
      file's `export_png_frames` outcome, in listing order, each export seeing
      the directories the earlier ones created. */
  method RunExports(files: seq<Path>, inputDir: Path, outputDir: Path, overwrite: bool, includeStatic: bool,
                    preserve: bool, inplace: bool, open: Path -> Option<SourceImage>, existing: set<Path>,
                    saved: Path -> bool)
    returns (outcomes: seq<bool>)
    ensures outcomes == ExportOutcomes(files, inputDir, outputDir, overwrite, includeStatic, preserve, inplace, open,
                                       existing, saved)
    ensures |outcomes| == |files|
  {
    outcomes := [];
    var k := 0;
    var dirs := existing;
    while k < |files|
      invariant 0 <= k <= |files|
      invariant (outcomes, dirs) == ExportsUpTo(files, inputDir, outputDir, overwrite, includeStatic, preserve, inplace, open, existing, saved, k)
    {
      outcomes, dirs := ExportNext(files, inputDir, outputDir, overwrite, includeStatic, preserve, inplace, open,
                                   existing, saved, k, outcomes, dirs);
      k := k + 1;
    }
  }

  /** `batch_export_png`: every listed file is submitted; the result is
      `None` when the input directory is missing. */
  method BatchExportPng(inputExists: bool, files: seq<Path>, inputDir: Path, outputDir: Path, overwrite: bool,
                        includeStatic: bool, preserve: bool, inplace: bool, open: Path -> Option<SourceImage>,
                        existing: set<Path>, saved: Path -> bool)
    returns (summary: Option<Summary>, outcomes: seq<bool>)
    ensures !inputExists ==> summary.None? && outcomes == []
    ensures inputExists ==>
      && outcomes == ExportOutcomes(files, inputDir, outputDir, overwrite, includeStatic, preserve, inplace, open,
                                    existing, saved)
      && summary == Some(Summary(|files|, CountTrue(outcomes), |files| - CountTrue(outcomes)))
  {
    outcomes := [];
    if !inputExists {
      return None, outcomes;
    }
    outcomes := RunExports(files, inputDir, outputDir, overwrite, includeStatic, preserve, inplace, open, existing,
                           saved);
    var done, skipped := Tally(outcomes, 0);
    summary := Some(Summary(|files|, done, skipped));
  }

  /** `max(0, min(255, args.alpha_threshold))`: above 255 the clamp changes
      no pixel's fate, since every alpha is at most 255. */
  lemma ClampedThresholdAbove(indices: seq<Byte>, alpha: seq<Byte>, threshold: int)
    requires |indices| == |alpha| && threshold >= 0
    ensures Masked(indices, alpha, Clamp(threshold)) == Masked(indices, alpha, threshold)
  {
    var a := Masked(indices, alpha, Clamp(threshold));
    var b := Masked(indices, alpha, threshold);
    forall i | 0 <= i < |a| ensures a[i] == b[i] {
      MaskedAt(indices, alpha, Clamp(threshold), i);
      MaskedAt(indices, alpha, threshold, i);
    }
  }

  /** A negative threshold is raised to 0, so fully transparent pixels still
      take the key, where the raw value would have selected none. */
  lemma ClampedThresholdBelow(indices: seq<Byte>, alpha: seq<Byte>, threshold: int, i: nat)
    requires |indices| == |alpha| && threshold < 0 && i < |indices|
    ensures Masked(indices, alpha, Clamp(threshold))[i] == if alpha[i] == 0 then TransparencyIndex else indices[i]
    ensures Masked(indices, alpha, threshold)[i] == indices[i]
  {
    MaskedAt(indices, alpha, Clamp(threshold), i);
    MaskedAt(indices, alpha, threshold, i);
  }
}
