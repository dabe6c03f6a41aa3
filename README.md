# webp2gif in Dafny

A model of `convert_webp2gif.py`, a command-line tool that converts animated
WebP images to animated GIFs and can also export every frame as a numbered
RGBA PNG. The model covers the tool's own decisions:

- reading the matte colour option (`parse_color`);
- telling animated from static sources (`is_animated`);
- the per-frame duration rule;
- the transparent-GIF palette. Frame 0 is quantised to 255 colours. Its
  palette is padded to 256 entries and slot 255 holds the matte colour. The
  binary transparency mask then overwrites the indices of every frame;
- the frame loop of `convert_file` and the arguments of the final GIF save
  call;
- where outputs go: the GIF path, the PNG frame directory and the
  zero-padded frame names;
- the skip, overwrite and failure paths of `convert_file` and
  `export_png_frames`;
- the planning and counting of `batch_convert` and `batch_export_png`.

The imaging library's work (decoding, compositing, quantising, encoding) is
represented by the opaque functions of `Convert.Library`. The file system is
represented by parameters: the sorted directory listing, the set of paths
that exist, what opening a file yields, and whether each write succeeds.

Modules, one per file: `Common` (bytes, `Option`, RGB, clamping), `Decimal`
(decimal digit strings), `ColorSpec` (`parse_color`), `Frames` (decoded
images, `is_animated`, durations), `Palette` (base palette, mask paste),
`Convert` (`convert_file`), `Paths` (output locations), `Export`
(`export_png_frames`), `Batch` (the two batch drivers and the threshold
clamp of `main`).

Only transparent mode maps later frames onto frame 0's palette. In matte
mode each frame is composited over white and gets its own adaptive
256-colour palette (`Convert.OpaqueFrame`).

## Model

| member | source | states |
|---|---|---|
| Common.Clamp | convert_webp2gif.py:29 | `max(0, min(255, x))`: values in range are kept, negatives become 0, values above 255 become 255 |
| Decimal.ParseInt | convert_webp2gif.py:29 | `int(text)` succeeds only on digits, optionally after one sign, never on a lone sign, and a digit string yields its value |
| Decimal.ParseIntExact | convert_webp2gif.py:29 | `int(text)` succeeds exactly on a digit string or a sign followed by a digit string, and a signed text yields its digits' value with that sign |
| Decimal.ParseIntRoundTrip | convert_webp2gif.py:29 | `int` reads back the decimal rendering of any natural number, with or without a leading minus |
| Decimal.NatToDecimal | convert_webp2gif.py:159 | the rendering of a frame index is a non-empty digit string with no leading zero (except "0"), one digit exactly below 10 |
| Decimal.DecimalRoundTrip | convert_webp2gif.py:159 | the rendered digits read back as the number |
| Decimal.DecimalLength | convert_webp2gif.py:159 | a number below 10^k renders in at most k digits |
| Decimal.ZeroPad | convert_webp2gif.py:159 | zero-padding to a width gives that width (or the original length), keeps the digits as a suffix and fills the front with '0' |
| Decimal.PaddedRoundTrip | convert_webp2gif.py:159 | the zero-padded rendering is all digits and still reads back as the number |
| ColorSpec.Strip | convert_webp2gif.py:24 | `strip()` leaves no white space at either end |
| ColorSpec.StripIgnoresPadding | convert_webp2gif.py:24 | white space added around a text does not change its `strip()` |
| ColorSpec.Split | convert_webp2gif.py:27 | `split(',')` yields at least one piece and no piece contains a comma |
| ColorSpec.SplitJoin | convert_webp2gif.py:27 | splitting a comma-join of comma-free pieces gives the pieces back |
| ColorSpec.JoinSplit | convert_webp2gif.py:27 | joining the pieces of a split with commas gives the text back |
| ColorSpec.HexPair | convert_webp2gif.py:26 | `int(pair, 16)` succeeds iff both characters are hexadecimal digits, with value 16·hi + lo |
| ColorSpec.ParseColor | convert_webp2gif.py:22-33 | a colour other than white comes only from a stripped `#` form of seven characters or from exactly three comma-separated parts |
| ColorSpec.HexRoundTrip | convert_webp2gif.py:25-26 | every colour written as `#RRGGBB` parses back to itself |
| ColorSpec.HashFormValid | convert_webp2gif.py:25-26 | a stripped seven-character `#` form whose three pairs are hexadecimal digits, in either case, gives the pairs' values |
| ColorSpec.HashFormInvalidIsWhite | convert_webp2gif.py:25-33 | a seven-character `#` form with any non-hexadecimal character gives white, never a decimal reading |
| ColorSpec.WrongArityIsWhite | convert_webp2gif.py:27-33 | outside the `#` form, a text that does not split into exactly three parts gives white |
| ColorSpec.NonIntegerPartIsWhite | convert_webp2gif.py:27-33 | outside the `#` form, three comma-separated parts of which one does not read as an integer give white |
| ColorSpec.ParseThreeParts | convert_webp2gif.py:27-30 | outside the `#` form, three comma-separated parts that read as integers give those integers, each clamped to [0, 255] |
| ColorSpec.ParseIgnoresPadding | convert_webp2gif.py:24 | white space around the option's text does not change the colour |
| ColorSpec.DecimalClamps | convert_webp2gif.py:27-30 | three comma-separated integers of any size or sign give each one clamped to [0, 255] |
| ColorSpec.DecimalRoundTrip | convert_webp2gif.py:27-30 | every colour written as `R,G,B` parses back to itself |
| ColorSpec.ExampleClamped | convert_webp2gif.py:29 | `10,20,300` reads as (10, 20, 255) |
| ColorSpec.ExampleGarbage | convert_webp2gif.py:33 | `garbage` reads as white |
| Frames.IsAnimated | convert_webp2gif.py:15-19 | animated iff reading the attributes does not raise and either `is_animated` is true or `n_frames` (default 1) exceeds 1 |
| Frames.ResolveDuration | convert_webp2gif.py:56-58 | the duration is always positive: the frame's own value if it is a positive integer, 100 if the frame's value is anything else, and with no frame value the image's positive integer value or else 100 |
| Palette.BasePaletteShape | convert_webp2gif.py:76-78 | the base palette has 768 values (or the quantiser's longer length), slot 255 is the matte colour, values below it are the quantiser's or zero padding |
| Palette.BuildBasePalette | convert_webp2gif.py:74-81 | the array built for frame 0 holds exactly the base palette |
| Palette.BasePalette | convert_webp2gif.py:76-78 | defines the padded base palette; `BasePaletteShape` states its length and every value |
| Palette.MaskedAt | convert_webp2gif.py:87-88 | after the paste, a pixel holds index 255 iff its alpha is at or below the threshold, and otherwise keeps its quantised index |
| Palette.Masked | convert_webp2gif.py:87-95 | the pasted index buffer has one index per pixel; `MaskedAt` and `MaskedUnique` pin each index |
| Palette.PasteTransparency | convert_webp2gif.py:94-95 | pasting the key through the mask changes the index buffer in place into the masked buffer |
| Palette.MaskedThresholdZero | convert_webp2gif.py:87 | with the default threshold 0, exactly the fully transparent pixels take the key |
| Palette.MaskedMonotone | convert_webp2gif.py:87 | a higher threshold never makes a transparent pixel opaque again |
| Convert.DitherMode | convert_webp2gif.py:52 | dither mode is 0 or 1, and 0 exactly when dithering is disabled |
| Convert.FrameStep | convert_webp2gif.py:61-104 | one loop pass yields that frame's expected output and keeps the shared palette; in transparent mode it fails exactly when the mask does not fit the frame |
| Convert.ConvertFrames | convert_webp2gif.py:54-104 | the loop fails exactly when a mask paste raises; otherwise it yields the expected frame per decoded frame, the resolved duration per frame, and key 255 iff transparent mode saw a frame |
| Convert.EncoderCall | convert_webp2gif.py:108-119 | a save call exists iff there is at least one frame |
| Convert.EncoderCallSettings | convert_webp2gif.py:108-119 | the save call carries every frame once and in order, one duration per frame, loop 0, disposal 2, `optimize = not no_optimize`, and the transparency key iff transparent mode produced one |
| Convert.ConvertFile | convert_webp2gif.py:36-124 | `False` for unreadable sources and skipped static ones; `True` iff the save call exists and the write succeeds; the save call is the one built from the expected frames and durations |
| Convert.TransparentFrameAt | convert_webp2gif.py:63-97 | in transparent mode each output frame carries the shared palette, one index per pixel, the key on every pixel with alpha at or below the threshold and the quantised index elsewhere |
| Convert.TransparentFrame | convert_webp2gif.py:63-97 | defines a transparent-mode output frame; `TransparentFrameAt` states its palette and every index |
| Convert.TransparentOutput | convert_webp2gif.py:63-119 | transparent mode end to end: N frames in, N frames and N durations out, key 255, one palette for all frames with the matte colour in slot 255, every low-alpha pixel mapped to the key |
| Convert.OpaqueOutput | convert_webp2gif.py:98-119 | matte mode end to end: N frames in, N frames out, each quantised on its own over white, and no transparency key |
| Convert.OpaqueFrame | convert_webp2gif.py:98-104 | defines a matte-mode output frame, composited over white and quantised to its own 256 colours; `OpaqueOutput` states it for every frame |
| Paths.Parent | convert_webp2gif.py:240 | a non-empty path is its parent followed by its name |
| Paths.RelativeTo | convert_webp2gif.py:243 | the input root followed by the relative path is the source path again |
| Paths.LastDot | convert_webp2gif.py:240 | the index found holds the last dot of the name, and no dot follows it |
| Paths.StemSuffixSplit | convert_webp2gif.py:240 | a name is its stem followed by its suffix, and the suffix is empty or one dot followed by no other dot |
| Paths.StemOfExtension | convert_webp2gif.py:240 | `base.ext` has stem `base` and suffix `.ext`, even when `base` holds dots |
| Paths.HiddenNameStem | convert_webp2gif.py:240 | a name like `.webp` has no suffix: its stem is the whole name |
| Paths.Stem | convert_webp2gif.py:240 | defines `path.stem`; `StemSuffixSplit` and `StemOfExtension` state that it is the name without its last-dot suffix |
| Paths.Suffix | convert_webp2gif.py:240 | defines `path.suffix`; `StemSuffixSplit` states that it is empty or one dot with no other dot, and completes the stem to the name |
| Paths.GifOutputPath | convert_webp2gif.py:239-246 | defines the `out_path` of `batch_convert`; `GifOutputPlacement`, `GifKeepsStem` and `PreserveIsInjective` state where it lies and what it is named |
| Paths.GifOutputPlacement | convert_webp2gif.py:239-246 | the GIF is named stem + `.gif` and lies beside the source (in place), in the mirrored sub-directory of the output root (structure kept), or directly in the output root |
| Paths.GifKeepsStem | convert_webp2gif.py:239-246 | a source `<stem>.webp` gives a GIF with the same stem and suffix `.gif` |
| Paths.PreserveIsInjective | convert_webp2gif.py:242-244 | with the structure kept, two different `.webp` sources below the input root never share a GIF |
| Paths.PngTargetDir | convert_webp2gif.py:136-143 | the PNG frame directory is missing exactly when structure is kept, an input root is given and the source lies outside it (the `relative_to` failure); otherwise it is a non-empty path whose name is the source's stem |
| Paths.PngDirFollowsGifLayout | convert_webp2gif.py:136-143 | the PNG frame directory is the directory the GIF layout would choose, plus the stem |
| Paths.FrameFileNameShape | convert_webp2gif.py:159 | a frame file name is at least four digits and `.png`, exactly four digits below frame 10000, and its digits read back as the index |
| Paths.FrameFileNameInjective | convert_webp2gif.py:159 | different frames never share a file name |
| Paths.FrameFileName | convert_webp2gif.py:159 | defines `f"{idx:04d}.png"`; `FrameFileNameShape`, `FrameFileNameInjective` and `FirstFrameName` state its shape, uniqueness and first value |
| Paths.FirstFrameName | convert_webp2gif.py:166 | the fallback frame of a static source is `0000.png` |
| Export.FramePaths | convert_webp2gif.py:157-161 | the files of n frames are n paths |
| Export.FramePathsDistinct | convert_webp2gif.py:159 | no two frames of one export share a file |
| Export.ExportedCount | convert_webp2gif.py:156-168 | a completed export writes exactly one file per frame, or exactly one fallback file when there are no frames and static sources are included, and none otherwise |
| Export.SaveFrames | convert_webp2gif.py:156-161 | the frame loop writes the frame files in order and completes iff every write succeeds; when it stops early, the frame after the files written is the one whose write failed |
| Export.WriteFrames | convert_webp2gif.py:156-168 | the files written are the first frame files in order, all written successfully; the export completes iff every frame file (or the static fallback `0000.png`) is written, and otherwise the next frame file is the one whose write failed |
| Export.Prefixes | convert_webp2gif.py:154 | `mkdir(parents=True)` leaves only non-empty prefixes of the path, and every non-empty prefix of it (the directory and each ancestor) |
| Export.PrefixesExact | convert_webp2gif.py:154 | a path is among the created directories iff it is a non-empty prefix of the target |
| Export.RemoveTree | convert_webp2gif.py:150-151 | `rmtree` keeps exactly the paths that do not lie at or below the removed directory |
| Export.Recreate | convert_webp2gif.py:145-154 | after the existence check, the `rmtree` of an existing target and the `mkdir`, a path exists iff it existed and did not lie at or below an existing target, or it is a non-empty prefix of the target; a target that did not exist removes nothing |
| Export.ExportDirsAfter | convert_webp2gif.py:145-154 | without overwrite no directory is removed; once an export starts, the directories afterwards are exactly those `Recreate` gives for its target; an export that does not start changes none |
| Export.ExportInto | convert_webp2gif.py:145-168 | with no target directory, or an existing one without overwrite, nothing is written and the directories are unchanged; otherwise the directories become `Recreate` of the target, the frame writes decide the outcome, and a failed export stops at the frame whose write failed |
| Export.ExportPngFrames | convert_webp2gif.py:127-174 | `False` with nothing written for unreadable sources, skipped static ones, sources outside the input root and existing directories without overwrite; what it writes is always the first frame files in order; `True` iff every frame file (or the static fallback) is written, and a started export that fails stops at the frame whose write failed; the directories afterwards are the ones `ExportDirsAfter` gives |
| Export.ExportSucceeds | convert_webp2gif.py:144-174 | defines when `export_png_frames` returns `True`: it starts and every due frame file is written; `ExportPngFrames` proves its `ok` equals this |
| Batch.CountTrue | convert_webp2gif.py:199-208 | the number of successes never exceeds the number of jobs |
| Batch.CountTrueIsMultiplicity | convert_webp2gif.py:199-208 | the success count is the number of `True` outcomes in the multiset of outcomes |
| Batch.TallyIgnoresOrder | convert_webp2gif.py:261-270 | every completion order of the same outcomes gives the same done and skipped counts |
| Batch.Tally | convert_webp2gif.py:261-270 | done counts the successes, and done plus skipped is the earlier skips plus the number of outcomes |
| Batch.Plan | convert_webp2gif.py:248-252 | a listed file yields at most one job, and that job is for the file and goes to its GIF path |
| Batch.PendingTasks | convert_webp2gif.py:236-252 | there are never more jobs than listed files |
| Batch.PendingTasksSound | convert_webp2gif.py:236-252 | every job is for a listed file, goes to that file's GIF path, whose GIF is missing or may be overwritten, and carries the batch's options |
| Batch.PendingTasksComplete | convert_webp2gif.py:236-252 | every listed file whose GIF is missing, or may be overwritten, becomes a job |
| Batch.OverwriteSubmitsAll | convert_webp2gif.py:248 | with overwrite on, every listed file becomes a job |
| Batch.RerunSubmitsNothing | convert_webp2gif.py:248-251 | a rerun without overwrite, once every GIF exists, submits no job |
| Batch.PlanConversions | convert_webp2gif.py:236-252 | the planning loop builds exactly the pending jobs and skips every other listed file |
| Batch.BatchConvert | convert_webp2gif.py:219-272 | nothing happens without an input directory; otherwise the jobs are the pending ones, each outcome is `convert_file`'s, and total = files, done = successes, skipped = total − done |
| Batch.RunConversions | convert_webp2gif.py:255-265 | the result loop yields each job's `convert_file` outcome, in submission order |
| Batch.PendingPlusExisting | convert_webp2gif.py:236-252 | without overwrite, the jobs and the listed files whose GIF already exists add up to the listing |
| Batch.SkippedCoversExisting | convert_webp2gif.py:232-270 | without overwrite, the skipped total `batch_convert` reports is at least the number of listed files whose GIF already exists |
| Batch.ExportsUpTo | convert_webp2gif.py:177-210 | exporting the first k files yields k outcomes, and without overwrite never removes an existing directory |
| Batch.ExportNext | convert_webp2gif.py:194-198 | one `export_png_frames` call on the next listed file, run on the directories the earlier calls left, extends the fold by its outcome and directories |
| Batch.SharedTargetSkipsSecond | convert_webp2gif.py:145-148 | two sources with the same PNG directory (same stem in the flat layout): once the first export starts, the second returns `False` without overwrite |
| Batch.RunExports | convert_webp2gif.py:199-208 | the result loop yields each file's `export_png_frames` outcome in listing order, each export seeing the directories the earlier ones created |
| Batch.BatchExportPng | convert_webp2gif.py:177-210 | nothing happens without an input directory; otherwise every listed file is exported with the input directory as root, each export seeing the directories the earlier ones created, and total = files, exported = successes, skipped = total − exported |
| Batch.ClampedThresholdAbove | convert_webp2gif.py:306 | for a non-negative threshold the clamp to 255 changes no pixel's fate |
| Batch.ClampedThresholdBelow | convert_webp2gif.py:306 | a negative threshold is raised to 0, so fully transparent pixels still take the key where the raw value would have selected none |

## Left out

- The imaging library's work is left out: decoding, `convert("RGBA")`, compositing arithmetic, adaptive quantisation, nearest-colour remapping, dithering, and GIF and PNG encoding. These are opaque functions, and only how the converter combines their results is modelled.
- Whether later frames in transparent mode can be remapped onto slot 255 is not modelled. Slot 255 holds the matte colour and is also the transparency key, so such pixels would show as transparent. The zero-padding slots raise the same question. The answer depends on the library's nearest-colour search.
- The model lets the quantiser return an index buffer whose size differs from the alpha plane. The mask paste then fails and `convert_file` returns `False`. The real library always keeps the frame size, so this path does not occur in practice.
- File-system effects are inputs to the model: `glob`/`rglob` and sorting (the listing), `Image.open` (an optional decoded image), and each write (a success flag). For GIFs, `exists()` is a set sampled once, before any job runs. For PNG exports, each export updates that set for the exports after it: an `rmtree` removes the target and everything below it, and `mkdir(parents=True)` adds the target and its ancestors.
- Library exceptions are represented by the parameter they would surface through. A source that fails to decode opens as `None`. A failed encode or write is a `False` write outcome. Which exception was raised is not modelled, since the code only logs it.
- Batch.BatchExportPng: with overwrite on, the model does not capture that `rmtree` deletes an earlier export's frame files when a later source has the same PNG directory. The directory set drops everything below the removed directory, but which frame files survive is not tracked; only which files each export writes is modelled.
- Export.RemoveTree: `rmtree` is assumed to remove the whole tree. The code ignores its errors, so a partly failed removal is not modelled.
- The `mkdir` of the output root in `batch_convert` and `batch_export_png` (when not in place) runs outside any `try`, so a failure there ends the program. The model leaves it out and assumes the output root exists.
- The thread and process pools are modelled by running the jobs one after the other. `Batch.TallyIgnoresOrder` shows that the totals do not depend on completion order. Races are not modelled. Example: recursive listing in the flat layout can give two sources the same GIF, and both are submitted; the two conversions then race on one file.
- `fut.result()` raising is not modelled: `convert_file` and `export_png_frames` catch every exception themselves.
- In `batch_convert`, `relative_to` runs outside any `try`. The model therefore requires every listed file to lie below the input directory, which the listing guarantees.
- Argument parsing, logging and `main` are left out. The model keeps only the alpha-threshold clamp (`Batch.ClampedThreshold*`) and the matte parsing.
- ColorSpec.ParseColor: its own contract says only where a non-white result can come from. The lemmas state the rest: `HashFormValid` and `HashFormInvalidIsWhite` cover the `#` form, `ParseThreeParts`, `NonIntegerPartIsWhite` and `WrongArityIsWhite` cover the other texts, and `HexRoundTrip`, `DecimalClamps` and `ParseIgnoresPadding` add round trips and padding.
- ColorSpec.HexPair: only two ASCII hexadecimal digits are accepted. Python's `int(pair, 16)` also accepts a sign or surrounding white space inside the pair (`+F`, ` F`, `-1`), and non-ASCII Unicode decimal digits. So `#-1-1-1` yields negative channels in Python but white in the model.
- Decimal.ParseInt: only an optional sign followed by ASCII digits is accepted. Python's `int` also accepts underscores between digits and non-ASCII decimal digits.
- Frames.ResolveDuration: a metadata value is either an integer or "not an integer". In Python `isinstance(True, int)` holds, so a boolean duration counts as the integer 1; callers of the model must encode it that way.
- The pixel content of exported PNG frames is not modelled, only which files are written and in what order.
