# E-paper to-do board: display refresh pipeline in Dafny

The repository renders a to-do list onto a 7.5 inch e-paper panel. It shows a
picture from its own library when there is nothing to do. This project models
the three parts of that pipeline that carry exact behaviour, and proves
properties of them.

- **Image normaliser and upload ingestor** (`convert.py`), in `convert.dfy`:
  - the 4-level quantiser;
  - the letterbox geometry: a uniform scale chosen by `min`, truncated sizes,
    and centring offsets computed by floor division;
  - compositing onto a white 480 x 800 canvas;
  - the loop that converts every upload, saves it under `stem + ".png"` and
    deletes only the sources whose conversion succeeded.

  The in-place steps are methods on `array2<byte>`:
  - `ConvertToGrayscale4Level` overwrites each pixel with its level;
  - `PasteInto` writes a picture into the canvas.

  `Folders` holds the two directories as optional maps from file names to
  contents. Its `ProcessUploads` method runs the loop. Each of these methods is
  proved against a function on values:
  - `ConvertImage` equals `Normalize`;
  - `ProcessUploads` equals `IngestAll`.

  Lemmas then state what those functions promise.
- **Refresh controller** (`epaper.py`), in `epaper.dfy`:
  - the choice between full refresh (every fifth minute, or on request) and
    partial refresh;
  - the quarter-turn rotation of the portrait picture;
  - the driver command sequences of `display_image` and `clear_display`.

  The driver is a class, `Epd`, whose `log` holds the commands the panel has
  completed. The set `faults` says which kinds of command raise. Both
  operations return their boolean result together with that trace.
- **Fallback selector** (`fallback.py`), in `fallback.dfy`:
  - keep the entries with a `.png`, `.jpg` or `.jpeg` suffix, compared
    case-insensitively;
  - sort them by name;
  - pick the one at `hash(isoformat(date)) % count`.

Supporting modules:

- `images.dfy`: well-formed 8-bit luminance rasters, and what a file holds
  (a picture, or something that does not open as one).
- `path_names.dfy`: `Path.suffix`, `Path.stem` and `str.lower`, as the suffix
  tests use them.
- `string_order.dfy`: the code-point lexicographic order that `sorted` uses on
  names, and an insertion sort proved to be sorted and a permutation. The result
  is determined by the multiset of names alone.
- `wrappers.dfy`: `Option`. `None` stands for Python's `None` and for a step
  that raised.

The clock, the device probe, the import of the driver library, the directory
listings, the resampling filter and MD5 are parameters.

`display_image` and `clear_display` complete `sleep` only at the end of a
fault-free pass, which for `display_image` ends with the rotated frame and then
`sleep`. After a fault they return `False` without a completed `sleep`; when
only `sleep` raises, the frame has already been sent. The trace records the
commands that completed, not the panel's power state.
`DisplaySleepsOnlyOnSuccess` and `ClearSleepsOnlyOnSuccess` state this.

## Model

| member | source | states |
|---|---|---|
| Convert.Quantize | src/wall_todo/convert.py:28-36 | the result is one of 0, 85, 170, 255, and it is 85 times the index of the width-64 bin that holds the pixel |
| Convert.QuantizeMonotonic | src/wall_todo/convert.py:28-36 | a brighter pixel never gets a darker level |
| Convert.QuantizeIdempotent | src/wall_todo/convert.py:28-36 | quantising a level gives the same level |
| Convert.QuantizeFixesExactlyLevels | src/wall_todo/convert.py:28-36 | a pixel is left unchanged exactly when it is one of the four levels |
| Convert.QuantizeThresholds | src/wall_todo/convert.py:29-36 | the bin edges are 63/64, 127/128 and 191/192 |
| Convert.QuantizeImage | src/wall_todo/convert.py:38-40 | same size as the input; the pixel at each position is the quantisation of the input pixel at that position, so every pixel is a level |
| Convert.ConvertToGrayscale4Level | src/wall_todo/convert.py:38-40 | in place, every pixel becomes the quantisation of its old value, at the same position, and the size is kept |
| Convert.FitSize | src/wall_todo/convert.py:59-65 | the new size is within 480 x 800, and the limiting side equals its target |
| Convert.FitSizeTruncates | src/wall_todo/convert.py:64-65 | the other side is the floor of its exact scaled length |
| Convert.FitSizePositiveIff | src/wall_todo/convert.py:60-68 | both new sides are positive exactly when the picture is at most 480 times wider than tall and at most 800 times taller than wide |
| Convert.Offsets | src/wall_todo/convert.py:72-73 | the picture fits inside the canvas, and each far margin equals the near one or exceeds it by one pixel |
| Convert.FitSizeOfTarget | src/wall_todo/convert.py:59-73 | a 480 x 800 picture is neither scaled nor moved |
| Convert.FitSizeOfLandscape | src/wall_todo/convert.py:59-73 | 1000 x 500 becomes 480 x 240 with its top-left corner at (0, 280) |
| Convert.Resize | src/wall_todo/convert.py:68 | the resized picture has exactly the requested size |
| Convert.WhiteCanvas | src/wall_todo/convert.py:71 | the canvas is 480 x 800 and every one of its pixels is 255 |
| Convert.Paste | src/wall_todo/convert.py:77 | pasting keeps the canvas size |
| Convert.PasteInto | src/wall_todo/convert.py:77 | in place, the canvas pixels covered by the picture take its pixels, clipped at the canvas edge, and every other canvas pixel keeps its old value |
| Convert.Snapshot | src/wall_todo/convert.py:79 | the saved image has the array's size and pixels |
| Convert.SnapshotIsComposite | src/wall_todo/convert.py:71-79 | an array that is white outside the rectangle and holds the levels of the resized picture inside it is the composite |
| Convert.ComposeCanvas | src/wall_todo/convert.py:71-79 | new white canvas, then in-place quantisation, then paste at the offsets: the saved canvas is the composite of the quantised picture on white |
| Convert.ConvertImage | src/wall_todo/convert.py:57-79 | the imperative conversion gives exactly the normalised picture, and None where the source raises (a zero side, a resized side of zero) |
| Convert.NormalizedCanvas | src/wall_todo/convert.py:57-79 | the output is 480 x 800; outside the pasted rectangle each pixel is 255; inside it each pixel is the level of the corresponding resized pixel; every pixel is a level |
| Convert.Normalize | src/wall_todo/convert.py:57-79 | conversion succeeds exactly for non-empty pictures whose aspect ratio is at most 480:1 and at least 1:800; the result is then a 480 x 800 picture whose every pixel is a level |
| Convert.NormalizeIdempotent | src/wall_todo/convert.py:57-79 | assuming a resize to the same size returns a copy, converting a converted picture again gives the same canvas |
| Convert.IngestOneOutcome | src/wall_todo/convert.py:99-107 | an entry is skipped exactly when its suffix is not an upload suffix; it is converted exactly when it also exists, opens as a picture, and that picture satisfies the success condition above; a conversion is 480 x 800 |
| Convert.IngestStepShape | src/wall_todo/convert.py:99-105 | one turn of the loop removes no upload but its own entry, changes no surviving upload, removes no image, and adds to the count exactly the number of uploads it removed |
| Convert.StepDeletes | src/wall_todo/convert.py:99-105 | one entry of the loop deletes its source exactly when it converts, and counts it |
| Convert.StepWrites | src/wall_todo/convert.py:99-105 | one entry of the loop writes its conversion under its output name exactly when it converts, and leaves the other images alone |
| Convert.IngestAll | src/wall_todo/convert.py:97-109 | the loop never adds an upload and never removes an image |
| Convert.IngestDeletesExactlyConversions | src/wall_todo/convert.py:98-109 | after the loop, the uploads directory has lost exactly the converted sources, every other entry keeps its contents, and the count is the number of conversions |
| Convert.IngestWritesConversions | src/wall_todo/convert.py:99-105 | after the loop, the images directory holds the old images plus one output name per converted source; each output holds a conversion of a source with that stem; every other image is unchanged |
| Convert.IngestCountsDeletions | src/wall_todo/convert.py:97-109 | the returned count equals the number of entries removed from the uploads directory |
| Convert.IngestKeepsFailures | src/wall_todo/convert.py:99-107 | an entry without an image suffix, or whose conversion fails, stays in place with its contents |
| Convert.IngestLeavesOnlyFailures | src/wall_todo/convert.py:98-107 | when every entry is listed, an image entry is left behind exactly when its conversion fails |
| Convert.Folders.IngestEntry | src/wall_todo/convert.py:99-107 | one turn of the loop changes both directories as one ingest step, and reports whether it converted; the running count grows by one exactly then |
| Convert.Folders.IngestListing | src/wall_todo/convert.py:97-109 | the loop over the listing leaves both directories and the count as the ingest of the listing prescribes |
| Convert.Folders.ProcessUploads | src/wall_todo/convert.py:90-109 | a missing uploads directory is created empty, with no other change, and 0 is returned; otherwise the images directory is created if missing, and both directories and the count end as the ingest of the listing prescribes |
| PathNames.RFind | src/wall_todo/convert.py:99-100 | the index is of the last occurrence of the character, or -1 when it does not occur |
| PathNames.StemSuffixSplit | src/wall_todo/convert.py:99-100 | `Suffix` and `Stem` concatenate to the name; a suffix starts with its only dot and has at least one more character; a name with a suffix has a non-empty stem; a name without one is its own stem |
| PathNames.UploadStemNonEmpty | src/wall_todo/convert.py:99-100 | a name that `HasUploadSuffix` accepts has a suffix and a non-empty stem |
| PathNames.FallbackSuffixIsUploadSuffix | src/wall_todo/fallback.py:29 | every name `HasFallbackSuffix` accepts is also accepted by `HasUploadSuffix` |
| PathNames.OutputNameParts | src/wall_todo/convert.py:100 | `OutputName` of a non-empty name has suffix `.png` and keeps the name's stem |
| PathNames.AsciiLower | src/wall_todo/convert.py:99 | the length is kept, and exactly the characters A-Z are mapped to a-z |
| PathNames.OutputNameIsFallbackCandidate | src/wall_todo/convert.py:99-100 | every converted upload is stored under a `.png` name that the fallback selector offers, with the upload's stem |
| StringOrder.PrefixLe | src/wall_todo/fallback.py:28-30 | `Le` puts a prefix before every name it is a prefix of |
| StringOrder.FirstDifferenceDecides | src/wall_todo/fallback.py:28-30 | otherwise `Le` is decided by the code points at the first position where the names differ |
| StringOrder.LeReflexive | src/wall_todo/fallback.py:28-30 | the name order is reflexive |
| StringOrder.LeAntisymmetric | src/wall_todo/fallback.py:28-30 | the name order is antisymmetric |
| StringOrder.LeTransitive | src/wall_todo/fallback.py:28-30 | the name order is transitive |
| StringOrder.LeTotal | src/wall_todo/fallback.py:28-30 | any two names are comparable |
| StringOrder.Insert | src/wall_todo/fallback.py:28-30 | insertion adds exactly one copy of the name |
| StringOrder.Sort | src/wall_todo/fallback.py:28-30 | the result is sorted, and it is a permutation of the input |
| StringOrder.SortedUnique | src/wall_todo/fallback.py:28-30 | two sorted sequences with the same names are equal |
| StringOrder.SortIgnoresOrder | src/wall_todo/fallback.py:28-30 | sorting depends only on the multiset of names |
| Fallback.IsoFormat | src/wall_todo/fallback.py:36 | the ISO date has 10 characters, digits with dashes at positions 4 and 7; the first four digits spell the year, the next two the month, the last two the day |
| Fallback.IsoFormatInjective | src/wall_todo/fallback.py:36 | different dates give different ISO strings |
| Fallback.Candidates | src/wall_todo/fallback.py:29 | each name occurs in the candidates as often as in the listing if it has a `.png`, `.jpg` or `.jpeg` suffix (compared case-insensitively), and otherwise not at all |
| Fallback.CandidatesIgnoreOrder | src/wall_todo/fallback.py:29 | listings with the same entries give candidates with the same entries |
| Fallback.GetFallbackImage | src/wall_todo/fallback.py:10-40 | a missing directory gives None; with a directory, None exactly when no entry has a fallback suffix; otherwise the result is an entry of the directory with a fallback suffix |
| Fallback.FallbackIgnoresOrder | src/wall_todo/fallback.py:28-40 | the order in which the directory lists its entries does not change the pick |
| Fallback.FallbackDependsOnMemberSet | src/wall_todo/fallback.py:28-40 | for listings without repetitions, the pick depends only on the set of entries |
| Fallback.FallbackRank | src/wall_todo/fallback.py:28-40 | the pick is the candidate that has exactly `hash mod count` other candidates before it in name order |
| Fallback.SameDateSameImage | src/wall_todo/fallback.py:35-40 | equal ISO strings mean the same date, and the same date and directory give the same pick |
| Epaper.ShouldFullRefresh | src/wall_todo/epaper.py:13-20 | full refresh exactly on minutes 0, 5, 10, …, 55 |
| Epaper.FullRefreshEveryFiveMinutes | src/wall_todo/epaper.py:13-20 | any five consecutive minutes, wrapping at the hour, contain exactly one full-refresh minute |
| Epaper.Rotate90 | src/wall_todo/epaper.py:70-71 | width and height swap, and each pixel moves a quarter turn counter-clockwise |
| Epaper.RotateFourTimes | src/wall_todo/epaper.py:70-71 | four rotations give back the picture, so the rotation loses no pixel |
| Epaper.PortraitFitsPanel | src/wall_todo/epaper.py:69-71 | a 480 x 800 picture becomes an 800 x 480 frame |
| Epaper.DisplayPlan | src/wall_todo/epaper.py:62-75 | the plan starts with init; it holds Clear exactly on a full refresh; it holds sleep exactly when the file opens as a picture, and then ends with the rotated frame followed by sleep |
| Epaper.Completed | src/wall_todo/epaper.py:57-86 | the completed commands are a prefix of the plan; none of them raises; the next one, if any, raises |
| Epaper.CompletedIffNoFault | src/wall_todo/epaper.py:57-86 | the whole plan completes exactly when none of its commands raises |
| Epaper.Epd.Send | src/wall_todo/epaper.py:62-75 | a command raises exactly when its kind is faulty; it is logged only when it completes |
| Epaper.DisplayImage | src/wall_todo/epaper.py:32-86 | a missing image gives False with no commands; no Pi gives True with no commands; a missing driver gives False with no commands; otherwise the trace is what completes of init, then Clear if the refresh is full (forced, or minute % 5 == 0), then the rotated frame and sleep when the file opens; the result is True exactly when that whole sequence completes |
| Epaper.DisplaySleepsOnlyOnSuccess | src/wall_todo/epaper.py:61-86 | sleep completes exactly on a fault-free pass, which ends with the rotated frame and then sleep; after a fault no sleep completes |
| Epaper.ClearDisplay | src/wall_todo/epaper.py:89-116 | no Pi gives True with no commands; a missing driver gives False with no commands; otherwise the trace is what completes of init, Clear, sleep, and the result is True exactly when all three complete |
| Epaper.ClearSleepsOnlyOnSuccess | src/wall_todo/epaper.py:100-116 | the clear sequence reaches sleep exactly when it completes, which is exactly when none of init, Clear and sleep is faulty |

## Left out

- Floating-point geometry: the scale is computed here in exact integer arithmetic. In Python the scaled sides are `int` of a float product, so either side can come out one pixel short: the limiting side (`int(w * (480 / w))`) as well as the other one. At the boundary this turns success into failure: for a 23520 x 49 picture (exactly 480:1) the float height is just below 1, so it truncates to 0 and the resize raises, while the model gives 480 x 1.
- Convert.Normalize: its success condition holds in exact arithmetic only; at the 480:1 and 1:800 boundaries floating point can make the source fail where the model succeeds. The same holds for Convert.FitSizePositiveIff.
- Convert.Resize: only the size of the resized picture is stated. Its pixels come from the `Sampler` parameter, which stands for Lanczos resampling followed by `convert("L")`. Image modes, palettes and alpha are not modelled; a picture is its 8-bit luminance raster.
- Convert.NormalizeIdempotent: holds under the stated assumption that a resize to the same size returns a copy; Lanczos on a real picture is not modelled.
- File-system effects: directories are maps from names to contents. A file that does not open as an image is `OtherFile`. `save` and `unlink` are taken to succeed. In the source, a failing `unlink` after a successful save leaves the output written, the source in place and the count unchanged; the model does not cover that case.
- Convert.IngestWritesConversions: it states only that each output holds the conversion of some converted source with that stem. When two uploads share a stem (`a.jpg`, `a.png`), the source converted last in listing order overwrites the output; `IngestAll` computes exactly that, but no lemma states which source wins. The count counts both.
- Directory iteration: the order of `iterdir` is the `listing` parameter, fixed before the loop starts. Deleting entries while iterating is not modelled beyond that.
- `mkdir` with `parents=True` and `exists()` on a path that is not a directory are not modelled.
- PathNames.AsciiLower: lower-cases ASCII letters only. For the suffix tests this matches `str.lower()`: no other character lower-cases to a string that could equal one of the listed suffixes.
- Fallback.GetFallbackImage: MD5 of the ISO date, read as a hexadecimal integer, is the `hash` parameter. `date.today()` is the `today` parameter.
- Sorting `Path` objects of one directory compares their final components; the model sorts the names directly.
- Epaper.DisplayImage: the clock minute, the Raspberry Pi probe (`/proc/device-tree/model`) and the import of the driver library are parameters. A failure of the `EPD()` constructor is not modelled: only `init`, `Clear`, `display` and `sleep` can raise.
- `getbuffer`: packing a frame into the panel's byte format is not modelled. The `Show` command carries the rotated image.
- The rendering collaborator (`renderer.py`), the task client (`todoist.py`) and the entry point (`main.py`) are not part of this model.
- Logging and printed messages are not modelled.
