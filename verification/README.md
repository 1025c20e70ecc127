# play_video: a Dafny model of the frame-playback driver

`scripts/play_video.py` plays a video file, or a directory of numbered
images, in an OpenCV window. It picks the input path from the command line,
settles on a replay rate, reads frames through the generator `get_frame`,
optionally rotates each frame and draws its index on it, shows it, and stops
when the frames run out or when the key polled after a frame is `q`. With
`--info` it reports the number of frames shown and the size of the last one.

This project models that driver with OpenCV treated as opaque:

- `Decimal` (decimal.dfy): Python's `int(s)` for the ASCII subset it
  accepts (surrounding tab, line feed, vertical tab, form feed, carriage
  return and space; a sign; digits with single `_` separators; leading
  zeros), and `str(n)` for naturals.
- `FileNames` (filenames.dfy): the sort key's text,
  `x.split('/')[-1].split('.')[0]`.
- `FrameOrder` (frame_order.dfy): choosing `*.jp*` over `*.png`, keying
  every path by `int(stem)`, and Python's stable `sorted`, modelled as an
  insertion sort that is proved to be the one stable sort.
- `Frames`, `FrameSource` (frames.dfy, frame_source.dfy): frames as a size
  plus opaque pixels; `get_fps` and `get_frame` over a `Source` that is
  either the two glob results of a directory or a container's reported fps
  and the outcomes of its successive reads.
- `Config` (config.dfy): input path, effective fps, `spf`, rotation choice.
- `Overlay` (overlay.dfy): the shown image: rotation and the index label
  with its x anchor `round(0.8 * width)`.
- `Playback` (playback.dfy): the quit test on `waitKey`, the counting loop,
  and a whole session from command line to report.
- `Wrappers`, `Errors` (wrappers.dfy, errors.dfy): `Option`, `Result` and
  the exceptions the script can raise.

The filesystem is a map from existing paths to what is found there,
`cv2.imread` is a function parameter `load`, and `cv2.waitKey` after frame
`i` is a function parameter `key(i)` (a parallel sequence `keys` inside the
loop). The index label is anchored on the frame as it was before rotation,
and its position is not clamped.

## Model

| member | source | states |
|---|---|---|
| Decimal.TrimStart | scripts/play_video.py:59 | the whitespace `int()` skips before a number is exactly the maximal leading run of whitespace |
| Decimal.TrimEnd | scripts/play_video.py:59 | the whitespace `int()` skips after a number is exactly the maximal trailing run of whitespace |
| Decimal.ParseSigned | scripts/play_video.py:59 | a stripped key text is accepted only if it contains a digit |
| Decimal.ParseSignedAccepts | scripts/play_video.py:59 | a stripped text is accepted exactly when, after an optional sign, it is digits with single `_` separators between digits (`_1`, `1_`, `1__2`, `+_1`, `12a` are rejected) |
| Decimal.ParseSignedValue | scripts/play_video.py:59 | an accepted text means the number whose `str` is its digits with separators and leading zeros removed, negative only after a `-` |
| Decimal.ParseInt | scripts/play_video.py:59 | `int()` of a stem raises unless the stem holds a digit and nothing but whitespace, digits, `_` and signs, so such a file cannot be ordered |
| Decimal.Show | scripts/play_video.py:124 | `str(i)` is a non-empty string of digits with no leading zero (except "0"), one character exactly when `i < 10` |
| Decimal.ShowValue | scripts/play_video.py:124 | the digits of `str(i)` have value `i` |
| Decimal.ParseSignedShow | scripts/play_video.py:59 | the stripped texts `n`, `-n` and `0n` parse to `n`, `-n` and `n` |
| Decimal.ParseShow | scripts/play_video.py:59 | `int(str(n)) == n`: a stem written as plain decimal sorts by its number |
| Decimal.ParseNegatedShow | scripts/play_video.py:59 | `int("-" + str(n)) == -n`: negative stems sort before zero |
| Decimal.LeadingZeroIgnored | scripts/play_video.py:59 | zero-padded stems (`0012`, any number of zeros) sort by their numeric value |
| Decimal.SurroundingSpaceIgnored | scripts/play_video.py:59 | whitespace runs of any length before and after a stem, on either side or both, do not change its key |
| FileNames.AfterLast | scripts/play_video.py:59 | `split('/')[-1]` is the longest `/`-free suffix of the path |
| FileNames.BeforeFirst | scripts/play_video.py:59 | `split('.')[0]` is the longest `.`-free prefix of the name |
| FileNames.Stem | scripts/play_video.py:59 | the stem contains neither `/` nor `.` |
| FileNames.StemOfPath | scripts/play_video.py:59 | the stem of `dir/name.ext...` is `name` for any directory and any chain of extensions |
| FrameOrder.StemKey | scripts/play_video.py:59 | the key is `int(stem)`, and a path without any digit has no key |
| FrameOrder.NumberedFileKey | scripts/play_video.py:59 | a zero-padded numbered image `dir/000n.ext` is keyed `n`, whatever the directory and the extensions |
| FrameOrder.Insert | scripts/play_video.py:58-59 | inserting into a key-sorted list keeps it sorted |
| FrameOrder.InsertPermutes | scripts/play_video.py:58-59 | insertion adds exactly the one entry |
| FrameOrder.SortByKey | scripts/play_video.py:58-59 | the sorted list is ascending by key |
| FrameOrder.SortByKeyPermutes | scripts/play_video.py:58-59 | sorting neither loses nor duplicates an entry |
| FrameOrder.WithKeyInsert | scripts/play_video.py:58-59 | insertion puts the new entry before every entry of equal key |
| FrameOrder.SortByKeyIsStable | scripts/play_video.py:58-59 | the sort is stable: for every key, the entries with that key keep their input order |
| FrameOrder.WithKeyMember | scripts/play_video.py:58-59 | the entries selected for a key come from the list and carry that key |
| FrameOrder.StableSortUnique | scripts/play_video.py:58-59 | two stable sorts of one list agree, so the model's sort is exactly Python's `sorted` |
| FrameOrder.KeyAll | scripts/play_video.py:58-59 | every path gets `int(stem)` as key, or the first path (in glob order) whose stem is not an integer raises |
| FrameOrder.SelectImages | scripts/play_video.py:53-56 | `*.png` files are used only when no `*.jp*` file matched; both empty fails the assertion |
| FrameOrder.PathsOf | scripts/play_video.py:58-60 | the paths read are those of the sorted entries, position by position |
| FrameOrder.InsertKeepsPaths | scripts/play_video.py:58-59 | insertion adds exactly the one path |
| FrameOrder.SortKeepsPaths | scripts/play_video.py:58-59 | every selected path is read exactly as often as it was globbed |
| FrameOrder.SortPaths | scripts/play_video.py:58-59 | `sorted(images, key=...)` returns a list exactly when every key can be computed, raises the key's error otherwise, and returns a permutation of the paths |
| FrameOrder.SortPathsSpec | scripts/play_video.py:58-59 | `sorted(images, key=...)` keeps every path once, ascends by key, keeps glob order for equal keys, and raises instead of returning when a key fails |
| FrameOrder.OrderedPaths | scripts/play_video.py:53-59 | the read order is non-empty, fails with no images when neither glob matched, and is the stable key sort of the chosen glob result |
| Frames.Rotate | scripts/play_video.py:117-120 | a quarter turn swaps width and height and records exactly the requested turn over the input pixels |
| FrameSource.ReportedFps | scripts/play_video.py:40-48 | `get_fps` is `None` exactly for a directory and the container's reported rate otherwise |
| FrameSource.SuccessfulReads | scripts/play_video.py:65-72 | the container branch yields the successful reads in order and stops at the first failed read |
| FrameSource.GetFrames | scripts/play_video.py:51-72 | a directory yields one loaded frame per ordered path, or fails before yielding; a container never fails and yields exactly its successful reads up to the first failed one |
| Config.InputPath | scripts/play_video.py:78-83 | a non-empty `--infile` wins, else `other[0]`; with neither, start-up fails |
| Config.EffectiveFps | scripts/play_video.py:87-92 | an explicit `--fps` wins; else the reported fps; a directory gets 60 |
| Config.SecondsPerFrame | scripts/play_video.py:94 | `spf` is the reciprocal of fps and exists exactly when fps is non-zero |
| Config.ChooseTurn | scripts/play_video.py:117-120 | at most one rotation; left wins over right; none exactly when neither flag is set |
| Overlay.LabelX | scripts/play_video.py:111 | the x anchor is the unique integer nearest to 4/5 of the width, never a tie |
| Overlay.LabelXIsNearest | scripts/play_video.py:111 | every other integer lies strictly farther from 4/5 of the width than the chosen anchor, so `round` has no tie to break |
| Overlay.Compose | scripts/play_video.py:109-129 | a frame is rotated at most once, as chosen, and labelled exactly when `--frame_num` is set, at the anchor of the unrotated width |
| Overlay.CaptionNamesFrame | scripts/play_video.py:109-124 | the label text reads back as the 0-based frame index and sits within half a pixel of 0.8 of the pre-rotation width |
| Playback.LowByte | scripts/play_video.py:133 | `key & 0xFF` is the residue of the key modulo 256, for negative codes too |
| Playback.Quits | scripts/play_video.py:133 | no key (-1) never quits; a plain byte quits exactly when it is `q` |
| Playback.QuitsIgnoresHighBits | scripts/play_video.py:133 | bits above the low byte do not change the quit decision |
| Playback.FirstQuit | scripts/play_video.py:133-134 | finds the first key that quits, and no earlier key quits |
| Playback.PacingDelay | scripts/play_video.py:102-105 | the loop sleeps only when less than `spf` has elapsed, and then just long enough to reach `spf` |
| Playback.PlayLoop | scripts/play_video.py:96-134 | frames are shown in order; `n_frames` is first-quit index + 1, or the frame count with no quit; width×height is the last processed frame's pre-rotation size, or (0,0) |
| Playback.PlaybackCount | scripts/play_video.py:114-134 | any faithful playback account has exactly that `n_frames` |
| Playback.Replay | scripts/play_video.py:101-134 | running the loop with polled keys yields a faithful playback account at the session's `spf` |
| Playback.Prepare | scripts/play_video.py:78-94 | start-up fails in program order: no input, missing input, zero fps; an existing input with non-zero fps always starts, with `spf * fps == 1` |
| Playback.Session | scripts/play_video.py:75-134 | a run fails with the start-up error, else with the generator's error before any frame is shown, else plays as `PlayLoop` states |

## Left out

- OpenCV: `imread`, `VideoCapture`, `rotate`, `putText`, `imshow`, `waitKey` and `destroyAllWindows` are foreign pixel, codec and window operations. Frames keep only their size and an opaque record of the rotation; images come from a `load` parameter and key codes from a `key` parameter.
- `cv2.imread` returning `None` for an unreadable file (which makes `frame.shape` raise) is not modelled: `load` always yields a frame.
- `cv2.VideoCapture.get` returning NaN is not modelled; reported fps is an exact `real`.
- Wall-clock pacing: `time()`, `sleep` and `actual_fps` are real time and floating point. `Playback.PacingDelay` states only the sleep decision, over exact reals.
- Floating point in general: fps and `spf` are exact rationals, so the rounding of `1.0/fps` is not modelled.
- Config.SecondsPerFrame: an explicit `--fps` of magnitude 2^1024 or more makes `1.0/fps` raise OverflowError, because the integer cannot be converted to a float; the model returns its exact reciprocal instead of that error.
- Overlay.LabelX: models `round(0.8 * width)` as the exact nearest integer to 4/5 of the width; the binary rounding of `0.8 * width` in doubles could only matter for widths far beyond any image size.
- The y anchor `round(0.05 * height)` is float rounding with real half-way ties under round-half-to-even and is not modelled.
- Decimal.ParseSigned: `int()` also accepts non-ASCII digits and non-ASCII whitespace; the model accepts only their ASCII forms.
- `glob` itself: the two glob results of a directory are inputs, in whatever order the filesystem lists them.
- Laziness of the generator: the model computes the whole frame list before the loop. This changes nothing observable, because sorting and its errors happen before the first frame in the source too, and container reads after a quit produce no output.
- argparse wiring, the `--info` printing, and the `print` of the reported frame rate in `get_fps` (`scripts/play_video.py:44`): console output only.
- Decimal.ParseInt: CPython's `int()` and `str()` raise ValueError on texts of more than 4300 digits (`sys.int_info.default_max_str_digits`); the model has no such limit. A file-name stem is at most 255 bytes long, so no key the script computes comes near it.
- `scripts/playerQT.py`, `scripts/playerTk.py`, `scripts/play_mp4.py` and `scripts/direct_video2frames.py`: Qt and Tk GUI plumbing, a duplicate of the same read/count/`q` loop, and an ffmpeg command-line wrapper.
