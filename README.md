# Target-size image search (photo_resize.py)

A Dafny model of the part of ImageShrinker that looks for an encoding of an image
within a byte budget. It models `has_alpha`, `try_lossless_then_lossy` and
`shrink_to_target`. The imaging library stays outside the model: encoding, resampling
and EXIF normalisation are function values passed in.

- `imaging.dfy` (module `Imaging`): the image metadata the search reads (size, mode,
  info keys, format), the encode requests, the `Encoder` and `Resizer` function types,
  `HasAlpha`, and ASCII `Upper`/`Lower` for the format name.
- `quality_descent.dfy` (module `QualityDescent`): the quality ladder and the choice
  of container by alpha. `Attempts` lists the encoder's answer at every rung. Three
  reference functions describe a descent: `FirstFit` (the first rung within budget),
  `LastSuccess` (the `b` reassigned on each successful encode) and `Smallest` (the
  running minimum `best`). Two imperative descents, `DescendQuality` and
  `DescendTrackingSmallest`, are proved against them.
- `format_dispatch.dfy` (module `FormatDispatch`): the original-format attempt and
  `SearchOnce`, a reference definition of what `try_lossless_then_lossy` returns.
  The imperative `TryLosslessThenLossy` is proved equal to it.
- `resize_loop.dfy` (module `ResizeLoop`): the factor clamps, the next size and `Run`,
  a reference definition of the `while True` loop that also reports the image the
  loop stopped at. `Shrunk` covers the whole of `shrink_to_target`, and the imperative
  `ShrinkToTarget` is proved equal to it.
- `wrappers.dfy` (module `Wrappers`): `Option`.

An encode that raises is `None`. The unbound `b` at line 129 is also a `None` outcome:
it arises when the original-format attempt and every ladder step fail. Python's
truthiness of `bytes` (`best if best`, `if last and ...`) is modelled as non-emptiness.
`int()` is truncation toward zero (`Trunc`).

Behaviour of the code worth knowing:
- An exhausted first ladder returns the *last* successful encode, not the smallest
  (`LastSuccessIsLast`, `LastIsNotSmallest`). If no ladder step succeeded, it returns
  the original-format bytes. Those bytes are still labelled `.jpg` or `.webp`, so PNG
  bytes can come back as `.jpg` (`ExhaustedReturnsLastAttempt`).
- The loop returns the best candidate of the *latest* resolution. A best-effort result
  can therefore be larger than the first stage's result (`BestEffortCanGrow`).
- New sizes use truncation, not rounding. The flat 0.9 fallback is not raised to the
  floor, but it can never be taken (`NextSize`).
- A search where no encode ever succeeds raises instead of returning a result.
- The original-format attempt ignores alpha. An image without a format name (one made
  in memory) is tried as JPEG at quality 95, which drops alpha, so an RGBA image can
  come back as `.jpg` when that attempt fits (`AlphaImageCanComeBackAsJpeg`).

## Model

| member | source | states |
|---|---|---|
| `Imaging.HasAlpha` | photo_resize.py:33-34 | an image has alpha when its mode is RGBA or LA, or when it is a palette (P) image whose info has a "transparency" entry |
| `Imaging.AlphaByMode` | photo_resize.py:33-34 | RGBA and LA images have alpha; a P image has alpha exactly when its info has "transparency"; every other mode has none |
| `Imaging.Upper` | photo_resize.py:78 | the upper-cased name has the same length, and each ASCII lower-case letter is mapped to its capital |
| `Imaging.Lower` | photo_resize.py:100 | the lower-cased name has the same length, and each ASCII capital is mapped to its lower-case letter |
| `Imaging.LowerOfUpper` | photo_resize.py:100 | lower-casing the upper-cased format name gives the lower-cased original name |
| `QualityDescent.ContainerFor` | photo_resize.py:107-110 | the lossy container is WEBP for an image with alpha and JPEG for any other; lines 164-165 choose the same way after each resize |
| `QualityDescent.RangeDown` | photo_resize.py:111 | `range(start, stop, -step)` yields start - i*step at index i; every element is above stop, and the next one would not be |
| `QualityDescent.LadderIsRange` | photo_resize.py:111 | `range(95, 59, -5)` is exactly 95, 90, 85, 80, 75, 70, 65, 60; lines 120, 167 and 180 use the same range |
| `QualityDescent.FirstFit` | photo_resize.py:111-126 | names an attempt that succeeded within budget, with no such attempt before it; None exactly when no attempt fits |
| `QualityDescent.LastSuccessIsLast` | photo_resize.py:111-129 | `b` after the ladder is the prior value when every step failed, and otherwise a successful step with only failures after it |
| `QualityDescent.SmallestIsMinimum` | photo_resize.py:166-171 | `best` is None exactly when every encode failed; otherwise it is a success no longer than any other and the earliest among equals |
| `QualityDescent.Keep` | photo_resize.py:170-171 | one step of the running minimum: a successful candidate replaces `best` when there is none yet or when it is strictly shorter; a failed encode keeps `best` |
| `QualityDescent.LastIsNotSmallest` | photo_resize.py:129 | the last success and the smallest success can differ |
| `QualityDescent.DescendQuality` | photo_resize.py:111-126 | returns the first rung within budget; when none fits, it returns the last success, or the prior `b` when no step succeeded |
| `QualityDescent.DescendTrackingSmallest` | photo_resize.py:166-188 | returns the first rung within budget; when none fits, it returns the shortest successful candidate, or None |
| `QualityDescent.DescentBound` | photo_resize.py:172-176 | a candidate returned from inside the ladder is within budget; a leftover best after the ladder is over budget |
| `FormatDispatch.FormatName` | photo_resize.py:138 | `img.format or "JPEG"`: a missing or empty format name reads as JPEG, any other name is kept |
| `FormatDispatch.OriginalExtensionNamesFormat` | photo_resize.py:80-100 | JPEG/JPG use JPEG at quality 95 and `.jpg`, PNG uses quantised PNG and `.png`, WEBP uses lossless WEBP at quality 100 and `.webp`; any other format is saved by name and labelled `.` plus its lower-cased name |
| `FormatDispatch.OriginalLabelNamesRequest` | photo_resize.py:80-100 | the original-format attempt is labelled with the extension of the container its request actually encodes into |
| `FormatDispatch.AlphaImageCanComeBackAsJpeg` | photo_resize.py:78-84 | an RGBA image with no format name is tried as JPEG at quality 95, and when that attempt fits it is returned as `.jpg` |
| `FormatDispatch.SearchOnce` | photo_resize.py:70-129 | the original-format attempt when it fits; otherwise the first fitting rung of the lossy ladder, labelled by alpha; otherwise the last successful encode (ladder or original) under the lossy label; None when nothing was encoded |
| `FormatDispatch.TryLosslessThenLossy` | photo_resize.py:70-129 | the imperative search returns exactly what `SearchOnce` describes for the encoder's answers |
| `FormatDispatch.OriginalFitReturnsAtOnce` | photo_resize.py:80-100 | an original-format attempt within budget is the result, with that format's extension, and no ladder step decides it |
| `FormatDispatch.LadderReturnsFirstFit` | photo_resize.py:107-126 | when the original attempt misses and some rung fits, the result is within budget, comes from the first fitting rung and is labelled by alpha |
| `FormatDispatch.ExhaustedReturnsLastAttempt` | photo_resize.py:107-129 | when nothing fits, the result is over budget, labelled by alpha, and is the last ladder success or else the original bytes; it is missing exactly when every encode failed |
| `FormatDispatch.ContainerFollowsAlpha` | photo_resize.py:107-129 | once the original attempt misses, any result is labelled `.webp` exactly when the image has alpha, and `.jpg` otherwise |
| `ResizeLoop.Trunc` | photo_resize.py:158 | `int()` on a float truncates toward zero: the floor for non-negative values, the ceiling for negative ones |
| `ResizeLoop.ClampFactor` | photo_resize.py:152-156 | the clamped factor lies in (0.5, 0.95]: 0.6 when the raw factor is at most 0.5, the raw factor up to 0.95, and 0.95 above that |
| `ResizeLoop.ScaledSideShrinks` | photo_resize.py:158 | a positive side scaled by at most 0.95 and truncated is strictly shorter |
| `ResizeLoop.NextSize` | photo_resize.py:158-161 | for sides above their floors and a capped factor, both new sides are strictly smaller and at or above the floor; so the forced 0.9 branch is unreachable |
| `ResizeLoop.ForcedStepCanCrossFloor` | photo_resize.py:161 | the forced 0.9 step, were it taken, would take a 641-pixel side to 576, below the 640 floor |
| `ResizeLoop.Run` | photo_resize.py:145-193 | the `while True` loop from one state: stop at a side at or below its floor with `last`; otherwise resize by the clamped factor, return the first fitting rung, else replace `last` by the resolution's best and stop if that fits, else go on from the smaller image |
| `ResizeLoop.NewLast` | photo_resize.py:176 | `best if best else last`: a missing or empty best keeps `last`, any other best replaces it; line 189 is the same |
| `ResizeLoop.Shrunk` | photo_resize.py:137-193 | normalise the image, run the first search on `img.format or "JPEG"`; no result when it has none, the first result when it fits, and otherwise the result where `Run` stops |
| `ResizeLoop.ShrinkToTarget` | photo_resize.py:131-193 | the imperative loop, with `best` tracked inside each ladder, returns exactly what `Shrunk` describes; the loop terminates on the width |
| `ResizeLoop.LateAcceptanceUnreachable` | photo_resize.py:176-193 | after a resolution where no rung fits, `last` stays over budget, so the check at line 192 never returns |
| `ResizeLoop.RunStopsAtFitOrFloor` | photo_resize.py:145-193 | the loop stops with a result within budget or at an image with a side at or below its floor; that image is the start image or strictly smaller in both sides |
| `ResizeLoop.RunContainerFollowsAlpha` | photo_resize.py:164-190 | the returned extension is the one chosen by alpha for the image the loop stopped at |
| `ResizeLoop.RunKeepsAlpha` | photo_resize.py:163-165 | with a resampler that keeps alpha, the image the loop stops at has alpha exactly when the start image has it |
| `ResizeLoop.ShrinkOutcome` | photo_resize.py:137-193 | no result exactly when the first search has none; the first result when it fits; otherwise the loop's result, which is within budget or taken at the floor, and labelled by that image's alpha |
| `ResizeLoop.AlphaDecidesContainer` | photo_resize.py:107-190 | with a resampler that keeps alpha, a missed original attempt leads to `.webp` for an image with alpha and `.jpg` for one without |
| `ResizeLoop.GrowFirstStage` | photo_resize.py:107-129 | a witness: when every encode of a 700-pixel image is 10 bytes and the budget is 5, the first search returns the last 10-byte JPEG encode |
| `ResizeLoop.GrowLoopStage` | photo_resize.py:145-193 | a witness: from that 10-byte result the loop steps to the 640 floor, where every encode is 20 bytes, and stops with 20 bytes |
| `ResizeLoop.BestEffortCanGrow` | photo_resize.py:137-193 | a witness through the whole of `shrink_to_target`: the first search returns 10 bytes over budget, and the final result is 20 bytes, larger than the first stage's, because `last` is replaced by the latest resolution's best |

## Left out

- The Tkinter `App` class, its dialogs, list and log (photo_resize.py:208-346): user interface.
- The worker thread, `stop_flag` and batch loop (photo_resize.py:325-342): concurrency and cancellation.
- `process_one` (photo_resize.py:195-206): file writes, MB-to-bytes conversion in floating point, and turning exceptions into messages.
- `human`, `list_images_in_folder` and `main`: display formatting, filesystem traversal and startup.
- `save_jpeg_to_bytes`, `save_png_to_bytes` (with its quantisation), `save_webp_to_bytes` and the plain `img.save`: foreign codec calls. They are one `Encoder` function value over a `Request`, and an exception is `None`. Options the calls never vary, such as progressive, optimise and the subsampling setting, are not represented.
- `exif_safe` and `Image.resize(..., LANCZOS)`: foreign calls. They are the parameters `normalize` and `resize`; `resize` is only required to return the requested size (`ResizesExactly`). Its mode and alpha are left free, except in the lemmas that assume `KeepsAlpha`. A resampler that raises is not modelled.
- `math.sqrt` and the float arithmetic of line 152: the raw factor is the parameter `rawFactor`, applied to the budget and `max(1, len(last))`. The clamps and the 0.9 fallback are computed exactly in real arithmetic, so float rounding of `w * factor` is not modelled.
- `Imaging.Upper` and `Imaging.Lower`: only ASCII letters are mapped, not Python's full Unicode case mapping.
- `ResizeLoop.ShrinkToTarget`: requires a non-negative budget, and so do `Run`, `Shrunk` and the lemmas about them. With a negative budget the source returns normally from the first search or from the floor check of line 149, but an image above the floor reaches line 152, where `sqrt` raises a domain error; that error is not modelled as an outcome. The only caller always passes a non-negative budget.
- `ResizeLoop.ShrinkToTarget`: the floor sides are natural numbers. A negative `min_size`, which could let a zero-sized image loop forever, is not modelled.
