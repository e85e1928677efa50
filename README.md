# Auto-capture change detector

This project models the auto-capture logic of a desktop screen-capture tool. `Main.autoCapture` in `src/Index.tsx` runs on every 250 ms preview poll while auto-capture is on. It reads the offscreen canvas holding the last drawn region (`prevImg`), draws the current region into it (`currImg`), and counts the pixels whose red, green or blue byte moved by more than 5. That count, as a percentage of the region, keeps a counter of consecutive quiet polls (`diffCount`). Once the counter reaches the required count, one of two things happens:

- With no saved baseline yet (`previousImage`), the frame is adopted as the baseline and nothing is saved.
- With a baseline, the frame is saved, and becomes the new baseline, only if it differs from the baseline by at least the second threshold.

Modules:

- `Wrappers` (`wrappers.dfy`): `Option`, standing for a nullable field.
- `FrameDiff` (`frame_diff.dfy`):
  - the per-channel and per-pixel tests;
  - `DiffCount`, the count of changed pixels, as a function;
  - `CountDiff`, the counting loop of the source, proved equal to `DiffCount`;
  - `Rate`, the percentage, and lemmas about both.
- `AutoCapture` (`auto_capture.dfy`):
  - the three settings;
  - the state as a value and one poll as a pure function `Poll`;
  - the class `Detector`, with the two fields the component updates in place and a `Step` method proved to match `Poll`;
  - lemmas about one poll and about runs of polls (`Run`).
- `Scenario` (`scenario.dfy`): a concrete run on a 4×1 region.

Modelling choices, as the code behaves:

- The frames are the byte arrays of canvas image data (`Uint8ClampedArray`), modelled as sequences of bytes 0..255.
- The capture call (`this.capture()`) becomes the `captured` result of `Step`.
- The percentages `diff / w / h * 100` are exact real numbers.
- The thresholds are arbitrary finite numbers (NaN and infinities are listed under "Left out"). The widgets' min/max values are not enforced.
- Only lines 167, 169, 183 and 186 write `diffCount` or `previousImage`. Nothing clears them when the region changes or auto-capture is switched off or on, and the model keeps this.
- The quiet counter does not saturate. It keeps growing while the scene stays quiet, and only `>=` at line 171 reads it.
- A baseline taken from another region can have a different length from the current frame. In JavaScript, reading past the end of a typed array gives `undefined`, and `Math.abs(undefined - x) > 5` is false. The model therefore treats a byte missing from either buffer as "not different", and needs no length precondition. `DiffCountPastShorterBuffer` states the consequence: a baseline from a smaller region caps the novelty count at the baseline's own pixel count.
- A zero-sized region makes `getImageData` throw, so `Step` requires `w > 0 && h > 0`.
- A poll's "previous" frame is whatever the offscreen canvas holds. Usually that is the frame drawn by the poll before, but not always:
  - when the region size changes, lines 141-144 reassign the canvas's width and height, which clears it, so the next `prevImg` is blank;
  - a manual capture, `capture(true)`, draws its own frame into the same canvas at line 196, so the next `prevImg` is that frame.

  `Step` and `Run` take `prev` as an input of each poll and accept any sequence of calls, so the lemmas hold in these cases too.
- In the usual case, a sequence A, A, B, A, A makes the fourth poll compare A with B and reset the counter. `Scenario.SixPolls` shows the run this code produces.

## Model

| member | source | states |
|---|---|---|
| `FrameDiff.DiffCount` | src/Index.tsx:158-163 | the number of changed pixels among the first `w*h` never exceeds `w*h` |
| `FrameDiff.CountDiff` | src/Index.tsx:158-163 | the counting loop (also lines 173-178) returns exactly `DiffCount` of its two buffers |
| `FrameDiff.DiffCountIsSetSize` | src/Index.tsx:159-163 | the count equals the size of the set of pixel indices below `w*h` whose R, G or B channel moved by more than 5 |
| `FrameDiff.DiffCountZeroIff` | src/Index.tsx:159-163 | the count is 0 if and only if no pixel changed |
| `FrameDiff.DiffCountFullIff` | src/Index.tsx:159-163 | the count is `w*h` if and only if every pixel changed |
| `FrameDiff.DiffCountSelf` | src/Index.tsx:159-163 | a buffer compared with itself has count 0 |
| `FrameDiff.DiffCountSymmetric` | src/Index.tsx:160-162 | swapping the current and the reference buffer does not change the count (the test uses `Math.abs`) |
| `FrameDiff.DiffCountPastShorterBuffer` | src/Index.tsx:175-177 | bytes past the end of a shorter reference buffer are never counted, so such a buffer caps the count at its own pixel count |
| `FrameDiff.DiffCountIgnoresAlpha` | src/Index.tsx:160-162 | buffers that agree on all R, G, B bytes give the same count whatever their alpha bytes hold |
| `FrameDiff.DiffCountWithinTolerance` | src/Index.tsx:160-162 | if no R, G, B byte moved by more than 5 (a delta of exactly 5 included), the count is 0 |
| `FrameDiff.OnePixel` | src/Index.tsx:160-162 | a one-pixel frame is counted if and only if one of its three colour deltas exceeds 5 |
| `FrameDiff.RateIsFraction` | src/Index.tsx:164 | `diff / w / h * 100` equals `diff * 100 / (w*h)` |
| `FrameDiff.RateBounds` | src/Index.tsx:164 | for a count of at most `w*h` the percentage lies in 0..100 |
| `FrameDiff.RateExtremes` | src/Index.tsx:164 | the percentage is 0 if and only if the count is 0, and it is 100 when every pixel is counted |
| `FrameDiff.RateAtMost` | src/Index.tsx:164-166 | the threshold test on the percentage is the division-free test `diff * 100 <= threshold * w * h` |
| `AutoCapture.Detector.constructor` | src/Index.tsx:33-34 | a new component starts with `diffCount` 0 and no baseline |
| `AutoCapture.Detector.Step` | src/Index.tsx:151-189 | the new fields and the capture flag are exactly those `Poll` gives for the old fields, with the two counting loops proved against `DiffCount` |
| `AutoCapture.PollRatesBounded` | src/Index.tsx:158-179 | both the poll-to-poll and the baseline percentage lie in 0..100 |
| `AutoCapture.UnchangedFrameIsQuiet` | src/Index.tsx:159-167 | an unchanged frame has rate 0, so with a non-negative threshold it is a quiet poll |
| `AutoCapture.ChangedFrameRate` | src/Index.tsx:159-164 | a frame in which every pixel changed has rate 100 |
| `AutoCapture.DefaultQuietIff` | src/Index.tsx:164-166 | with the default threshold of 0 (line 48), a poll is quiet if and only if no pixel changed |
| `AutoCapture.PollCounter` | src/Index.tsx:166-170 | the counter becomes old count + 1 when the rate is at most `diffThreshold`, and 0 otherwise |
| `AutoCapture.PollBeforeStability` | src/Index.tsx:171 | while the updated counter is below `diffThresholdCount`, nothing is saved and the baseline is unchanged |
| `AutoCapture.BusyPollNeverCaptures` | src/Index.tsx:166-171 | a non-quiet poll resets the counter, keeps the baseline and saves nothing when the required count is positive |
| `AutoCapture.PollAdoptsFirstBaseline` | src/Index.tsx:185-187 | stability without a baseline adopts the current frame as baseline and saves nothing |
| `AutoCapture.PollWithBaseline` | src/Index.tsx:172-184 | stability with a baseline saves if and only if `diffThreshold2 <= diffRate2`; the baseline becomes the frame on a save and stays otherwise |
| `AutoCapture.CaptureConditions` | src/Index.tsx:171-184 | a save implies: counter at least `diffThresholdCount`, a baseline existed, novelty at least `diffThreshold2`, and the saved frame is the new baseline |
| `AutoCapture.BaselineChanges` | src/Index.tsx:171-187 | the baseline only changes to the current frame, and only on a save or on first adoption |
| `AutoCapture.BaselinePersists` | src/Index.tsx:172-187 | once a baseline exists, no poll removes it |
| `AutoCapture.DuplicateSuppressed` | src/Index.tsx:173-181 | a frame with the same colours as the baseline is never saved when `diffThreshold2 > 0` |
| `AutoCapture.RunCountsTrailingQuietPolls` | src/Index.tsx:166-170 | after a run of polls the counter equals the number of quiet polls at its end (plus the starting count if all were quiet) |
| `AutoCapture.TrailingQuiet` | src/Index.tsx:166-170 | the number of trailing quiet polls: all of them are quiet and the one before them is not |
| `AutoCapture.CaptureFollowsQuietStreak` | src/Index.tsx:166-182 | from a state whose counter is 0 (a fresh component included), a saving poll ends a streak of trailing quiet polls at least `diffThresholdCount` long (⌈count⌉ polls for a fractional count), so it and the polls before it within that count were all quiet |
| `Scenario.ScenarioCounts` | src/Index.tsx:158-163 | concrete counts for the 4×1 frames: A against A is 0, B against A is 3 |
| `Scenario.SixPolls` | src/Index.tsx:151-189 | the polls A, A, A→B, B→A, A, A: the baseline A is adopted at poll 2 without a save, the counter resets at polls 3 and 4, and poll 6 is suppressed as a duplicate |
| `Scenario.NovelFrameSaved` | src/Index.tsx:151-189 | continuing with A→B, B, B: poll 9 is stable and 75 % new, so B is saved and becomes the baseline |

## Left out

- Canvas access (`getContext`, `getImageData`, `drawImage`, lines 153-157) is a host API. The two canvas reads are inputs to `Step`, and the early return when no 2D context exists is not modelled.
- `capture()` (lines 191-218) encodes a JPEG, reads it back and writes a timestamped file. It is I/O and is reduced to the `captured` flag. The file name format is not modelled.
- `updateCaptureSource`, `startCapture` and `updateMeta` (lines 60-125) are capture-source enumeration, media-stream setup and the polling timer. They are not modelled. `autoCapture` is reached through `updatePreview`, which the 250 ms timer calls (line 123). So do the four region inputs (lines 269, 277, 286, 294) and stopping the capture (line 81). Every such call is one `Step`, and any sequence of them is a `Run`.
- `updatePreview` (lines 127-149) is not modelled except as the caller of `autoCapture`. That covers its floating-point aspect-fit layout.
- `render()` (lines 220-339) is UI. Its min/max bounds on the inputs are widget properties, not checks, so the settings are arbitrary finite numbers. The settings widgets are disabled while auto-capture is on, which is why `Run` holds the settings fixed.
- AutoCapture.Detector.Step: computes `diff / w / h * 100` in exact real arithmetic rather than IEEE doubles, so rounding at a threshold boundary is not modelled.
- AutoCapture.Detector.Step: `diffCount` is an unbounded natural number. The loss of precision of a JavaScript number above 2^53 increments is not modelled.
- AutoCapture.Settings: the three settings are JavaScript numbers. They are modelled as finite reals, so NaN and ±Infinity are not captured. Every comparison with NaN is false. A NaN `diffThreshold` would reset the counter on every poll (line 166). A NaN `diffThresholdCount` would never reach stability (line 171). A NaN `diffThreshold2` would never save (line 181).
- Region sizes are natural numbers. Fractional widths and heights typed into the inputs are not modelled.
- `src/app.ts` (window bootstrap) and `webpack.config.js` (build configuration) are not part of this model.
