# ELCH loop detection and pose update, modelled in Dafny

The program corrects drift in a sequence of registered 3D scans. It walks the
scans in order and, for each scan `end`, asks a loop detector whether the path
has come back close to an earlier scan. When the detector fires, the program
asks the ELCH (Explicit Loop Closing Heuristic) optimiser to correct the loop
between `first` and `last`. At the end, it estimates for every scan the rigid
delta that the corrections moved it by, and writes the scan's new pose
`delta * original`.

The model has three modules:

- `LoopDetection` (loop_detection.dfy) models the detector of `src/elch.cpp`.
  The C++ function-local `static double min_dist` is the field `minDist` of
  class `LoopDetector`. The caller's `first`/`last`, passed by reference, are
  in-parameters and out-parameters of `LoopDetector.Detect`. `Detect` is a
  `while` loop over `i = end-1 .. 1` and is proved equal to the pure
  specification `Detection`. `Detection` is built from one loop step (`Step`)
  and the walk so far (`WalkTo`). A second description does not follow the
  loop's steps (`Qualifies`, `ImprovesFrom`, `BestCandidate`), and lemmas prove
  the walk matches it. Most properties of one call are proved from it.
- `Poses` (poses.dfy) models 4x4 matrices over `real`, their product, and how
  a matrix acts on a point.
- `Elch` (elch.dfy) models `main`: the exit codes, the detection loop that logs
  one correction `(first, last)` each time the detector fires, and the final
  loop that writes `delta * pose` for every scan. `DriveTo` is the pure
  specification of the detection loop, starting with a fresh detector and
  `first = last = 0`.

The distance `d[i]` stands for the Euclidean distance between the origins of
scans `i` and `end`. It is an input and is required to be non-negative, as a
norm is. A call that records a candidate but does not fire (its cursor ended
at 2 and `end` is not the last scan) leaves `minDist` at the recorded
distance. When that distance is positive, a later call whose own walk finds no
return fires and emits that older candidate, because firing needs only a
positive `minDist` and a cursor below 2 (`StaleCandidateEmitted`).

The emission rule tests `min_dist > 0` (line 112). A candidate at distance
exactly 0 is never emitted and blocks the detector for the rest of the run
(`ZeroDistanceSticks`, `ZeroDistanceEndsCorrections`). The output data-set
root is the input's (lines 171-172).

## Model

| member | source | states |
|---|---|---|
| `LoopDetection.LoopDetector.Detect` | src/elch.cpp:75-118 | one call of the loop-detection function: the walk from `end-1` down to 1 and the emission rule; the new `minDist`, `first`, `last` and the answer equal `Detection` of the old slot; if it fires, `minDist` is -1 |
| `LoopDetection.LoopDetector.constructor` | src/elch.cpp:77 | the static remembered distance starts at -1 ("no candidate") |
| `LoopDetection.WalkTo` | src/elch.cpp:78-108 | the hysteresis cursor only ever holds 0, 1 or 2; a walk started from "none" (-1) or a distance keeps `minDist` at -1 or a distance |
| `LoopDetection.Detection` | src/elch.cpp:75-118 | the pure specification of one call: when it fires the remembered distance is reset to -1; when it does not, a positive remembered distance survives only if `end >= 2` and `end` is not the last scan; the bound "-1 or a distance" is kept; its full meaning is proved in `LoopDetection.DetectionMeaning` |
| `LoopDetection.WalkStateMonotone` | src/elch.cpp:94-101 | within one call the cursor never decreases as the walk goes on |
| `LoopDetection.WalkToState` | src/elch.cpp:94-101 | after the walk, the cursor is 2 iff some index was below `dist` after a larger index above `dist`; it is 1 iff some index was above `dist` and none came back; otherwise it is 0 (strict comparisons, so `d == dist` moves it neither way) |
| `LoopDetection.StepQualifies` | src/elch.cpp:94-101 | the step at index `k` reaches the recording branch exactly when `k` qualifies |
| `LoopDetection.WalkToSlot` | src/elch.cpp:99-108 | the slot after the walk is the best candidate: unchanged if no qualifying distance strictly beats the remembered one; otherwise the qualifying index of least distance, the largest such index on ties, paired with `end`, with `minDist` set to its distance |
| `LoopDetection.DetectionMeaning` | src/elch.cpp:80-117 | one call without reference to its steps: best-candidate rule; fires iff the post-walk distance is > 0 and (no index of this walk came back or `end == size-1`); firing resets `minDist` to -1 and keeps `first`/`last`; otherwise `minDist` keeps its post-walk value |
| `LoopDetection.CandidateInsideWalk` | src/elch.cpp:80-107 | `first`/`last` either keep their values or become `1 <= first < end`, `last == end` |
| `LoopDetection.RecordedOnlyAfterReturn` | src/elch.cpp:94-108 | a new candidate `(i, end)` has `d[i] < dist` and some `j` with `i < j < end` and `d[j] > dist` |
| `LoopDetection.NoReturnNothingRecorded` | src/elch.cpp:94-117 | with no candidate remembered, a walk whose distances all stay at or below `dist`, or all at or above it, records nothing and does not fire |
| `LoopDetection.FreshShortCall` | src/elch.cpp:77-80 | a fresh detector called with `end <= 1` answers false and changes nothing |
| `LoopDetection.StaleCandidateEmitted` | src/elch.cpp:112-116 | a positive remembered candidate is emitted unchanged by a call whose walk has no qualifying index |
| `LoopDetection.ZeroDistanceSticks` | src/elch.cpp:103-112 | once `minDist == 0`, a call never fires and never changes the slot |
| `LoopDetection.DetectionIgnoresEnds` | src/elch.cpp:80-90 | the answer depends only on `d[1..end-1]` and on the number of scans, never on index 0 or index `end` and beyond |
| `Elch.DriveTo` | src/elch.cpp:199-210 | the detection loop after `n` calls from a fresh detector and `first = last = 0`: at most `n` corrections, and the remembered distance is -1 or a distance; its meaning is proved in `Elch.DriveInvariant` |
| `Elch.Corrected` | src/elch.cpp:221-237 | the output has one 4x4-posed entry per input scan, in order, each keeping its id and file; the poses are stated in `Elch.CorrectedPoses` |
| `Elch.Run` | src/elch.cpp:127-241 | exit code -1 if `argc < 3`; else -2 if the `.xml` argument count is not 2 (nothing is corrected or saved in either case); else exit code 0, with the corrections asked by the detection loop and the output scans with poses `delta * original` under the input's data-set root |
| `Elch.DriveInvariant` | src/elch.cpp:199-210 | between calls `minDist` is -1 or the distance `dists[last][first]` of the remembered candidate, which has `1 <= first < last < n` and is a return of the walk of call `last` (below `dist` after a larger index above it); every requested correction is such a return with `1 <= first < last < n`; each call adds at most one correction |
| `Elch.LogGrows` | src/elch.cpp:201-210 | corrections are requested in call order: the log only grows |
| `Elch.ZeroDistanceEndsCorrections` | src/elch.cpp:201-210 | after a zero distance is recorded, no later call requests a correction or changes `first`/`last` |
| `Elch.NoReturnNoCorrection` | src/elch.cpp:201-210 | a path on which, for every call `e`, no walked index comes back below `dist` after a larger index above it requests no correction and leaves `first = last = 0` |
| `Elch.StraightPathNoCorrection` | src/elch.cpp:201-210 | a straight path moving away one unit per scan, with distance `e - i` between scans `i < e`, requests no correction for any threshold |
| `Elch.SquarePathClosesOnce` | src/elch.cpp:201-210 | six scans on a square path whose last scan returns near scan 1, with `dist` = 3.0: exactly one correction, `(1, 5)` |
| `Elch.CorrectedPoses` | src/elch.cpp:229-236 | each output entry keeps its id and file; its new pose moves a point by the original pose and then by the delta |
| `Elch.CorrectedByIdentity` | src/elch.cpp:235-236 | identity deltas leave every pose as it was loaded |
| `Poses.Mul` | src/elch.cpp:235 | the product `tr * tr2` of two 4x4 matrices is 4x4; how it acts is stated in `Poses.ApplyMul` and `Poses.MulIdentityLeft` |
| `Poses.MulIdentityLeft` | src/elch.cpp:235 | `I * m == m` |
| `Poses.ApplyMul` | src/elch.cpp:235 | `(a * b) p == a (b p)`: the left factor `tr` is applied after the right factor `tr2` |

## Left out

- Loading and saving the scan-set description and reading point clouds
  (`loadFile`, `getAllScansId`, `getPointcloudName`, `getFullPathOfPointcloud`,
  `loadPCDFile`, `saveFile`) are file I/O. The scans come in as a `ScanSet`
  value, and the written description is the `saved` result of `Elch.Run`.
- `transformPointCloud` and the pristine copies of the clouds are bulk
  floating-point work done by a library. They are not modelled.
- The ICP configuration (`-d`, `-r`, `-i`) and `elch.compute()` belong to an
  opaque library optimiser. Each requested correction is recorded as a
  `(first, last)` entry of the correction log.
- The rigid-transform estimation by SVD is a library numeric routine. Its
  per-scan result `tr` is the input `deltas`.
- Origins and their Euclidean distances (`getOrigin`, `norm`) need floating
  point and a square root. The distances come in as a table. The model does not
  tie that table to the poses.
- Command-line parsing (`parse_argument`, `parse_file_extension_argument`) is
  library code. `argc`, the number of `.xml` arguments and the loop distance
  `-l` are inputs, and the usage text is not modelled.
- Console output (the "loading file" line at src/elch.cpp:195, the "Loop
  between" line at src/elch.cpp:205 and the usage text) has no effect on the
  result and is not modelled.
- Distances, thresholds and matrices are `real`, not `double`/`float`. The
  model does not capture rounding or NaN comparisons.
- `Elch.Run` builds each output entry (id, file, new pose) in its final loop.
  The source sets the file names in its loading loop and the poses in its final
  loop. The saved result is the same.
