# Streamline tracking, seeding, thresholding and track-file properties of MRtrix3

This project is a Dafny model of four pieces of the MRtrix3 diffusion MRI toolkit, with proofs about that model.

- **The per-streamline tracker** (`Exec` in `tracking/exec.h`), in `termination.dfy` and `exec.dfy`.
  - The termination codes and the anatomical priors that reinterpret them, with ACT (anatomically-constrained tracking) and without it.
  - Growth of one direction of a track: a length cap, the ACT backtracking retry, and the crop at a sub-cortical grey matter exit.
  - Seed acquisition, then assembly of the two directions around the seed.
  - The ordered acceptance test, and the shared rejection and termination counters. These counters are ghost multisets.
  - Everything the tracker asks of the tracking method, the regions of interest and the seed source is an `Oracle`: a value whose fields are functions.
  - `Oracle.Sound` states the two facts the tracker relies on:
    - a continuing step is always added to the track;
    - `truncate_track` never cuts into the seed, and it either shortens the track by at least the revert step or cuts it back to the seed.
- **The deterministic seeders** (`seeding/basic.cpp`), in `seeding.dfy`.
  - `Random_per_voxel` and `Grid_per_voxel` are classes whose `GetSeed` updates the cursor in place. Each `GetSeed` is proved equal to a pure step function.
  - Lemmas about runs of `k` calls give:
    - the raster order of the walk;
    - the number of seeds drawn per voxel (`num`, or `os³`);
    - the finality of expiry.
  - The set-up of the `Rejection` seeder scans the image, rejects negative and empty images, and finds the maximum and the bounding box of the non-zero voxels. It then pads that box by one voxel and clamps it to the image.
- **The `threshold` command** (`cmd/threshold.cpp`), in `threshold.dfy`.
  - The option checks, and the conversion of a percentile to a top-N or bottom-N count.
  - Top-N and bottom-N selection with the sorted multimap. The multimap is modelled as a sequence ordered by (value, position).
  - The two output passes, and plain thresholding.
  - The image is flattened: a voxel is an index into a sequence, in scan order.
- **The track-file properties** (`tractography/properties.h`), in `properties.dfy`.
  - A class holding the string dictionary and the containers.
  - Its constructor, `clear` and `set`.
  - The pair checks `check_timestamps` and `check_counts`, which work on the two headers' dictionaries.

Behaviour of the code that the model keeps as written:

- **Length of a bidirectional track.** Without ACT, `LENGTH_EXCEED` does not exclude the track. So when the first direction ends on it, the second direction still adds one point, and a finished track can hold `max_num_points + 1` points (`Tracking.Exec.GenTrack`).
- **Seed search.** The search over an unbounded seed source aborts only when the tracker's position is invalid afterwards, and the position is kept across tracks. The model assumes that a refused seed leaves the position on that seed (see "## Left out"). Under that assumption the search can end "successfully" on a seed that failed `check_seed`/`init` (`Tracking.SearchEndsOnRefusedSeed`).
- **`truncate_exit_sgm` range.** Its range assertion (exec.h:433) admits `sgm_depth == size`, which then reads `tck[-1]`. The model raises `SgmDepthOutOfRange` whenever the segment does not leave a point before it, that is when `sgm_depth == 0` or `sgm_depth >= size`.
- **Tie-breaking in top-N.** The kept voxels are exactly the top N under the order (value, scan position). A voxel equal to the least kept one displaces it, so later voxels win ties.
- **Scan order.** The set-up loop of `Rejection` runs with axis 0 fastest. The cursor seeders walk with axis 2 fastest.

## Model

| member | source | states |
|---|---|---|
| Termination.ApplyPriors | src/dwi/tractography/tracking/exec.h:307-354 | CONTINUE is always an error, and ACT-only codes are errors without ACT. The code is rewritten only to TERM_IN_SGM, only for a numerical failure inside sub-cortical grey matter under ACT. Without ACT, exclusion happens iff ENTER_EXCLUDE. With ACT, exclusion happens iff CSF, length or exclude-region, or a numerical failure outside SGM and outside pathology. |
| Termination.PriorsSettle | src/dwi/tractography/tracking/exec.h:239-271 | Applying the priors to their own result changes nothing. So applying them both inside the backtracking loop and after it is harmless. |
| Termination.RejectionFor | src/dwi/tractography/tracking/exec.h:278-292 | ACT_POOR_TERMINATION iff calibrate failure, CSF, bad signal or high curvature. TRACK_TOO_LONG iff LENGTH_EXCEED. ENTER_EXCLUDE_REGION iff ENTER_EXCLUDE. No reason (the internal error) otherwise. |
| Termination.ExclusionIsClassified | src/dwi/tractography/tracking/exec.h:278-292 | Every termination the priors exclude has a rejection reason, so the "excluded but termination is good" error cannot come from the priors. |
| Termination.AcceptanceTest | src/dwi/tractography/tracking/exec.h:358-390 | Accepted iff all of these hold: not excluded, at least `min_num_points` long, WM requirement met under ACT, all include regions traversed. Each rejection reason holds exactly when the earlier tests pass and its own test fails. An excluded track gets no new reason. |
| Termination.FirstArgMinIsFirstMinimum | src/dwi/tractography/tracking/exec.h:434-445 | The strict-`<` scan from an infinite minimum ends on a minimal value, and every earlier value is strictly larger. |
| Tracking.MarkAlongMarksVisited | src/dwi/tractography/tracking/exec.h:376-379 | After testing every point of a track, an include bit is set iff it was set before or some point of the track lies in that region. |
| Tracking.SeedSearch | src/dwi/tractography/tracking/exec.h:189-198 | A passing search ends on a seed that passes the seed checks. A position once valid stays valid. |
| Tracking.SearchStopsOnFirstPass | src/dwi/tractography/tracking/exec.h:189-194 | The search stops on the first draw that passes the seed checks, and every earlier draw of its window was missing or refused. A failed search uses up all its attempts. It passes iff some draw in its window passes. The position is the old one or a drawn seed. |
| Tracking.SearchEndsOnRefusedSeed | src/dwi/tractography/tracking/exec.h:189-198 | When a refused seed leaves the position on it, a source that keeps drawing a refused seed ends the search on that seed: no seed passed, yet the position is valid, so the tracker does not abort. |
| Tracking.GeneratedTrack.Clear | src/dwi/tractography/tracking/exec.h:173 | The track is empty and its seed index is 0. |
| Tracking.GeneratedTrack.Reverse | src/dwi/tractography/tracking/exec.h:213 | The track is reversed and the seed index still points at the seed point. |
| Tracking.Exec.constructor | src/dwi/tractography/tracking/exec.h:113-117 | The tracker starts not excluded, with one cleared bit per include region and empty counters. |
| Tracking.Exec.TraversedAllIncludeRegions | src/dwi/tractography/tracking/exec.h:394-400 | True iff every include bit is set. |
| Tracking.Exec.SatisfyWmRequirement | src/dwi/tractography/tracking/exec.h:404-423 | Always true when `max_num_points == 2` (the seed test). Otherwise it is the white-matter test of the tracking method. |
| Tracking.Exec.Inspect | src/dwi/tractography/tracking/exec.h:146-166 | The checks of a new position come in order: structural, then mask, then exclude, then include. EXIT_MASK iff the structural check passes and the position is outside a given mask. ENTER_EXCLUDE iff the earlier checks pass and it is inside an exclude region. Past those checks the include bits are marked (without backtracking), and the step continues iff not all include regions are required and traversed. |
| Tracking.Exec.Iterate | src/dwi/tractography/tracking/exec.h:138-168 | A failing estimator step ends as TERM_IN_SGM inside SGM under ACT, else as its own code. The checks come in order: structural, then mask, then exclude, then include. A step continues only when all pass. Include bits are updated only without backtracking. |
| Tracking.SgmExitCrop | src/dwi/tractography/tracking/exec.h:432-446 | The crop is a prefix of the track, longer than `size - sgm_depth` and at most `size`. |
| Tracking.SgmExitCropIsBestExit | src/dwi/tractography/tracking/exec.h:432-446 | The kept end point has the least metric in the trailing segment, and every earlier point of the segment has a strictly larger metric. |
| Tracking.ExitScan | src/dwi/tractography/tracking/exec.h:432-446 | The scan of the trailing `sgm_depth` points with a strict `<` from an infinite minimum keeps exactly `SgmExitCrop` of the track, and it ends with the tracker on the last point scanned. |
| Tracking.Exec.TruncateExitSgm | src/dwi/tractography/tracking/exec.h:427-448 | The in-place scan leaves exactly `SgmExitCrop` of the track. |
| Tracking.Exec.Advance | src/dwi/tractography/tracking/exec.h:262-264 | One step: the position is appended iff `term_add_to_tck` allows the step's code. |
| Tracking.Exec.Grow | src/dwi/tractography/tracking/exec.h:261-267 | Points are only appended, at most one per step. The loop ends at the first non-CONTINUE step, or as LENGTH_EXCEED once the track holds `max_num_points` points. The length never passes the cap by more than one. |
| Tracking.Exec.Backtrack | src/dwi/tractography/tracking/exec.h:246-252 | The track is cut to a prefix that keeps the seed. Growth resumes from the new end iff more than the seed is left. |
| Tracking.Exec.Retreat | src/dwi/tractography/tracking/exec.h:243-253 | The priors are applied to a terminal step. A track excluded for any reason but an exclude region is cut by the next revert step; growth resumes iff more than the seed is left, and then the track is no longer excluded. Otherwise the termination leaves settled under the priors, and a track not excluded is left unchanged. ENTER_EXCLUDE comes out iff it went in, and then the track stays excluded and uncut. |
| Tracking.Exec.BacktrackStep | src/dwi/tractography/tracking/exec.h:240-257 | One pass of the backtracking loop keeps the seed prefix. Growth goes on either one point further while under `max_num_points`, or after a cut longer than the previous revert step. Otherwise the step ends with the priors settled, excluded only on ENTER_EXCLUDE, at the seed, or by its length. A step that enters an exclude region keeps the track it found, plus the point `term_add_to_tck` allows. |
| Tracking.Exec.GrowWithBacktracking | src/dwi/tractography/tracking/exec.h:237-257 | The seed prefix is kept and the loop terminates (the revert step strictly grows). The priors are settled on exit. A track stays excluded only on ENTER_EXCLUDE, after shrinking to its seed, or by its length. ENTER_EXCLUDE never backtracks: the track is the one before the final step plus the point `term_add_to_tck` allows. |
| Tracking.Exec.CropAtSgmExit | src/dwi/tractography/tracking/exec.h:273-276 | It fails iff the sub-cortical segment leaves no point before it. Otherwise the track is cropped at the best exit and the tracker moves to its new end. |
| Tracking.Exec.Book | src/dwi/tractography/tracking/exec.h:278-300 | Exactly one termination is booked, plus one rejection of the right reason when excluded. |
| Tracking.Exec.Record | src/dwi/tractography/tracking/exec.h:273-300 | It fails iff the termination is EXIT_SGM and the sub-cortical segment leaves no point before it. Otherwise the track is cropped at the best exit on EXIT_SGM and is unchanged on any other code, and the counters change as in `Book`. |
| Tracking.Exec.Conclude | src/dwi/tractography/tracking/exec.h:271-301 | The result is the raw termination after the priors. The track changes only by the SGM exit crop. The counters change as in `Book`. |
| Tracking.Exec.GrowOneWay | src/dwi/tractography/tracking/exec.h:230-267 | The growth phase keeps the seed prefix and caps the length. Without backtracking, points are only appended and the track is not excluded. An excluded result is settled under the priors, and with backtracking it is excluded only on ENTER_EXCLUDE, at the seed, or by its length. |
| Tracking.Exec.GenTrackUnidir | src/dwi/tractography/tracking/exec.h:227-303 | One direction: the seed is kept and the length is capped. The outcome is the priors of the raw termination. An excluded backtracking track shrank to its seed, hit the length limit or entered an exclude region. There is one termination and at most one rejection. |
| Tracking.Exec.SearchSeed | src/dwi/tractography/tracking/exec.h:189-194 | The bounded loop over an unbounded seed source computes exactly `SeedSearch`. |
| Tracking.Exec.AcquireSeed | src/dwi/tractography/tracking/exec.h:171-200 | The track and include bits are reset. A finite source is asked once, and a refused seed yields an excluded empty track. An unbounded source is searched and fails only without a valid position. |
| Tracking.Exec.FirstDirection | src/dwi/tractography/tracking/exec.h:207-210 | The first direction starts at the seed and never reports an undefined termination. |
| Tracking.Exec.SecondDirection | src/dwi/tractography/tracking/exec.h:212-218 | The second direction extends the reversed first direction, with the seed index on the seed. |
| Tracking.Exec.GenTrack | src/dwi/tractography/tracking/exec.h:171-222 | False iff the seed source is exhausted. A refused seed gives an excluded empty track. A unidirectional track is the first direction alone. Otherwise the track is the reversed forward half extended by the backward growth, with the seed once. The length is at most the cap plus one. |
| Tracking.Exec.MarkIncludeAlong | src/dwi/tractography/tracking/exec.h:376-379 | The include bits after testing every point equal `MarkAlong` of the track. |
| Tracking.Exec.TrackRejected | src/dwi/tractography/tracking/exec.h:358-390 | It returns the `AcceptanceTest` verdict and books exactly its rejection reason. Under backtracking, include regions are tested along the whole track at that point. |
| Tracking.Exec.Track | src/dwi/tractography/tracking/exec.h:120-127 | False iff the seed source is exhausted. Otherwise the verdict is `AcceptanceTest` of the generated track. An accepted track is handed out exactly as generated and passes every test. A rejected track is cleared, with its seed index reset. A refused seed gives an already-excluded track. |
| Seeding.SuccIsNextInRaster | src/dwi/tractography/seeding/basic.cpp:96-102 | The odometer step goes to the very next voxel in raster order (axis 2 fastest), or off the end of axis 0. |
| Seeding.NextMasked | src/dwi/tractography/seeding/basic.cpp:95-103 | The advance stops only on a later voxel of the image whose mask value is set. |
| Seeding.NextMaskedIsFirst | src/dwi/tractography/seeding/basic.cpp:95-105 | The advance skips no mask voxel, and it reaches the end only when no mask voxel is left. |
| Seeding.Advance | src/dwi/tractography/seeding/basic.cpp:95-103 | The `do … while` loop computes exactly `NextMasked`. |
| Seeding.RandomStep | src/dwi/tractography/seeding/basic.cpp:82-116 | An expired seeder draws nothing and stays expired, and only reaching the end of the mask expires it. Every seed lies in a mask voxel. The seeder stays on a voxel until `num` seeds came from it, then moves to the next mask voxel with its count reset. |
| Seeding.RandomDrawsNumPerVoxel | src/dwi/tractography/seeding/basic.cpp:90-110 | After moving to a voxel, the next `num - 1` calls draw from that same voxel, and the call after them moves to the next mask voxel. |
| Seeding.RandomExpiryIsFinal | src/dwi/tractography/seeding/basic.cpp:85-86 | Once expired, any number of further calls draw nothing and leave the state alone. |
| Seeding.RandomPerVoxel.GetSeed | src/dwi/tractography/seeding/basic.cpp:82-116 | The in-place update of `vox`, `inc` and `expired` is exactly one `RandomStep`. |
| Seeding.GridStep | src/dwi/tractography/seeding/basic.cpp:130-170 | Expiry is final and happens only at the end of the mask. Every seed is `vox + offset + pos*step` for a mask voxel and an on-grid `pos`. The voxel changes only when the grid odometer wraps, and then to the next mask voxel. |
| Seeding.RankBounds | src/dwi/tractography/seeding/basic.cpp:138-143 | The grid ranks run over `[0, os³)`, and the last rank is the all-`os-1` corner. |
| Seeding.TickAdvancesRank | src/dwi/tractography/seeding/basic.cpp:138-143 | The odometer moves to the next rank, staying on the grid. |
| Seeding.GridStaysOnVoxel | src/dwi/tractography/seeding/basic.cpp:138-166 | On a mask voxel, `k` calls draw `k` seeds from that voxel at consecutive ranks. |
| Seeding.GridDrawsOsCubedPerVoxel | src/dwi/tractography/seeding/basic.cpp:138-161 | After moving to a voxel, the seeder draws `os³ - 1` more seeds there and then wraps, so the next call moves on. |
| Seeding.GridExpiryIsFinal | src/dwi/tractography/seeding/basic.cpp:133-134 | Once expired, any number of further calls draw nothing and leave the state alone. |
| Seeding.GridPerVoxel.GetSeed | src/dwi/tractography/seeding/basic.cpp:130-170 | The in-place update of `vox`, `pos` and `expired` is exactly one `GridStep`. |
| Seeding.Widen | src/dwi/tractography/seeding/basic.cpp:190-195 | The two bound updates of one axis keep every visited non-zero voxel inside the bounds, and each bound is attained by a visited non-zero voxel. |
| Seeding.VisitVoxel | src/dwi/tractography/seeding/basic.cpp:184-196 | A negative voxel stops the scan. Otherwise the running maximum and bounding box hold for one more voxel. |
| Seeding.ScanRow | src/dwi/tractography/seeding/basic.cpp:183-197 | One row of the scan keeps the running maximum and bounding box, or stops on a negative voxel. |
| Seeding.ScanPlane | src/dwi/tractography/seeding/basic.cpp:183-197 | One plane of the scan keeps the running maximum and bounding box, or stops on a negative voxel. |
| Seeding.ScanComplete | src/dwi/tractography/seeding/basic.cpp:183-200 | After the last voxel, the running summary is about the whole image: `max` is 0 iff all voxels are zero, and otherwise it is the maximum and the bounds are the tight bounding box. |
| Seeding.ScanImage | src/dwi/tractography/seeding/basic.cpp:183-197 | The scan reports a negative voxel iff there is one. Otherwise `max` is the largest value, zero iff the image is all zero, and the bounds form the smallest box holding every non-zero voxel. |
| Seeding.Pad | src/dwi/tractography/seeding/basic.cpp:202-208 | The lower bound drops by one unless it is 0, and the extent is `min(dim - bottom, top + 2 - bottom)`. |
| Seeding.RejectionSetup | src/dwi/tractography/seeding/basic.cpp:173-223 | It fails with "negative" iff some voxel is negative, and with "empty" iff every voxel is zero. Otherwise it keeps a positive maximum that some voxel attains, and crops to the padded tight bounding box. |
| Seeding.CropKeepsEveryNonZeroVoxel | src/dwi/tractography/seeding/basic.cpp:202-217 | Every non-zero voxel lies inside the crop, and the crop is a non-empty sub-grid of the image (`bottom + extent <= dim`). |
| Threshold.Round | cmd/threshold.cpp:120-123 | Rounding to the nearest integer: within one half of its argument. |
| Threshold.CountOf | cmd/threshold.cpp:120-123 | The voxel count of a fraction in [0, 1] never exceeds the image. |
| Threshold.CheckOptions | cmd/threshold.cpp:81-115 | Conflicting options iff more than one of -abs, -percentile, -top and -bottom. Too many voxels iff, otherwise, the top or bottom count exceeds the image. |
| Threshold.ConfigureAsWritten | cmd/threshold.cpp:105-139 | It fails iff `CheckOptions` fails. -abs gives its level. -top and -bottom select when non-zero, and fall to the histogram when zero. No option gives the histogram. |
| Threshold.Configure | cmd/threshold.cpp:105-139 | As above, but -top N and -bottom N always select N voxels. A percentile below one half selects the bottom count and flips -invert; otherwise it selects the top count. Selection counts never exceed the image. |
| Threshold.ConfigureAgreesOnNonZeroCounts | cmd/threshold.cpp:117-139 | Both versions agree whenever the selected count is not zero. |
| Threshold.TopZeroFallsBackToHistogram | cmd/threshold.cpp:139 | As written, `-top 0` thresholds at the histogram instead of selecting nothing. |
| Threshold.PercentileZeroInvertsHistogram | cmd/threshold.cpp:117-139 | As written, `-percentile 0` gives the inverted histogram mask instead of the all-ones mask. |
| Threshold.Insert | cmd/threshold.cpp:158 | The multimap insertion keeps the list ordered by (value, position), adds exactly the new entry and grows it by one. |
| Threshold.FirstIsLeast | cmd/threshold.cpp:153-154 | The first entry of the multimap has the least value and comes before every other. |
| Threshold.LastIsGreatest | cmd/threshold.cpp:165-168 | The last entry of the multimap has the greatest value. |
| Threshold.DropFirst | cmd/threshold.cpp:152-155 | Erasing the least entry keeps the top-N invariant. A voxel not smaller than it goes ahead of every unkept voxel. |
| Threshold.DropLast | cmd/threshold.cpp:164-169 | Erasing the greatest entry keeps the bottom-N invariant. A voxel not larger than it is at most every unkept voxel. |
| Threshold.SelectTopN | cmd/threshold.cpp:149-160 | The list holds `min(N, voxels)` distinct scanned voxels with their values, ordered. Every unkept voxel comes before every kept one in (value, position). |
| Threshold.SelectBottomN | cmd/threshold.cpp:161-174 | The list holds `min(N, voxels)` distinct scanned voxels with their values, ordered. Every kept value is at most every unkept one. |
| Threshold.ZeroLevel | cmd/threshold.cpp:135-137 | The unmarked value always differs from the marked one, and it is 1 iff -invert. |
| Threshold.MarkSelection | cmd/threshold.cpp:177-186 | Every output voxel is `one` iff its position is in the list, and `zero` otherwise. |
| Threshold.Binarise | cmd/threshold.cpp:195-197 | Every output voxel is `zero` iff its input is strictly below the level. |
| Threshold.Execute | cmd/threshold.cpp:77-199 | It fails exactly as the set-up does, and then leaves the output alone. The set-up is `ConfigureAsWritten` or the corrected `Configure`, chosen by `asWritten`. On success the output depends on the mode. A level or the histogram minimum binarises. A selection marks exactly the selected N positions, which are the top N or the bottom N. |
| TrackProperties.Properties.constructor | src/dwi/tractography/properties.h:46-52 | A new header holds only the "timestamp" entry, and every container is empty. |
| TrackProperties.Properties.SetTimestamp | src/dwi/tractography/properties.h:50-52 | The "timestamp" entry is set to the given time, and nothing else changes. |
| TrackProperties.Properties.Clear | src/dwi/tractography/properties.h:60-68 | The dictionary and the include, exclude, mask, seeds, comments and roi containers are all empty. |
| TrackProperties.Properties.Set | src/dwi/tractography/properties.h:70-73 | The in-place update of the dictionary and the variable is exactly `Settle`. |
| TrackProperties.Settle | src/dwi/tractography/properties.h:70-73 | `name` is a key afterwards and no other entry changes. An absent or empty entry takes `str(variable)` and the variable is kept. A filled entry is kept and the variable is parsed from it. |
| TrackProperties.FirstSetWins | src/dwi/tractography/properties.h:70-73 | After a set with a non-empty value, any later set of that name leaves the dictionary alone and reads the stored value back. When parsing undoes formatting, that value is the first one. |
| TrackProperties.CheckTimestamps | src/dwi/tractography/properties.h:79-87 | Missing timestamp iff either header lacks one. Mismatch iff both have one and they differ. Passes iff both are present and equal. |
| TrackProperties.CheckTimestampsIsSymmetric | src/dwi/tractography/properties.h:79-87 | The timestamp check does not depend on the order of the pair. |
| TrackProperties.FreshHeadersMatch | src/dwi/tractography/properties.h:46-52 | Two headers stamped with the same time pass the check, and a cleared header always fails it as missing. |
| TrackProperties.CheckCountsAsWritten | src/dwi/tractography/properties.h:92-106 | A missing count throws with `abort_on_fail`, and without it reaches undefined behaviour. |
| TrackProperties.CheckCounts | src/dwi/tractography/properties.h:92-106 | It never reaches undefined behaviour and throws only with `abort_on_fail`. Missing count iff either count is absent; mismatch iff both are present and parse differently. Each is thrown with `abort_on_fail` and is the single warning otherwise; no warning iff the counts match. |
| TrackProperties.WarningsMirrorExceptions | src/dwi/tractography/properties.h:96-105 | Without `abort_on_fail`, the one warning is exactly the exception the aborting check would throw. |
| TrackProperties.CheckCountsIsSymmetric | src/dwi/tractography/properties.h:92-106 | The count check does not depend on the order of the pair. |
| TrackProperties.CheckCountsDiffersOnlyWhenUndefined | src/dwi/tractography/properties.h:96-101 | The corrected check agrees with the code as written wherever that code is defined. Where it is undefined, the corrected check warns about the missing count. |
| TrackProperties.MissingCountWithoutAbortIsUndefined | src/dwi/tractography/properties.h:96-101 | Two freshly stamped headers without counts, checked without `abort_on_fail`, reach undefined behaviour as written. |

## Left out

- Numerics: `next_rk4`, the white-matter integral of `satisfy_wm_requirement`, directions (`method.dir`) and `reverse_track`. These are floating-point geometry. The white-matter test is an oracle field.
- Step estimation and the `Method` hooks (`next`, `check_seed`, `init`, `truncate_track`, `get_metric`, the ACT tissue queries) are oracle fields. Their contracts are the assumptions in `Oracle.Sound`.
- Tracking.Exec.GenTrackUnidir: does not model the crop at the grey/white-matter interface on ENTER_CGM (exec.h:294-295). That is a call into the ACT code, which is not part of this model.
- Tracking.SeedSearch: assumes that a seed refused by `check_seed` or `init` leaves the tracking method's position on that seed. Those hooks belong to the tracking method, whose code is not part of this model. If a refused seed could invalidate the position, the test at exec.h:195 would abort instead, and `Tracking.SearchEndsOnRefusedSeed` would not apply.
- Tracking.ExitScan: the metric is a real, and the infinite starting minimum is an empty `Option`. Non-finite metrics are not modelled. When every metric of the segment is NaN or +inf, the code keeps the whole track, while the model crops right after the first point of the segment.
- Tracking.SgmExitCrop: specifies the crop for real metrics only, for the same reason as `Tracking.ExitScan`.
- Tracking.Exec.Track: does not model the downsampler applied to every track (exec.h:125). It is a resampling in floating point.
- `Exec::run`, threads, the writer, the mapper and the dynamic-seeding feedback are concurrency and I/O. The shared counters are sequential ghost multisets, and the `DEBUG_TERMINATIONS` variant is not modelled.
- `src/dwi/tractography/tracking/generated_track.h` is not part of this model. `Tracking.GeneratedTrack.Clear` and `Reverse` assume that `clear` resets the seed index to 0 and that `reverse` moves it to the mirrored index.
- `src/dwi/tractography/seeding/basic.h` is not part of this model. The cursor constructors assume:
  - `Random_per_voxel` starts at voxel (0, 0, -1) with `inc` 0;
  - `Grid_per_voxel` starts there with its sub-position at `(os, os, os)`.
- The random jitter of `Random_per_voxel` and the voxel-to-scanner transform of both cursors are left out. Seeds are voxel indices, or grid positions in voxel coordinates. The mask is boolean.
- `Sphere`, `SeedMask` and `Rejection::get_seed` are rejection loops driven by a random number generator.
- Seeding.RejectionSetup: does not compute `volume`. It does not update the header transform or build the `FloatImage` subset (basic.cpp:189, 210-221), which are floating-point and I/O. It requires every dimension to fit in `size_t`, and it does not model float values such as NaN.
- Threshold.Execute: the histogram's first minimum is a parameter (`firstMin`). Headers, the output datatype and progress messages are I/O. Voxel values are reals, so float precision and NaN inputs are not modelled.
- Threshold.Round: rounds on reals, not on single-precision floats.
- Threshold.SelectBottomN: states that the kept values are the smallest ones, but not which of several voxels of equal value are kept.
- TrackProperties.Properties.constructor: the current time is a parameter. `Timer::current_time` and its formatting are left out.
- `operator<<` and `load_ROIs` of the properties are formatting and I/O. The ROI sets and the seed list are opaque element types, since only their emptiness matters here. The `roi` multimap is a sequence of pairs.
- `str` and `to<T>` are function parameters of `TrackProperties.Properties.Set`, and `to<size_t>` is a parameter of the count checks.

## Findings

| source | as written | input that shows it | evidently intended | confidence | as-written member | corrected member |
|---|---|---|---|---|---|---|
| cmd/threshold.cpp:139 | Selection runs only when `topN` or `bottomN` is non-zero. A requested count of 0 (`-top 0`, `-bottom 0`, or a percentile whose count rounds to 0) falls through to histogram thresholding, and `-percentile 0` also flips the mask. | `-top 0` (accepted by the option's range 0..INT_MAX); `-percentile 0` | select zero voxels: an all-`zero` mask, or all-`one` when inverted | not executed | Threshold.ConfigureAsWritten, Threshold.TopZeroFallsBackToHistogram, Threshold.PercentileZeroInvertsHistogram | Threshold.Configure |
| src/dwi/tractography/properties.h:96-101 | Without `abort_on_fail`, a missing count is warned about and then dereferenced (`count_a->second` on `end()`). | two headers without a "count" entry, `abort_on_fail` false | warn and skip the comparison | not executed | TrackProperties.CheckCountsAsWritten, TrackProperties.MissingCountWithoutAbortIsUndefined | TrackProperties.CheckCounts |
