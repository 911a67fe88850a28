# ThermalTracker in Dafny

This is a model of the ThermalTracker library. The library counts people and
objects that pass a 16 x 4 thermopile sensor. The model covers the per-frame
pipeline of `ThermalTracker`, the `TrackedBlob` scoring and statistics, and
the `Blob` accumulator.

The pipeline runs once per frame:

- **Background.** The first `running_average_size` frames build a per-pixel
  background. It is the mean of each pixel, and its spread comes from
  Welford's method followed by a square root. Later frames are folded in as
  rolling weighted averages.
- **Active pixels.** After that, a pixel is active when it differs from its
  background mean by more than both the scaled deviation and the minimum
  temperature differential.
- **Blobs.** Active pixels are grouped into blobs by a breadth-first flood
  over an adjacency test. Blobs smaller than `min_blob_size` are dropped.
- **Tracking.** Blobs are matched against up to `MAX_BLOBS` tracked blobs,
  greedily by lowest weighted difference below `max_difference_threshold`.
- **Retiring tracks.** Tracks that found no blob for `max_dead_frames` frames
  are retired, and their net travel is counted as a movement direction.
- **New tracks.** Unmatched blobs start new tracks.
- **Activity check.** The frame refreshes the background unless blobs have
  been in view for fewer than `UNCHANGED_FRAME_DELAY` frames in a row.

Floats are modelled as `real`. Two C conversions the scores depend on are written out: `TruncToInt` for float-to-int, `CDiv` for integer halving. Integer counters are unbounded (see Left out). The object state is an immutable record that each operation returns. Three things are parameters:

- the input frame;
- the square-root function;
- the pixel adjacency test, whose source file is not part of this model.

Modules follow the source:

- `Config` and `Numerics` hold the constants and C arithmetic.
- `Pixels`, `Blobs` and `TrackedBlobs` model the three entities.
- `Background` builds and refreshes the background.
- `Detection` covers the active pixels, blob extraction and small-blob removal.
- `Matching` is the difference matrix and the greedy matching.
- `TrackTable` sorts the table, places new tracks and runs `track_blobs`.
- `Movements` is the movement log.
- `Tables` holds counting helpers.
- `Tracker` is `update`.
- `BlobsAsWritten` and `PlacementAsWritten` model two places where the code does something other than what it evidently intends (see Findings).

## Model

Rows marked "(corrected — see Findings)" state the corrected behaviour. The code as written differs there, and the as-written members under Findings model that difference.

| member | source | states |
|---|---|---|
| Numerics.Abs | lib/ThermalTracker/TrackedBlob.cpp:3-8 | the result is non-negative and is either the input or its negation |
| Numerics.TruncToInt | lib/ThermalTracker/TrackedBlob.cpp:134-135 | a float stored into an int is truncated toward zero: the result is the integer between zero and the input that is less than one away |
| Numerics.CDiv | lib/ThermalTracker/TrackedBlob.cpp:278-286 | C integer division truncates toward zero: quotient times divisor lies within one divisor of the dividend, on zero's side |
| Blobs.Clear | lib/ThermalTracker/Blob.h:18-21 | a cleared blob is inactive, has size 0, is unassigned and has zero coordinate totals |
| Blobs.SetAssigned | lib/ThermalTracker/Blob.h:49-52 | the blob becomes assigned; its shape and totals are untouched |
| Blobs.ClearAssigned | lib/ThermalTracker/Blob.h:60-65 | the blob becomes unassigned; its shape and totals are untouched |
| Blobs.AddPixel | lib/ThermalTracker/Blob.h:23-32 | size grows by one and the blob becomes active; the bounds grow just enough to contain the pixel (or become the pixel for the first one); width and height are the bound spans plus one; the totals grow by the pixel's coordinates |
| Blobs.BlobOf | lib/ThermalTracker/Blob.h:23-32 | a blob built from a pixel list has as many pixels as the list and is unassigned |
| Blobs.BlobOfPrefix | lib/ThermalTracker/Blob.h:23-32 | building from a list is adding its pixels one after the other |
| Blobs.BlobOfBounds | lib/ThermalTracker/Blob.h:90-97 | the bounds contain every pixel and each bound is attained by some pixel |
| Blobs.BlobOfTotals | lib/ThermalTracker/Blob.h:99-101 | the coordinate totals are the sums of the pixels' columns and rows |
| Blobs.BlobOfTemperatureSum | lib/ThermalTracker/Blob.h:23-32 | the running average temperature times the pixel count is the sum of the pixel temperatures |
| Blobs.BlobOfDerived | lib/ThermalTracker/Blob.h:82-97 | the centroid is the totals divided by the size and the aspect ratio is width over height |
| Blobs.BlobOfMeans | lib/ThermalTracker/Blob.h:82-88 | the centroid is the mean pixel position and the average temperature is the mean pixel temperature |
| Blobs.SumOfPermutation | lib/ThermalTracker/Blob.h:23-32 | a per-pixel sum does not depend on the order of the pixels |
| Blobs.SameBounds | lib/ThermalTracker/Blob.h:90-97 | two lists with the same pixels give the same bounds |
| Blobs.BlobOfOrderIndependent | lib/ThermalTracker/Blob.h:23-101 | a blob's geometry and temperature depend only on which pixels it holds, not on their order |
| TrackedBlobs.ClearTrack | lib/ThermalTracker/TrackedBlob.cpp:36-64 | a cleared track is not tracking and has all statistics reset; id, start position and update count survive as in the code |
| TrackedBlobs.ResetUpdated | lib/ThermalTracker/TrackedBlob.cpp:187-193 | only the updated flag changes, and it becomes false |
| TrackedBlobs.SetTrack | lib/ThermalTracker/TrackedBlob.cpp:66-82 | a track started from a blob takes its shape, starts its high-water marks at the blob's size and dimensions, starts at its centroid, has no prediction, travel or statistics, and is tracking exactly when the blob is active |
| TrackedBlobs.SetTrackWithId | lib/ThermalTracker/TrackedBlob.cpp:83-86 | the same, with the given id |
| TrackedBlobs.SetTrackForgetsSlot | lib/ThermalTracker/TrackedBlob.cpp:66-86 | starting a track overwrites everything the slot held before |
| TrackedBlobs.GetTravel | lib/ThermalTracker/TrackedBlob.cpp:232-247 | the travel along the requested axis, X for axis 1 and Y otherwise |
| TrackedBlobs.NotTouchingOnlyPastRightEdge | lib/ThermalTracker/TrackedBlob.cpp:353-367 | a track reported as away from the sides has its right extent past the last column, because the code compares with `<=` the wrong way round |
| TrackedBlobs.EdgePenalty | lib/ThermalTracker/TrackedBlob.cpp:278-286 | away from the sides the penalty is 1; otherwise it is at most 1 and non-negative for positions inside the halved frame width |
| TrackedBlobs.PositionDifference | lib/ThermalTracker/TrackedBlob.cpp:306-316 | the position term is non-negative under non-negative weight and edge penalty |
| TrackedBlobs.DirectionDifference | lib/ThermalTracker/TrackedBlob.cpp:332-351 | the direction term is either 0 or the full direction weight, and is 0 near a side or before the second update |
| TrackedBlobs.DifferenceTerms | lib/ThermalTracker/TrackedBlob.cpp:249-276 | the breakdown records the edge penalty of the blob's column; the position, area and aspect-ratio factors are their weighted gaps scaled by that penalty; the temperature factor is the weighted temperature gap, unscaled; the direction factor is the direction penalty, 0 or the direction weight; and the dead-frame term is the dead-frame count times its weight |
| TrackedBlobs.GetDifference | lib/ThermalTracker/TrackedBlob.cpp:249-276 | the difference is the sum of the penalty-scaled position, area and aspect-ratio gaps, the unscaled temperature gap and the direction penalty, and leaves out the dead-frame term |
| TrackedBlobs.EdgePenaltyInUnitRange | lib/ThermalTracker/TrackedBlob.cpp:278-286 | for a blob column inside the halved frame width, the recorded edge penalty lies between 0 and 1 |
| TrackedBlobs.TouchingSideSoftensArea | lib/ThermalTracker/TrackedBlob.cpp:249-286 | the edge penalty can only shrink the area factor: it lies between 0 and the unscaled weighted area gap |
| TrackedBlobs.TouchingSideSoftensAspectRatio | lib/ThermalTracker/TrackedBlob.cpp:249-286 | likewise the aspect-ratio factor lies between 0 and the unscaled weighted aspect-ratio gap |
| TrackedBlobs.TouchingSideSoftensPosition | lib/ThermalTracker/TrackedBlob.cpp:249-316 | likewise the position factor lies between 0 and the position term with a penalty of 1 |
| TrackedBlobs.DifferenceIgnoresDeadFrames | lib/ThermalTracker/TrackedBlob.cpp:249-276 | the dead-frame term is computed but not added: the difference does not depend on the dead-frame count |
| TrackedBlobs.SameGeometrySameFactors | lib/ThermalTracker/TrackedBlob.cpp:249-276 | the factors depend only on the track's geometry, prediction and update count |
| TrackedBlobs.PositionReference | lib/ThermalTracker/TrackedBlob.cpp:306-316 | the position term measures from the prediction when both its coordinates are non-negative, otherwise from the centroid |
| TrackedBlobs.AwayFromSidesUnscaled | lib/ThermalTracker/TrackedBlob.cpp:249-286 | away from the sides the factors are the raw weighted gaps, unscaled by an edge penalty |
| TrackedBlobs.DifferenceNonNegative | lib/ThermalTracker/TrackedBlob.cpp:249-276 | with non-negative weights the difference is non-negative |
| TrackedBlobs.DirectionPenaltyAsWritten | lib/ThermalTracker/TrackedBlob.cpp:332-351 | the direction penalty does not depend on the accumulated travel, because the code compares the travel array's address with zero; it is charged exactly when the track is away from the sides, has been updated more than once, and its last step, truncated to an integer, points left |
| TrackedBlobs.UpdateMovements | lib/ThermalTracker/TrackedBlob.cpp:119-136 | the prediction extrapolates the last step, the travel grows by the step, the total travel grows by the absolute step truncated to an integer, and nothing else changes |
| TrackedBlobs.UpdateGeometry | lib/ThermalTracker/TrackedBlob.cpp:138-154 | the size, width and height high-water marks become the maximum of the old mark and the blob's value; nothing else changes |
| TrackedBlobs.UpdateDifferences | lib/ThermalTracker/TrackedBlob.cpp:156-185 | the running average and the maximum difference take in the blob's difference; apart from them only the average factors change |
| TrackedBlobs.UpdateBlob | lib/ThermalTracker/TrackedBlob.cpp:96-117 | an update takes the blob's shape, counts one more update, resets the dead frames after recording their maximum, keeps id and start, keeps travel equal to the displacement from the start, and keeps the high-water marks |
| TrackedBlobs.UpdateAll | lib/ThermalTracker/TrackedBlob.cpp:96-117 | a run of updates counts one update per blob |
| TrackedBlobs.RecordedFactors | lib/ThermalTracker/TrackedBlob.cpp:156-185 | one factor breakdown is recorded per update |
| TrackedBlobs.UpdateStatistics | lib/ThermalTracker/TrackedBlob.cpp:156-185 | one update moves the average by the incremental-mean formula and raises the maximum to at least the new total |
| TrackedBlobs.StatisticsAreMeans | lib/ThermalTracker/TrackedBlob.cpp:156-185 | after a run of updates from a fresh track, the average difference and the average factors are the means of the recorded differences |
| TrackedBlobs.MaxBoundsRecorded | lib/ThermalTracker/TrackedBlob.cpp:156-185 | the maximum difference bounds every recorded difference |
| Movements.Constrain | lib/ThermalTracker/ThermalTracker.cpp:673-681 | the category is clamped into range, and in-range values are kept |
| Movements.AddMovement | lib/ThermalTracker/ThermalTracker.cpp:673-681 | the clamped category's counter grows by one, the others are kept, and the log is marked as changed |
| Movements.AddMovementCountsOne | lib/ThermalTracker/ThermalTracker.cpp:673-681 | one movement adds exactly one to the total count |
| Movements.Directions | lib/ThermalTracker/ThermalTracker.cpp:632-671 | an ended track is counted left/right when its horizontal travel exceeds the threshold (by sign), up/down likewise vertically, and as no direction exactly when neither does; both axes can count |
| Movements.AddAll | lib/ThermalTracker/ThermalTracker.cpp:632-681 | adding a list of categories keeps the log valid and marks it changed unless the list is empty |
| Movements.AddAllPerCounter | lib/ThermalTracker/ThermalTracker.cpp:632-681 | adding a list of in-range categories grows each counter by the number of times its category occurs in the list |
| Movements.DirectionsOnce | lib/ThermalTracker/ThermalTracker.cpp:632-671 | an ended track names each category at most once, and names it exactly when its travel heads that way: left or right past the threshold horizontally, up or down past it vertically, no direction when neither |
| Movements.AddAllCounts | lib/ThermalTracker/ThermalTracker.cpp:632-681 | adding a list of categories grows the total by its length |
| Movements.ProcessBlobMovements | lib/ThermalTracker/ThermalTracker.cpp:632-681 | processing a track adds one to each counter whose direction the track's travel heads (left, right, up, down, or no direction) and keeps every other counter; it always logs a movement |
| Movements.ProcessAddsOneOrTwo | lib/ThermalTracker/ThermalTracker.cpp:632-671 | one ended track adds one or two movements |
| Movements.ProcessAll | lib/ThermalTracker/ThermalTracker.cpp:483-495 | processing at least one ended track marks the log changed; with none the log is untouched |
| Movements.ProcessAllCounts | lib/ThermalTracker/ThermalTracker.cpp:483-495 | the ended tracks add between one and two movements each |
| Movements.Headed | lib/ThermalTracker/ThermalTracker.cpp:483-495 | the number of ended tracks heading one way is at most the number of ended tracks |
| Movements.ProcessAllPerCounter | lib/ThermalTracker/ThermalTracker.cpp:483-495 | processing the ended tracks grows each counter by the number of them heading its way |
| Movements.GetMovements | lib/ThermalTracker/ThermalTracker.cpp:683-696 | the counters are read unchanged and the changed flag is lowered |
| Movements.ResetMovements | lib/ThermalTracker/ThermalTracker.cpp:707-714 | all counters become zero; the changed flag is kept |
| Movements.ReadTwice | lib/ThermalTracker/ThermalTracker.cpp:683-705 | reading twice returns the same counters and leaves no new movements |
| Background.Cellwise | lib/ThermalTracker/ThermalTracker.cpp:165-177 | a per-pixel update is a full grid whose every cell is the update of the corresponding cells |
| Background.ResetBackground | lib/ThermalTracker/ThermalTracker.cpp:89-94 | the frame count becomes zero and the averages and variances are kept |
| Background.BuildBackground | lib/ThermalTracker/ThermalTracker.cpp:108-154 | one more warm-up frame is counted: the first frame becomes the averages with nothing accumulated; every later frame moves each average by Welford's mean step; and, on every frame but the finishing one, each variance field by Welford's sum-of-squares step |
| Background.BuildAll | lib/ThermalTracker/ThermalTracker.cpp:108-154 | a run of warm-up frames counts each |
| Background.WelfordStep | lib/ThermalTracker/ThermalTracker.cpp:130-139 | one Welford step keeps mean equal to the sample mean and the accumulator equal to the sum of squared deviations |
| Background.WarmUpIsWelford | lib/ThermalTracker/ThermalTracker.cpp:108-154 | before the final warm-up frame, each pixel's average is the mean of the frames so far and its variance field holds the sum of squared deviations |
| Background.WarmUpFinishes | lib/ThermalTracker/ThermalTracker.cpp:108-154 | once the warm-up ends, each pixel holds the sample mean and the square root of the sample variance of its frames |
| Background.RollingMean | lib/ThermalTracker/ThermalTracker.cpp:170 | the rolling average moves exactly a `1 / running_average_size` part of the gap toward the new temperature, and so stays between the old average and it |
| Background.RollingBetween | lib/ThermalTracker/ThermalTracker.cpp:170 | the weighted average of two values lies between them |
| Background.RollingSpread | lib/ThermalTracker/ThermalTracker.cpp:172-175 | the rolling spread stays non-negative |
| Background.AddFrameToBackground | lib/ThermalTracker/ThermalTracker.cpp:156-178 | every pixel's average moves a `1 / running_average_size` part of the way from its old value toward the frame's, and so stays between them; variances stay non-negative, and the frame count is unchanged |
| Detection.ActiveInRow | lib/ThermalTracker/ThermalTracker.cpp:318-342 | a row scan yields at most as many pixels as columns scanned |
| Detection.ActiveInRowIs | lib/ThermalTracker/ThermalTracker.cpp:318-342 | a row scan lists exactly the active cells of that row, left to right, as (column, row, temperature) |
| Detection.ActiveUpToRow | lib/ThermalTracker/ThermalTracker.cpp:318-342 | scanning the first rows yields at most one pixel per cell |
| Detection.ActiveUpToRowIs | lib/ThermalTracker/ThermalTracker.cpp:318-342 | scanning the first rows lists exactly their active cells in row-major order |
| Detection.GetActivePixels | lib/ThermalTracker/ThermalTracker.cpp:318-342 | the active pixels are exactly the cells that pass both thresholds, each made of its column, row and frame temperature, in strictly increasing row-major order |
| Detection.RowMajorDistinct | lib/ThermalTracker/ThermalTracker.cpp:318-342 | pixels in strictly increasing row-major order are pairwise distinct |
| Detection.Keep | lib/ThermalTracker/ThermalTracker.cpp:270-295 | (corrected — see Findings) the pixels kept by a pass and the pixels found by it together account for the pass's input |
| Detection.KeepFoundMembers | lib/ThermalTracker/ThermalTracker.cpp:270-295 | (corrected — see Findings) a pass keeps exactly the pixels not adjacent to the centre and finds exactly the adjacent ones |
| Detection.KeepFoundSplit | lib/ThermalTracker/ThermalTracker.cpp:270-295 | (corrected — see Findings) a pass splits its input as a multiset into kept and found pixels |
| Detection.CompactPass | lib/ThermalTracker/ThermalTracker.cpp:270-295 | (corrected — see Findings) the in-place pass leaves the kept pixels compacted at the front in order, returns the found ones, and leaves the tail alone |
| Detection.Grow | lib/ThermalTracker/ThermalTracker.cpp:262-299 | (corrected — see Findings) a grown blob contains its seed queue and the group and remaining pixels account for all pixels |
| Detection.Extract | lib/ThermalTracker/ThermalTracker.cpp:224-306 | (corrected — see Findings) extraction makes no more blobs than the table has room for, never an empty one, and leaves pixels over only when the table is full |
| Detection.GrowConserves | lib/ThermalTracker/ThermalTracker.cpp:262-299 | (corrected — see Findings) growing a blob neither loses nor duplicates a pixel |
| Detection.GrowChained | lib/ThermalTracker/ThermalTracker.cpp:262-299 | (corrected — see Findings) every pixel of a grown blob after the seed is adjacent to an earlier one |
| Detection.GrowSeparated | lib/ThermalTracker/ThermalTracker.cpp:262-299 | (corrected — see Findings) no pixel left behind is adjacent to a pixel of the grown blob |
| Detection.ExtractConserves | lib/ThermalTracker/ThermalTracker.cpp:224-306 | (corrected — see Findings) the blobs and the leftover pixels are exactly the active pixels, as a multiset |
| Detection.ExtractConnected | lib/ThermalTracker/ThermalTracker.cpp:224-306 | (corrected — see Findings) every extracted blob is connected under the adjacency |
| Detection.ExtractSeparated | lib/ThermalTracker/ThermalTracker.cpp:224-306 | (corrected — see Findings) no two extracted blobs, and no blob and a leftover pixel, hold adjacent pixels |
| Detection.ExtractDrawnFrom | lib/ThermalTracker/ThermalTracker.cpp:224-306 | (corrected — see Findings) every extracted or leftover pixel is an active pixel |
| Detection.NoPixelInTwoBlobs | lib/ThermalTracker/ThermalTracker.cpp:224-306 | (corrected — see Findings) with distinct active pixels, no pixel lands in two blobs |
| Detection.BlobTable | lib/ThermalTracker/ThermalTracker.cpp:224-316 | (corrected — see Findings) the blob table holds each group's blob in order and empty blobs after them |
| Detection.NextBlob | lib/ThermalTracker/ThermalTracker.cpp:258-303 | (corrected — see Findings) one outer step grows the blob seeded by the first remaining pixel and leaves the rest compacted |
| Detection.GrowBlob | lib/ThermalTracker/ThermalTracker.cpp:262-299 | (corrected — see Findings) the in-place queue loop computes the functional growth and the blob of the grown group |
| Detection.GrowPass | lib/ThermalTracker/ThermalTracker.cpp:268-299 | (corrected — see Findings) one queue step preserves the growth still to come and the blob built so far |
| Detection.FrameBlobsDisjoint | lib/ThermalTracker/ThermalTracker.cpp:224-342 | (corrected — see Findings) no active pixel of a frame lands in two of the frame's blobs |
| Detection.GetBlobs | lib/ThermalTracker/ThermalTracker.cpp:224-306 | (corrected — see Findings) the blob table holds one active, unassigned blob per extracted group, which conserve the active pixels, are connected, are pairwise separated, and fill the table before pixels are left over; the rest of the table is empty |
| Detection.Survivors | lib/ThermalTracker/ThermalTracker.cpp:344-370 | filtering never lengthens the table |
| Detection.Padded | lib/ThermalTracker/ThermalTracker.cpp:344-370 | padding keeps the entries and fills the table with empty blobs |
| Detection.SurvivorsLarge | lib/ThermalTracker/ThermalTracker.cpp:344-370 | every surviving blob has at least the minimum size |
| Detection.SurvivorsComplete | lib/ThermalTracker/ThermalTracker.cpp:344-370 | every blob of at least the minimum size survives |
| Detection.NoSmallBlobLeft | lib/ThermalTracker/ThermalTracker.cpp:344-370 | after removal, no active blob in the table is below the minimum size |
| Detection.RemoveSmallBlobs | lib/ThermalTracker/ThermalTracker.cpp:344-370 | the in-place removal moves the large blobs to the front in order and clears the rest of the table |
| Tables.CountIf | lib/ThermalTracker/ThermalTracker.cpp:372-402 | a count never exceeds the table length |
| Tables.Count | lib/ThermalTracker/ThermalTracker.cpp:372-402 | the counting loop returns the number of entries that satisfy the test |
| Tables.CountIfExtremes | lib/ThermalTracker/ThermalTracker.cpp:372-402 | the count is zero iff no entry satisfies the test, and full iff every entry does |
| Tables.FewDifferentBelow | lib/ThermalTracker/ThermalTracker.cpp:446-457 | distinct slot numbers below the table size number no more than the table size |
| Matching.DifferenceMatrix | lib/ThermalTracker/ThermalTracker.cpp:499-517 | a pair of an active track and an active blob scores the track's difference to the blob; every other pair scores the threshold |
| Matching.OnlyActivePairsMatchable | lib/ThermalTracker/ThermalTracker.cpp:499-517 | only a pair of an active track and an active blob can score below the threshold |
| Matching.GetLowestDifference | lib/ThermalTracker/ThermalTracker.cpp:519-545 | the result is the least entry below the threshold, the first in row-major order among equals, or the threshold at (-1, -1) when none is below |
| Matching.LowestIsUnique | lib/ThermalTracker/ThermalTracker.cpp:519-545 | the lowest pick is uniquely determined |
| Matching.RetiredMatrix | lib/ThermalTracker/ThermalTracker.cpp:446-457 | the matrix after some matches has the threshold in every matched row and column and the original entry elsewhere |
| Matching.RetiredIs | lib/ThermalTracker/ThermalTracker.cpp:446-457 | a matrix with exactly those rows and columns retired is that matrix: the matches determine it |
| Matching.RemoveDifferenceRowCol | lib/ThermalTracker/ThermalTracker.cpp:547-562 | exactly the given row and column are set to the threshold; every other entry is kept |
| Matching.ResetAll | lib/ThermalTracker/ThermalTracker.cpp:432-435 | every track loses its updated flag and nothing else |
| Matching.ClearAllAssigned | lib/ThermalTracker/ThermalTracker.cpp:432-435 | every blob loses its assigned flag and nothing else |
| Matching.MatchStep | lib/ThermalTracker/ThermalTracker.cpp:446-457 | a pick below the threshold in the retired matrix is a fresh track and a fresh blob scoring below the threshold in the original matrix |
| Matching.GreedyStep | lib/ThermalTracker/ThermalTracker.cpp:446-457 | taking the lowest pick of the retired matrix keeps every match the lowest pick at the time it was made |
| Matching.GreedyDone | lib/ThermalTracker/ThermalTracker.cpp:446-457 | when the pick is no longer below the threshold, the matches made are the greedy matching: nothing below the threshold is left |
| Matching.GreedyPrefix | lib/ThermalTracker/ThermalTracker.cpp:446-457 | two greedy runs on the same matrix make the same first matches |
| Matching.ContinuedPickBelow | lib/ThermalTracker/ThermalTracker.cpp:446-457 | a greedy run that goes on past some matches leaves an entry below the threshold once they are retired |
| Matching.GreedyNoLonger | lib/ThermalTracker/ThermalTracker.cpp:446-457 | no greedy run makes more matches than a finished one |
| Matching.GreedyIsUnique | lib/ThermalTracker/ThermalTracker.cpp:446-457 | the greedy matching is unique: the matrix and threshold decide which track takes which blob, and in which order |
| Matching.MatchedFrameUnique | lib/ThermalTracker/ThermalTracker.cpp:426-458 | the matched pairs and the track and blob tables after matching are determined by the inputs |
| Matching.UpdateTrackedBlobs | lib/ThermalTracker/ThermalTracker.cpp:426-458 | the matches pair distinct tracks with distinct blobs, each below the threshold; no unmatched pair is below it; the pairs are made greedily: each is the lowest entry, first in row-major order among equals, of the matrix with the earlier pairs' rows and columns retired; matched tracks are updated with their blob and the others only lose their updated flag; exactly the matched blobs are assigned |
| Matching.MatchLowest | lib/ThermalTracker/ThermalTracker.cpp:446-457 | one round of the loop appends the lowest pick to the matches, retires its row and column, picks the lowest entry of the retired matrix again, and keeps the matching greedy |
| TrackTable.Aged | lib/ThermalTracker/ThermalTracker.cpp:469-472 | ageing a track touches neither its updated flag, its shape, its travel nor its id |
| TrackTable.Kept | lib/ThermalTracker/ThermalTracker.cpp:460-497 | the surviving tracks are no more than the table |
| TrackTable.Ended | lib/ThermalTracker/ThermalTracker.cpp:460-497 | the ended tracks are no more than the table |
| TrackTable.Vacated | lib/ThermalTracker/ThermalTracker.cpp:477-494 | the vacated slots are the cleared, aged tracks |
| TrackTable.Sorted | lib/ThermalTracker/ThermalTracker.cpp:460-497 | the sorted table has the survivors at the front in order and cleared slots after them |
| TrackTable.SurvivorIndexes | lib/ThermalTracker/ThermalTracker.cpp:460-497 | the survivor positions are no more than the table |
| TrackTable.KeptIsFilter | lib/ThermalTracker/ThermalTracker.cpp:460-497 | the front of the sorted table is the aged surviving tracks, in their original order, and every survivor is there |
| TrackTable.KeptNotOverdue | lib/ThermalTracker/ThermalTracker.cpp:469-481 | no surviving track has reached the dead-frame limit |
| TrackTable.SortCounts | lib/ThermalTracker/ThermalTracker.cpp:460-497 | the survivors and the ended tracks number as many as satisfy their tests |
| TrackTable.SortedUpdated | lib/ThermalTracker/ThermalTracker.cpp:460-497 | sorting neither gains nor loses an updated track |
| TrackTable.SortClassifiesEach | lib/ThermalTracker/ThermalTracker.cpp:483-495 | every track that ends while active is classified, adding one or two movements |
| TrackTable.SortedNoOverdue | lib/ThermalTracker/ThermalTracker.cpp:460-497 | after sorting, no tracking slot has reached the dead-frame limit |
| TrackTable.SortedKeepsUpdated | lib/ThermalTracker/ThermalTracker.cpp:460-497 | every track updated this frame is still in the table after sorting |
| TrackTable.VisitSlot | lib/ThermalTracker/ThermalTracker.cpp:468-496 | one slot of the sort loop keeps the compaction and the classification up to date |
| TrackTable.SortTrackedBlobs | lib/ThermalTracker/ThermalTracker.cpp:460-497 | the in-place sort computes the sorted table and logs the movements of exactly the ended tracks |
| TrackTable.FirstFree | lib/ThermalTracker/ThermalTracker.cpp:564-598 | the first free slot is within the table or past its end |
| TrackTable.FirstFreeIs | lib/ThermalTracker/ThermalTracker.cpp:564-598 | the first free slot is free with no free slot before it, and exists iff some slot is free |
| TrackTable.Spawn | lib/ThermalTracker/ThermalTracker.cpp:582-594 | (corrected — see Findings) an unassigned active blob takes the first free slot and the next id if a slot is free; occupied slots are untouched |
| TrackTable.Place | lib/ThermalTracker/ThermalTracker.cpp:564-598 | (corrected — see Findings) placement keeps the table size |
| TrackTable.PlaceKeepsLive | lib/ThermalTracker/ThermalTracker.cpp:564-598 | (corrected — see Findings) placement never overwrites a live track |
| TrackTable.PlaceCount | lib/ThermalTracker/ThermalTracker.cpp:564-598 | (corrected — see Findings) as many tracks start as there are unassigned active blobs or free slots, whichever is fewer, each consuming one id and one free slot |
| TrackTable.PlaceSlots | lib/ThermalTracker/ThermalTracker.cpp:564-598 | (corrected — see Findings) every changed slot was free and now holds a tracking, updated track with an id from the range handed out |
| TrackTable.PlaceIdsDistinct | lib/ThermalTracker/ThermalTracker.cpp:564-598 | (corrected — see Findings) no two new tracks share an id |
| TrackTable.FindFree | lib/ThermalTracker/ThermalTracker.cpp:564-598 | (corrected — see Findings) the search returns the first free slot |
| TrackTable.SpawnSlot | lib/ThermalTracker/ThermalTracker.cpp:581-596 | (corrected — see Findings) one step of the placement loop keeps the table equal to placing the blobs so far |
| TrackTable.AddRemainingBlobs | lib/ThermalTracker/ThermalTracker.cpp:564-598 | (corrected — see Findings) the placement loop computes the functional placement and the next id |
| TrackTable.PlaceNoOverdue | lib/ThermalTracker/ThermalTracker.cpp:564-598 | (corrected — see Findings) placement adds no overdue track |
| TrackTable.MatchedCounted | lib/ThermalTracker/ThermalTracker.cpp:426-458 | matching keeps every tracking slot's update count non-negative |
| TrackTable.SortedCounted | lib/ThermalTracker/ThermalTracker.cpp:460-497 | sorting keeps every tracking slot's update count non-negative |
| TrackTable.PlaceCounted | lib/ThermalTracker/ThermalTracker.cpp:564-598 | (corrected — see Findings) placement keeps every tracking slot's update count non-negative |
| TrackTable.ClassifiedDone | lib/ThermalTracker/ThermalTracker.cpp:483-495 | once the sort loop has visited every slot, its log is the log of processing exactly the ended tracks |
| TrackTable.CompactedDone | lib/ThermalTracker/ThermalTracker.cpp:460-497 | once the sort loop has visited every slot and cleared the rest, the table is the sorted table |
| TrackTable.TrackBlobs | lib/ThermalTracker/ThermalTracker.cpp:407-424 | (corrected — see Findings) with no live track the frame only places its blobs into the unchanged table; otherwise the table is matched against the blobs as `UpdateTrackedBlobs` states, the ended tracks' movements are logged, and the unassigned blobs are placed into the sorted table; every matched, tracking track survives the frame, no slot is left overdue, and ids only grow; the outcome is determined by the inputs (`TrackedFrameUnique`) |
| TrackTable.TrackedFrameUnique | lib/ThermalTracker/ThermalTracker.cpp:407-424 | the frame's matched table, final table, movement log and next id are determined by its inputs |
| TrackTable.TrackedFrameKeepsMatched | lib/ThermalTracker/ThermalTracker.cpp:407-424 | (corrected — see Findings) in any frame so composed, every matched track that is updated and still tracking is in the final table |
| TrackTable.PlaceKeepsTracked | lib/ThermalTracker/ThermalTracker.cpp:564-598 | (corrected — see Findings) placement after sorting keeps every matched, tracking track |
| PlacementAsWritten.Unassigned | lib/ThermalTracker/ThermalTracker.cpp:616-630 | the unassigned active blobs are no more than the table |
| PlacementAsWritten.UnassignedCount | lib/ThermalTracker/ThermalTracker.cpp:616-630 | they number exactly the unassigned active count, and each is unassigned and active |
| PlacementAsWritten.AddRemainingAsWritten | lib/ThermalTracker/ThermalTracker.cpp:564-598 | the code as written puts the new tracks in consecutive slots starting at the number of updated tracks, with consecutive ids |
| PlacementAsWritten.AsWrittenInBounds | lib/ThermalTracker/ThermalTracker.cpp:600-630 | when no more tracks are updated than blobs are assigned, as written stays within the table |
| PlacementAsWritten.MissedFirstSorted | lib/ThermalTracker/ThermalTracker.cpp:460-497 | in the witness table, sorting leaves the missed track in slot 0 and the matched track in slot 1 |
| PlacementAsWritten.MatchedTrackOverwritten | lib/ThermalTracker/ThermalTracker.cpp:584 | as written, a new track overwrites a track matched in this frame |
| BlobsAsWritten.ScanAsWritten | lib/ThermalTracker/ThermalTracker.cpp:270-290 | the as-written scan accounts for every visited pixel and leaves the tail alone |
| BlobsAsWritten.PassAsWritten | lib/ThermalTracker/ThermalTracker.cpp:270-295 | the first pass of a blob skips the seed's slot and so visits one pixel fewer, except that a lone seed still makes it visit one slot |
| BlobsAsWritten.GrowAsWritten | lib/ThermalTracker/ThermalTracker.cpp:262-299 | the as-written growth keeps the seed queue at the front of the group |
| BlobsAsWritten.ExtractAsWritten | lib/ThermalTracker/ThermalTracker.cpp:224-306 | the as-written extraction fits the table and makes no empty blob |
| BlobsAsWritten.FirstPassAgrees | lib/ThermalTracker/ThermalTracker.cpp:270-295 | with at least two pixels, the first as-written pass is the corrected pass over the pixels after the seed |
| BlobsAsWritten.LaterPassAgrees | lib/ThermalTracker/ThermalTracker.cpp:270-295 | every later as-written pass is the corrected pass |
| BlobsAsWritten.LoneSeedReadsStaleSlot | lib/ThermalTracker/ThermalTracker.cpp:270-277 | with a lone seed, the first pass reads the stale slot past the live pixels |
| BlobsAsWritten.TwoApartAsWritten | lib/ThermalTracker/ThermalTracker.cpp:270-277 | two separated active pixels come out as a one-pixel blob and a two-pixel blob that holds the second pixel twice |
| BlobsAsWritten.TwoApartCorrected | lib/ThermalTracker/ThermalTracker.cpp:224-306 | the corrected extraction makes two one-pixel blobs and conserves the pixels |
| Tracker.Activity | lib/ThermalTracker/ThermalTracker.cpp:57-70 | a frame with blobs bumps the counter; a frame without resets it and refreshes the background |
| Tracker.RunCountsBusyFrames | lib/ThermalTracker/ThermalTracker.cpp:57-70 | over a run of frames with blobs the counter grows by the run's length |
| Tracker.RunRestarts | lib/ThermalTracker/ThermalTracker.cpp:57-70 | a frame without blobs restarts the count |
| Tracker.FrozenForDelay | lib/ThermalTracker/ThermalTracker.cpp:57-70 | after a blob-free frame, the background stays frozen for exactly the first `UNCHANGED_FRAME_DELAY` frames with blobs |
| Tracker.Update | lib/ThermalTracker/ThermalTracker.cpp:33-79 | (corrected — see Findings) while warming up, a frame only builds the background; afterwards the blob table is the padded survivors of the blobs extracted from the frame's active pixels and has no small blob, the tracks, the log and the next id are those of tracking these blobs against the old table, greedily matched and unique by `TrackedFrameUnique` (every matched, tracking track survives), the counter follows the activity check, the frame refreshes the background exactly when the check allows, no track is left overdue and ids only grow |
| Tracker.Reset | lib/ThermalTracker/ThermalTracker.cpp:89-94 | after a reset the background counts as unfinished for every positive size, and the tracks and the log are untouched |

## Left out

- The tracking-start and tracking-end callbacks (ThermalTracker.cpp:589-591, 719-745) are foreign code. They are not modelled.
- Timestamps are left out. This covers `millis()`, the start time and event duration of a track (TrackedBlob.cpp:79, 104), because they read a clock.
- The process-wide static `track_id` counter is an explicit `nextId` parameter. Its 16-bit or 32-bit wrap-around is not modelled: ids are unbounded integers.
- `load_frame` is not modelled as a step of its own: the frame is a parameter of `Update`. The `get_averages`, `get_variances` and `get_average_frame_temperature` accessors are left out; they only copy or average fields.
- `clear_blobs` is not modelled as its own step: `GetBlobs` starts from a table of empty blobs.
- `sqrtf` is a parameter of the background build, because Dafny has no real square root.
- Pixel adjacency (Pixel.h and Pixel.cpp, not part of this model) is a parameter `adj`. `Pixels.WithinFuzz` shows the documented 8-neighbourhood test with slack.
- Blob.cpp is not part of this model. `Blob` is modelled from its header.
- The copy operations of `Blob` and `TrackedBlob`, and the `get_num_last_blobs` accessor, are value assignment and a field read in the model.
- Declarations left stale in the headers (for example `process_frame` and `finished_building_background` in ThermalTracker.h) have no body and are not modelled. Neither is the editor backup copy `.atom-beautify.TrackedBlob.cpp`.
- Float rounding is not modelled: all arithmetic is exact on reals.
- The constructor leaves `num_unchanged_frames` and `num_last_blobs` uninitialised. The model requires a state to be given, so it has no such undefined start.
- `new_blobs[i].set_assigned()` in `add_remaining_blobs_to_tracked` marks blobs that nothing reads afterwards. The model does not return them.
- Tracker.Processable: the tracker requires `running_average_size >= 1` on every frame, because `add_current_frame_to_background` divides by it (ThermalTracker.cpp:170, 175). It also requires `running_average_size >= 2` when the finishing warm-up frame arrives, because the variance is then divided by the frame count minus one (ThermalTracker.cpp:144-150). The code checks neither; with a size of 0 or 1 it would divide by zero.
- Integer widths are not modelled: these counters are unbounded integers.
  - the `int` counters `num_unchanged_frames` (ThermalTracker.cpp:57-70), `times_updated` and `num_dead_frames` (TrackedBlob.cpp:96-117, ThermalTracker.cpp:469-472) and `total_travel` (TrackedBlob.cpp:134-135);
  - the `long` movement counters (ThermalTracker.cpp:673-681).
  On a target with 16-bit `int`, a scene busy for 32767 frames in a row would wrap `num_unchanged_frames` negative and turn the activity check around. The model does not show this.
- Background.RollingSpread: states only that the rolling spread stays non-negative, not its value. The weighted absolute deviation has no closed form worth stating.
- Background.AddFrameToBackground: states each average's step exactly but only the variances' sign, not their values.
- Code and design notes differ in two places; the model follows the code in both:
  - The activity counter counts consecutive frames with any blob, not frames whose blobs are unchanged.
  - A track is retired once its dead-frame count reaches `max_dead_frames`, not once it exceeds it.

## Findings

| source | as written | input that shows it | evidently intended | confidence | as-written member | corrected member |
|---|---|---|---|---|---|---|
| lib/ThermalTracker/ThermalTracker.cpp:270-277 | the first scan of each blob bumps `i` past the seed at index 0; when the seed is the only remaining pixel the loop still runs and reads index 1, a stale slot past the live pixels left over from the previous compaction | two non-adjacent active pixels A, C: the second blob's scan reads the stale copy of C and yields blob [C, C] of size 2 | only live pixels are scanned; the two pixels give two one-pixel blobs and every active pixel lands in exactly one blob | not executed | BlobsAsWritten.TwoApartAsWritten | Detection.GetBlobs |
| lib/ThermalTracker/ThermalTracker.cpp:584 | a new track is written at slot `num_updated_blobs`, the number of tracks updated this frame, although the sorted table holds its survivors, updated or not, in front | a table with a missed but surviving track in slot 0 and a matched track in slot 1, plus one unassigned blob: the new track overwrites slot 1 and the matched track is lost | new tracks go into free slots, so no live track is overwritten | not executed | PlacementAsWritten.MatchedTrackOverwritten | TrackTable.PlaceKeepsLive |
