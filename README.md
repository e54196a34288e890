# Location history generator: a Dafny model of the segment pipeline

The generator turns GPS tracks into a location history. Each track segment is a list of untimed waypoints plus a declared time window `[start, end]` in epoch seconds. The segment goes through a fixed pipeline:

1. **Ingest.** Every waypoint becomes a track point with time 0 and no activity markers.
2. **Classify.** The mean velocity is the distance sum divided by the window length. It fixes one activity type for the whole segment: still, walking, running or in vehicle.
3. **Time the points** (`generate_point_times`). The first point is pinned to the window start and the last point to the window end. Every point in between gets the time of its predecessor plus the whole seconds it takes to cover the leg at the mean velocity.
4. **Deduplicate** (`remove_duplicate_time_points`). Points whose timestamps collide are merged through a dictionary keyed by time.
5. **Annotate** (`generate_activities`). For every pair of neighbours except the final pair, when the gap between them exceeds a positive sampling rate, floor(gap / rate) activity markers are appended to the earlier point. A gap equal to the rate, or a rate below zero, gets none.

A separate helper checks whether the windows of any two segments overlap.

The model has six modules:

- `Types`: values and the error type.
- `GeoMetrics`: distance sum, mean velocity, travel time.
- `ActivityClassifier`: velocity bands and activity markers.
- `TimeAllocator`: timestamp recurrence and deduplication, as specification functions with their lemmas.
- `TrackSegments`: the `TrackSegment` class, whose methods update `points` in place, and the end-to-end lemmas.
- `OverlapChecker`: the window overlap test.

### How the model represents the program

- **Distances.** The geodesic distance is a parameter `dist` of type `(LatLon, LatLon) -> real`. Lemmas that need it to be non-negative say so.
- **Floating point.** Floating-point values are exact reals.
- **Truncation and floor.**
  - Python's `int()` on a quotient is truncation toward zero, modelled by `Trunc`.
  - `math.floor(gap / rate)` is the real floor.
- **Errors.** Each exception the pipeline can raise becomes an `Err` of `Result`:
  - `EmptySegment`: indexing point 0 of an empty segment.
  - `ZeroLengthWindow`: a window with `end == start` in the mean velocity.
  - `NegativeVelocity`: the classifier raises on a negative velocity.
  - `ZeroVelocity`: a leg is timed at velocity 0.
  - `ZeroSamplingRate`: a positive gap is divided by a zero sampling rate.
- **The time dictionary.** The dictionary used for deduplication is a key sequence in insertion order plus a map.

### What is proved

- **The timeline.** `distance_sum` adds up legs `0 .. n-3`, leaving out the final leg. The timing loop times exactly the same legs. On a window with start <= end and at the segment's own mean velocity, the timestamps are therefore non-decreasing across the whole segment, the last point included. On a reversed window nothing of the kind holds: a two-point segment comes out with the decreasing times [start, end]. Point `n-2` lands less than one second per timed leg before the window end (`PointTimesTimeline`, `EndBound`).
- **After deduplication and annotation.** On a window with start <= end, the points of a completed segment of at least two points have strictly increasing timestamps that run from the window start to the window end (`PipelineTimeline`).
- **Two-point segments.** On a window with start != end, a segment of two points always has velocity 0, because its only leg is never summed. It is therefore classified as still (`TwoPointSegmentIsStill`).

### Behaviour worth noting

- **The timing loop.** The bound `range(0, len - 2)` writes indices `1 .. n-2`, so index `n-2` is timed and only the last point keeps the pinned window end.
- **Two-point segments.** On a window with start != end, a two-point segment is classified still whatever its length, because its only leg is never summed (`TwoPointSegmentIsStill`).

## Model

| member | source | states |
|---|---|---|
| TrackSegments.Ingest | location_history_generator.py:20-23 | one point per waypoint, in order, with the waypoint's coordinates, time 0 and no markers |
| TrackSegments.TrackSegment.constructor | location_history_generator.py:18-28 | the new segment holds the ingested points, its window, its sampling rate, and the mean velocity and activity type it is given |
| TrackSegments.TrackSegment.Create | location_history_generator.py:17-32 | construction succeeds exactly when the pipeline does, with the pipeline's error otherwise; velocity and activity are derived once from the ingested points; the final points are timed, deduplicated and annotated in that order |
| TrackSegments.TrackSegment.Complete | location_history_generator.py:30-32 | timing, deduplication and annotation run in that order on the segment's own points, window, velocity, activity and rate; it fails exactly when one of the three steps fails, with that step's error, and otherwise leaves the points that the three steps produce |
| TrackSegments.TrackSegment.GeneratePointTimes | location_history_generator.py:34-41 | the points become the timestamp specification's result; on a zero-velocity failure only the two ends are pinned |
| TimeAllocator.PointTimes | location_history_generator.py:34-41 | fails exactly on an empty segment, or on a zero velocity with three or more points; otherwise only times change, the last point holds the window end (even when it is the only point), the first point holds the start, and each of points 1 .. n-2 is its predecessor's time plus the leg's travel time |
| TimeAllocator.RecurrenceNonDecreasing | location_history_generator.py:38-41 | at a positive velocity with non-negative distances the recurrence times never decrease |
| TimeAllocator.RecurrenceBracket | location_history_generator.py:38-41 | after k legs the elapsed time is at most the exact travel time of the distance covered, and falls short of it by less than one second per leg |
| TimeAllocator.EndBound | location_history_generator.py:38-41 | at the segment's own mean velocity, the time of point n-2 is at most the window end and less than n-2 seconds before it |
| TimeAllocator.PointTimesTimeline | location_history_generator.py:34-41 | at the mean velocity the whole timeline, the last point included, is non-decreasing, and point n-2 lies less than n-2 seconds before the end |
| GeoMetrics.DistanceSum | location_history_generator.py:117-121 | the accumulated sum is the total of legs 0 .. n-3 |
| GeoMetrics.DistanceSumSkipsLastLeg | location_history_generator.py:117-121 | the distance sum is 0 for two points or fewer; it is the path length of all points but the last, and adding the final leg gives the whole path length |
| GeoMetrics.LegsNonNegative | location_history_generator.py:117-121 | with non-negative distances the sum is non-negative |
| GeoMetrics.MeanVelocity | location_history_generator.py:132-133 | fails exactly on a zero-length window; otherwise velocity times window length equals the distance sum |
| GeoMetrics.MeanVelocitySign | location_history_generator.py:132-133 | on a forward window the velocity is non-negative, and zero exactly when the distance sum is zero |
| GeoMetrics.Trunc | location_history_generator.py:129 | truncation toward zero: for non-negative x the floor, for negative x the ceiling, each within one of x |
| GeoMetrics.TimeDiff | location_history_generator.py:128-129 | fails exactly on a zero velocity; at a positive velocity it is the whole number of seconds t with t <= distance / velocity < t + 1 |
| GeoMetrics.TimeDiffByPosition | location_history_generator.py:124-129 | the travel time depends only on the two points' latitude and longitude |
| TrackSegments.TrackSegment.RemoveDuplicateTimePoints | location_history_generator.py:43-47 | the points become the deduplication specification's result |
| TrackSegments.TrackSegment.IndexByTime | location_history_generator.py:44-46 | the dictionary's keys, in insertion order, are the distinct times in order of first occurrence; each time maps to the last point carrying it |
| TrackSegments.TrackSegment.ValuesInOrder | location_history_generator.py:47 | the dictionary's values, one per key, in key order |
| TimeAllocator.FirstOccurrences | location_history_generator.py:44-47 | the keys are pairwise distinct, no longer than the input, and contain exactly the input's values |
| TimeAllocator.Dedup | location_history_generator.py:43-47 | the output is no longer than the input, and its times are the distinct input times in order of first occurrence |
| TimeAllocator.DedupSurvivors | location_history_generator.py:43-47 | output times are pairwise distinct, every input time is still present and none is invented, and each survivor is the last input point with its time |
| TimeAllocator.DedupOrder | location_history_generator.py:44-47 | survivors appear in the order in which their times first occurred |
| TimeAllocator.DedupOfDistinct | location_history_generator.py:43-47 | points whose times are already distinct pass unchanged |
| TimeAllocator.DedupIdempotent | location_history_generator.py:43-47 | deduplicating twice is the same as deduplicating once |
| TimeAllocator.DedupSorted | location_history_generator.py:43-47 | on a non-decreasing timeline the survivors' times are strictly increasing, and they keep the first and last time |
| TrackSegments.TrackSegment.GenerateActivities | location_history_generator.py:49-55 | the points become the marker specification's result; on a zero-rate failure the points are unchanged |
| ActivityClassifier.MarkerCount | location_history_generator.py:52-53 | a gap above a positive rate gets floor(gap / rate) markers, at least one, with count * rate <= gap < (count + 1) * rate; no markers when gap <= rate or rate < 0; fails exactly on a zero rate with a positive gap |
| ActivityClassifier.Markers | location_history_generator.py:53-55 | count markers, the j-th at time t + rate * j, all of the segment's activity type |
| ActivityClassifier.AnnotateMarkers | location_history_generator.py:49-55 | fails exactly when the rate is 0 and some measured gap is positive; otherwise positions, times and existing markers stay, and every point except the last two gets exactly floor(gap / rate) new markers at t, t + rate, ... (none when gap <= rate) |
| ActivityClassifier.FromMeanVelocity | location_history_generator.py:88-100 | fails exactly on a negative velocity; 0 is still, (0, 5 km/h) is walking, [5, 25 km/h) is running, 25 km/h and above is in vehicle; on bicycle is never returned |
| ActivityClassifier.ClassificationMonotone | location_history_generator.py:88-100 | every non-negative velocity is classified, and a faster segment never ranks as slower motion |
| OverlapChecker.OverlapMeansSharedInstant | location_history_generator.py:136-137 | on well-formed windows the test holds exactly when some instant lies in both closed windows; it is symmetric, and windows that touch at an end overlap |
| OverlapChecker.SegmentOverlap | location_history_generator.py:140-145 | true exactly when two distinct segments of the list have overlapping windows; false for zero or one segment |
| OverlapChecker.SomeOverlapDependsOnMembersOnly | location_history_generator.py:140-145 | the answer depends only on which segments are listed, not on their order or repetition |
| TrackSegments.PipelineTimeline | location_history_generator.py:30-32 | a completed segment of at least two points on a window with start <= end has between 2 and n points, strictly increasing times, and runs from the window start to the window end |
| TrackSegments.AnnotatedTimeline | location_history_generator.py:31-32 | deduplicating and annotating a non-decreasing timeline pinned to a forward window gives strictly increasing times with the same two ends |
| TrackSegments.TwoPointSegmentIsStill | location_history_generator.py:26-32 | a two-point segment on a window with start != end has velocity 0, is still, and comes out as its two points pinned to the window ends with no markers |

## Left out

- **Geodesic distance.** The geodesic distance (geopy) at `location_history_generator.py:125` is a parameter `dist`. Only its non-negativity is assumed, as a precondition of the lemmas that need it.
- **Input and output.**
  - GPX parsing and file input/output are outside the model: `load_data`, `export_data` and `main`, including argument parsing.
  - The model starts from a segment's waypoint list and its window.
  - `main` calls `segment_overlap` and ignores the result. The check is modelled as the function it is.
- **Timestamp conversion.**
  - `Helpers.export_time` appends random digits.
  - `Helpers.import_time` depends on the local timezone.
  - Windows enter the model as integers.
- **JSON serialisation.** The `to_json` methods and `ComplexEncoder` are not modelled. That includes the E7 scaling of coordinates, the fixed accuracy and confidence fields, and the enum's string values.
- **Floating point.** Floats are exact reals, so float rounding in the velocity, the distance sum and the quotients is not modelled.
- **Object identity.**
  - `TrackPoint` and `Activity` are values. Aliasing of point objects is not modelled, which is harmless because no point is shared between segments.
  - `TrackSegment` is a class, and `segment_overlap` compares segments by identity, as the original does.
- TrackSegments.TrackSegment.constructor: takes the mean velocity and the activity type as arguments and does not run the pipeline, because a Dafny constructor cannot fail. The original `__init__` computes both from the ingested points and then runs the three steps, any of which can raise. `TrackSegments.TrackSegment.Create` does the whole construction: it derives velocity and activity from the ingested points before constructing, as `location_history_generator.py:26-27` does, runs the steps through `Complete`, and returns a `Result`.
- **Duck typing.** The original `Pair` named tuple is `Interval`, and start and end are integers. Python's duck typing, such as a float window, is not modelled.
