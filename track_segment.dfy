/** One track segment: its points, its window, and the pipeline that times
    the points, drops timestamp collisions and attaches activity markers. */
module TrackSegments {
  import opened Types
  import opened GeoMetrics
  import opened ActivityClassifier
  import opened TimeAllocator

  /** The points of a freshly ingested segment. */
  function Ingest(segment: seq<Waypoint>): (ps: seq<TrackPoint>)
    ensures |ps| == |segment|
    ensures forall i :: 0 <= i < |segment| ==> ps[i] == FromWaypoint(segment[i])
  {
    seq(|segment|, i requires 0 <= i < |segment| => FromWaypoint(segment[i]))
  }

  /** Specification of the whole construction of a segment, step by step:
      velocity and activity type are derived once, from the ingested points,
      before any point is timed or dropped. */
  function Pipeline(segment: seq<Waypoint>, rate: int, interval: Interval, dist: DistanceFn): Result<seq<TrackPoint>>
  {
    var ps := Ingest(segment);
    var v :- MeanVelocity(ps, interval, dist);
    var act :- FromMeanVelocity(v);
    Completion(ps, interval, v, rate, act, dist)
  }

  /** Specification of the last three steps of construction: timing, then
      deduplication, then markers. */
  function Completion(ps: seq<TrackPoint>, interval: Interval, v: real, rate: int, act: ActivityType, dist: DistanceFn): Result<seq<TrackPoint>>
  {
    var timed :- PointTimes(ps, interval, v, dist);
    Annotate(Dedup(timed), rate, act)
  }

  class TrackSegment {
    var points: seq<TrackPoint>
    const interval: Interval
    const meanVelocity: real
    const activity: ActivityType
    const activitySamplingRate: int

    /** Ingests the waypoints, one point each with time 0 and no markers,
        and records the window, the sampling rate and the classification. */
    constructor (segment: seq<Waypoint>, rate: int, interval: Interval, velocity: real, activity: ActivityType)
      ensures points == Ingest(segment)
      ensures this.interval == interval && activitySamplingRate == rate
      ensures meanVelocity == velocity && this.activity == activity
    {
      var ps: seq<TrackPoint> := [];
      var i := 0;
      while i < |segment|
        invariant 0 <= i <= |segment|
        invariant ps == Ingest(segment[..i])
      {
        ps := ps + [FromWaypoint(segment[i])];
        i := i + 1;
        assert segment[..i] == segment[..i - 1] + [segment[i - 1]];
      }
      assert segment[..i] == segment;
      points := ps;
      this.interval := interval;
      activitySamplingRate := rate;
      meanVelocity := velocity;
      this.activity := activity;
    }

    /** Builds a segment and runs its pipeline to completion. Velocity and
        activity type are derived from the ingested points before any point
        is timed. */
    static method Create(segment: seq<Waypoint>, rate: int, start: int, end: int, dist: DistanceFn)
      returns (r: Result<TrackSegment>)
      ensures r.Ok? <==> Pipeline(segment, rate, Interval(start, end), dist).Ok?
      ensures r.Err? ==> r.error == Pipeline(segment, rate, Interval(start, end), dist).error
      ensures r.Ok? ==> fresh(r.value) && r.value.points == Pipeline(segment, rate, Interval(start, end), dist).value
      ensures r.Ok? ==> r.value.interval == Interval(start, end) && r.value.activitySamplingRate == rate
      ensures r.Ok? ==> Ok(r.value.meanVelocity) == MeanVelocity(Ingest(segment), Interval(start, end), dist)
      ensures r.Ok? ==> Ok(r.value.activity) == FromMeanVelocity(r.value.meanVelocity)
    {
      var ps := Ingest(segment);
      var velocity := MeanVelocity(ps, Interval(start, end), dist);
      if velocity.Err? {
        return Err(velocity.error);
      }
      var classified := FromMeanVelocity(velocity.value);
      if classified.Err? {
        return Err(classified.error);
      }
      var seg := new TrackSegment(segment, rate, Interval(start, end), velocity.value, classified.value);
      assert Pipeline(segment, rate, Interval(start, end), dist) ==
        Completion(ps, Interval(start, end), velocity.value, rate, classified.value, dist);
      var completed := seg.Complete(dist);
      if completed.Err? {
        return Err(completed.error);
      }
      r := Ok(seg);
    }

    /** The three steps that follow classification, in their fixed order. */
    method Complete(dist: DistanceFn) returns (r: Result<()>)
      modifies this`points
      ensures r.Ok? <==> Completion(old(points), interval, meanVelocity, activitySamplingRate, activity, dist).Ok?
      ensures r.Err? ==> r.error == Completion(old(points), interval, meanVelocity, activitySamplingRate, activity, dist).error
      ensures r.Ok? ==> points == Completion(old(points), interval, meanVelocity, activitySamplingRate, activity, dist).value
    {
      ghost var ps := points;
      var timing := GeneratePointTimes(dist);
      if timing.Err? {
        assert PointTimes(ps, interval, meanVelocity, dist).Err?;
        return Err(timing.error);
      }
      assert PointTimes(ps, interval, meanVelocity, dist).Ok?;
      RemoveDuplicateTimePoints();
      var marking := GenerateActivities();
      if marking.Err? {
        return Err(marking.error);
      }
      r := Ok(());
    }

    /** Pins the first point to the window start and the last to the window
        end, then times every point in between from its predecessor. */
    method GeneratePointTimes(dist: DistanceFn) returns (r: Result<()>)
      modifies this`points
      ensures PointTimes(old(points), interval, meanVelocity, dist).Ok? ==>
        r.Ok? && points == PointTimes(old(points), interval, meanVelocity, dist).value
      ensures PointTimes(old(points), interval, meanVelocity, dist).Err? ==>
        r == Err(PointTimes(old(points), interval, meanVelocity, dist).error) && points == Pin(old(points), interval)
    {
      if |points| == 0 {
        return Err(EmptySegment);
      }
      ghost var ps := points;
      var n := |points|;
      points := points[0 := points[0].(time := interval.start)];
      points := points[n - 1 := points[n - 1].(time := interval.end)];
      ghost var pinned := points;
      PinStartsTiming(ps, interval, meanVelocity, dist);
      var i := 0;
      while i < n - 2
        invariant TimedUpTo(ps, interval, meanVelocity, dist, points, i)
        invariant i == 0 ==> points == pinned
      {
        var diff := TimeDiff(dist, points[i], points[i + 1], meanVelocity);
        if diff.Err? {
          return Err(diff.error);
        }
        TimeDiffByPosition(dist, points[i], points[i + 1], ps[i], ps[i + 1], meanVelocity);
        TimingStep(ps, interval, meanVelocity, dist, points, i);
        points := points[i + 1 := points[i + 1].(time := points[i].time + diff.value)];
        i := i + 1;
      }
      TimingDone(ps, interval, meanVelocity, dist, points);
      r := Ok(());
    }

    /** Keeps one point per timestamp, as a dictionary keyed by time does:
        the key's first insertion fixes its position, the last point with
        that time is the value kept. */
    method RemoveDuplicateTimePoints()
      modifies this`points
      ensures points == Dedup(old(points))
    {
      ghost var ps := points;
      var keys, unique := IndexByTime(points);
      forall m | 0 <= m < |keys| ensures keys[m] in unique {
        assert keys[m] in keys;
      }
      var survivors := ValuesInOrder(keys, unique);
      forall m | 0 <= m < |keys| ensures survivors[m] == Dedup(ps)[m] {
        DedupAt(ps, m);
      }
      points := survivors;
    }

    /** A dictionary's values, in the insertion order of their keys. */
    static method ValuesInOrder(keys: seq<int>, unique: map<int, TrackPoint>) returns (values: seq<TrackPoint>)
      requires forall m :: 0 <= m < |keys| ==> keys[m] in unique
      ensures |values| == |keys|
      ensures forall m :: 0 <= m < |keys| ==> values[m] == unique[keys[m]]
    {
      values := [];
      var j := 0;
      while j < |keys|
        invariant 0 <= j <= |keys| && |values| == j
        invariant forall m :: 0 <= m < j ==> values[m] == unique[keys[m]]
      {
        values := values + [unique[keys[j]]];
        j := j + 1;
      }
    }

    /** The dictionary keyed by time that the points are inserted into, one
        by one: its keys in insertion order, and its entries. */
    static method IndexByTime(ps: seq<TrackPoint>) returns (keys: seq<int>, unique: map<int, TrackPoint>)
      ensures keys == FirstOccurrences(Times(ps))
      ensures forall t :: t in unique <==> t in keys
      ensures forall t :: t in Times(ps) ==> t in unique && unique[t] == ps[LastIndexOfTime(ps, t)]
    {
      keys, unique := [], map[];
      var i := 0;
      while i < |ps|
        invariant 0 <= i <= |ps| && IndexesPrefix(ps, i, keys, unique)
      {
        var p := ps[i];
        IndexStep(ps, i, keys, unique);
        if p.time !in unique {
          keys := keys + [p.time];
        }
        unique := unique[p.time := p];
        i := i + 1;
      }
      assert ps[..i] == ps;
    }

    /** For every pair of neighbours but the final one, appends one marker
        per full sampling period of their gap to the earlier point. */
    method GenerateActivities() returns (r: Result<()>)
      modifies this`points
      ensures Annotate(old(points), activitySamplingRate, activity).Ok? ==>
        r.Ok? && points == Annotate(old(points), activitySamplingRate, activity).value
      ensures Annotate(old(points), activitySamplingRate, activity).Err? ==>
        r == Err(ZeroSamplingRate) && points == old(points)
    {
      ghost var ps := points;
      var n := |points|;
      var i := 0;
      while i < n - 2
        invariant AnnotatedUpTo(ps, activitySamplingRate, activity, points, i)
        invariant activitySamplingRate == 0 ==> points == ps
      {
        // The guard gap > rate and the count floor(gap / rate) are both in MarkerCount.
        var count := MarkerCount(points[i + 1].time - points[i].time, activitySamplingRate);
        assert points[i + 1].time - points[i].time == Gap(ps, i);
        if count.Err? {
          return Err(count.error);
        }
        ghost var before := points;
        assert ps[i].activities + [] == ps[i].activities;
        var j := 0;
        while j < count.value
          invariant 0 <= j <= count.value && |points| == n
          invariant points == before[i := ps[i].(activities := ps[i].activities + Markers(ps[i].time, j, activitySamplingRate, activity))]
        {
          ghost var marker := Activity(activity, ps[i].time + activitySamplingRate * j);
          assert points[i].time == ps[i].time;
          assert Markers(ps[i].time, j + 1, activitySamplingRate, activity) ==
            Markers(ps[i].time, j, activitySamplingRate, activity) + [marker];
          assert ps[i].activities + Markers(ps[i].time, j + 1, activitySamplingRate, activity) ==
            ps[i].activities + Markers(ps[i].time, j, activitySamplingRate, activity) + [marker];
          points := points[i := points[i].(activities := points[i].activities +
                                            [Activity(activity, points[i].time + activitySamplingRate * j)])];
          j := j + 1;
        }
        if activitySamplingRate == 0 {
          assert points == before;
        }
        AnnotateStep(ps, activitySamplingRate, activity, before, i, count.value);
        i := i + 1;
      }
      AnnotateDone(ps, activitySamplingRate, activity, points, i);
      r := Ok(());
    }
  }

  /** End to end: a segment of at least two points that completes comes out
      with strictly increasing timestamps running from the window start to
      the window end, and with no more points than it went in with. */
  lemma PipelineTimeline(segment: seq<Waypoint>, rate: int, interval: Interval, dist: DistanceFn)
    requires NonNegative(dist)
    requires interval.start <= interval.end
    requires |segment| >= 2
    requires Pipeline(segment, rate, interval, dist).Ok?
    ensures var out := Pipeline(segment, rate, interval, dist).value;
      && 2 <= |out| <= |segment|
      && StrictlyIncreasing(Times(out))
      && out[0].time == interval.start
      && out[|out| - 1].time == interval.end
  {
    var ps := Ingest(segment);
    var v := MeanVelocity(ps, interval, dist).value;
    var act := FromMeanVelocity(v).value;
    var timed := PointTimes(ps, interval, v, dist).value;
    assert Pipeline(segment, rate, interval, dist) == Annotate(Dedup(timed), rate, act);
    PointTimesTimeline(ps, interval, dist, v);
    AnnotatedTimeline(timed, rate, act, interval);
  }

  /** Deduplicating and annotating a non-decreasing timeline pinned to a
      forward window yields a strictly increasing one with the same ends. */
  lemma AnnotatedTimeline(timed: seq<TrackPoint>, rate: int, act: ActivityType, interval: Interval)
    requires interval.start < interval.end
    requires |timed| >= 2 && NonDecreasing(Times(timed))
    requires timed[0].time == interval.start && timed[|timed| - 1].time == interval.end
    requires Annotate(Dedup(timed), rate, act).Ok?
    ensures var out := Annotate(Dedup(timed), rate, act).value;
      && 2 <= |out| <= |timed|
      && StrictlyIncreasing(Times(out))
      && out[0].time == interval.start
      && out[|out| - 1].time == interval.end
  {
    var deduped := Dedup(timed);
    var out := Annotate(deduped, rate, act).value;
    DedupSorted(timed);
    AnnotateMarkers(deduped, rate, act);
    assert Times(out) == Times(deduped) by {
      forall k | 0 <= k < |out| ensures Times(out)[k] == Times(deduped)[k] {
        assert out[k].time == deduped[k].time;
      }
    }
    assert out[0].time == interval.start && out[|out| - 1].time == interval.end;
  }

  /** The distance sum skips the only leg of a two-point segment, so such a
      segment always moves at velocity zero and is classified as still; it
      comes out as its two points pinned to the window ends, with no markers. */
  lemma TwoPointSegmentIsStill(segment: seq<Waypoint>, rate: int, interval: Interval, dist: DistanceFn)
    requires |segment| == 2
    requires interval.start != interval.end
    ensures MeanVelocity(Ingest(segment), interval, dist) == Ok(0.0)
    ensures FromMeanVelocity(MeanVelocity(Ingest(segment), interval, dist).value) == Ok(Still)
    ensures Pipeline(segment, rate, interval, dist) ==
      Ok([FromWaypoint(segment[0]).(time := interval.start), FromWaypoint(segment[1]).(time := interval.end)])
  {
    var ps := Ingest(segment);
    assert Legs(ps, dist, MeasuredLegs(|ps|)) == 0.0;
    assert MeanVelocity(ps, interval, dist) == Ok(0.0);
    var timed := PointTimes(ps, interval, 0.0, dist).value;
    assert Pipeline(segment, rate, interval, dist) == Annotate(Dedup(timed), rate, Still);
    assert Times(timed) == [interval.start, interval.end];
    DedupOfDistinct(timed);
    AnnotateNothingToPair(timed, rate, Still);
    assert timed == [FromWaypoint(segment[0]).(time := interval.start), FromWaypoint(segment[1]).(time := interval.end)];
  }

  /** With two points there is no pair to fill: the list is returned as is. */
  lemma AnnotateNothingToPair(ps: seq<TrackPoint>, rate: int, act: ActivityType)
    requires |ps| <= 2
    ensures Annotate(ps, rate, act) == Ok(ps)
  {
    var out := Annotate(ps, rate, act);
    assert |out.value| == |ps|;
    forall k | 0 <= k < |ps| ensures out.value[k] == ps[k] {
      assert NewMarkers(ps, k, rate, act) == [];
      assert ps[k].activities + [] == ps[k].activities;
    }
    assert out.value == ps;
  }
}
