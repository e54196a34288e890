/** Synthetic timestamps for one segment's points, and the removal of points
    whose timestamps collide. */
module TimeAllocator {
  import opened Types
  import opened GeoMetrics

  /** Time of point k by the recurrence: the window start at point 0, then
      each point the previous time plus the whole seconds of its leg. */
  function RecurrenceTime(ps: seq<TrackPoint>, start: int, v: real, dist: DistanceFn, k: nat): int
    requires k < |ps|
    requires k > 0 ==> v != 0.0
  {
    if k == 0 then start
    else RecurrenceTime(ps, start, v, dist, k - 1) + TimeDiff(dist, ps[k - 1], ps[k], v).value
  }

  /** The boundary assignment alone: point 0 gets the start, then the last
      point gets the end (for a single point the end wins). */
  function Pin(ps: seq<TrackPoint>, interval: Interval): (r: seq<TrackPoint>)
    ensures |r| == |ps|
  {
    if ps == [] then []
    else
      var first := ps[0 := ps[0].(time := interval.start)];
      first[|ps| - 1 := first[|ps| - 1].(time := interval.end)]
  }

  /** Specification of timestamp generation. Fails on an empty segment, and
      on a zero velocity once there is a leg to time. */
  function PointTimes(ps: seq<TrackPoint>, interval: Interval, v: real, dist: DistanceFn): (r: Result<seq<TrackPoint>>)
    ensures r.Err? <==> |ps| == 0 || (|ps| >= 3 && v == 0.0)
    ensures r.Err? ==> r.error == (if |ps| == 0 then EmptySegment else ZeroVelocity)
    ensures r.Ok? ==> |r.value| == |ps|
    ensures r.Ok? ==> forall k :: 0 <= k < |ps| ==> r.value[k] == ps[k].(time := r.value[k].time)
    ensures r.Ok? ==> r.value[|ps| - 1].time == interval.end
    ensures r.Ok? && |ps| >= 2 ==> r.value[0].time == interval.start
    ensures r.Ok? ==> forall k :: 1 <= k <= |ps| - 2 ==>
      r.value[k].time == r.value[k - 1].time + TimeDiff(dist, ps[k - 1], ps[k], v).value
  {
    if |ps| == 0 then Err(EmptySegment)
    else if |ps| >= 3 && v == 0.0 then Err(ZeroVelocity)
    else
      Ok(seq(|ps|, k requires 0 <= k < |ps| =>
               ps[k].(time := if k == |ps| - 1 then interval.end
                              else RecurrenceTime(ps, interval.start, v, dist, k))))
  }

  /** State of timestamp generation after i steps: the ends are pinned, the
      points up to i carry their recurrence times, and only times differ
      from the input. */
  ghost predicate TimedUpTo(ps: seq<TrackPoint>, interval: Interval, v: real, dist: DistanceFn, cur: seq<TrackPoint>, i: nat)
  {
    && |cur| == |ps| > 0
    && i <= MeasuredLegs(|ps|)
    && (i > 0 ==> v != 0.0)
    && (forall k :: 0 <= k < |ps| ==> cur[k] == ps[k].(time := cur[k].time))
    && cur[|ps| - 1].time == interval.end
    && (forall k :: 0 <= k <= i && k < |ps| - 1 ==> cur[k].time == RecurrenceTime(ps, interval.start, v, dist, k))
  }

  /** Pinning the ends is the state before the first step. */
  lemma PinStartsTiming(ps: seq<TrackPoint>, interval: Interval, v: real, dist: DistanceFn)
    requires |ps| > 0
    ensures TimedUpTo(ps, interval, v, dist, Pin(ps, interval), 0)
  {
  }

  /** One step of the loop: point i + 1 gets the time of point i plus the
      whole seconds of the leg between them. */
  lemma TimingStep(ps: seq<TrackPoint>, interval: Interval, v: real, dist: DistanceFn, cur: seq<TrackPoint>, i: nat)
    requires TimedUpTo(ps, interval, v, dist, cur, i)
    requires i < |ps| - 2 && v != 0.0
    ensures TimedUpTo(ps, interval, v, dist,
                      cur[i + 1 := cur[i + 1].(time := cur[i].time + TimeDiff(dist, ps[i], ps[i + 1], v).value)], i + 1)
  {
    var f := TimeDiff(dist, ps[i], ps[i + 1], v).value;
    var nxt := cur[i + 1 := cur[i + 1].(time := cur[i].time + f)];
    assert RecurrenceTime(ps, interval.start, v, dist, i + 1) == RecurrenceTime(ps, interval.start, v, dist, i) + f;
    forall k | 0 <= k <= i + 1 && k < |ps| - 1
      ensures nxt[k].time == RecurrenceTime(ps, interval.start, v, dist, k)
    {
      if k <= i {
        assert nxt[k] == cur[k];
      }
    }
    forall k | 0 <= k < |ps| ensures nxt[k] == ps[k].(time := nxt[k].time) {
      assert nxt[k] == cur[k] || k == i + 1;
    }
    assert TimedUpTo(ps, interval, v, dist, nxt, i + 1);
  }

  /** Once every leg but the last is timed, the state is the specification's result. */
  lemma TimingDone(ps: seq<TrackPoint>, interval: Interval, v: real, dist: DistanceFn, cur: seq<TrackPoint>)
    requires TimedUpTo(ps, interval, v, dist, cur, MeasuredLegs(|ps|))
    requires |ps| >= 3 ==> v != 0.0
    ensures PointTimes(ps, interval, v, dist).Ok? && cur == PointTimes(ps, interval, v, dist).value
  {
    var r := PointTimes(ps, interval, v, dist).value;
    forall k | 0 <= k < |ps| ensures cur[k] == r[k] {
    }
  }

  lemma {:induction false} RecurrenceNonDecreasing(ps: seq<TrackPoint>, start: int, v: real, dist: DistanceFn, j: nat, k: nat)
    requires NonNegative(dist) && v > 0.0
    requires j <= k < |ps|
    ensures RecurrenceTime(ps, start, v, dist, j) <= RecurrenceTime(ps, start, v, dist, k)
  {
    if j < k {
      RecurrenceNonDecreasing(ps, start, v, dist, j, k - 1);
      assert Distance(dist, ps[k - 1], ps[k]) >= 0.0;
    }
  }

  /** Time is allocated in proportion to distance: after k legs the elapsed
      time a is at most the travel time q of the distance covered, and falls
      short of it by less than one second per leg. */
  lemma {:induction false} RecurrenceBracket(ps: seq<TrackPoint>, start: int, v: real, dist: DistanceFn, k: nat, a: int, q: real)
    requires NonNegative(dist) && v > 0.0
    requires k < |ps|
    requires a == RecurrenceTime(ps, start, v, dist, k) - start && q == Legs(ps, dist, k) / v
    ensures a as real <= q <= (a + k) as real
    ensures k > 0 ==> q < (a + k) as real
  {
    if k > 0 {
      var a' := RecurrenceTime(ps, start, v, dist, k - 1) - start;
      var q' := Legs(ps, dist, k - 1) / v;
      RecurrenceBracket(ps, start, v, dist, k - 1, a', q');
      var d := Distance(dist, ps[k - 1], ps[k]);
      assert d >= 0.0;
      DivideSum(Legs(ps, dist, k - 1), d, v);
      assert a == a' + TimeDiff(dist, ps[k - 1], ps[k], v).value;
    }
  }

  /** Division by the velocity distributes over the sum of legs. */
  lemma DivideSum(x: real, y: real, v: real)
    requires v > 0.0
    ensures (x + y) / v == x / v + y / v
  {
    assert (x / v + y / v) * v == x + y;
  }

  /** With the segment's own mean velocity the whole timeline is
      non-decreasing, the last point included: the distance sum measures
      exactly the legs the recurrence times, so the recurrence never runs
      past the window end. It also lands less than one second per timed leg
      before the end. */
  lemma PointTimesTimeline(ps: seq<TrackPoint>, interval: Interval, dist: DistanceFn, v: real)
    requires NonNegative(dist)
    requires interval.start <= interval.end
    requires MeanVelocity(ps, interval, dist) == Ok(v)
    requires PointTimes(ps, interval, v, dist).Ok?
    ensures NonDecreasing(Times(PointTimes(ps, interval, v, dist).value))
    ensures |ps| >= 3 ==> interval.end - PointTimes(ps, interval, v, dist).value[|ps| - 2].time < |ps| - 2
  {
    var ts := Times(PointTimes(ps, interval, v, dist).value);
    if |ps| >= 3 {
      MeanVelocitySign(ps, interval, dist);
      EndBound(ps, interval, dist, v);
      forall k | 0 <= k < |ps| - 1 ensures ts[k] == RecurrenceTime(ps, interval.start, v, dist, k) {
      }
      TimelineFromRecurrence(ps, interval.start, interval.end, v, dist, ts);
    }
  }

  lemma TimelineFromRecurrence(ps: seq<TrackPoint>, s: int, e: int, v: real, dist: DistanceFn, ts: seq<int>)
    requires NonNegative(dist) && v > 0.0
    requires |ps| >= 3 && |ts| == |ps|
    requires forall k :: 0 <= k < |ps| - 1 ==> ts[k] == RecurrenceTime(ps, s, v, dist, k)
    requires ts[|ps| - 1] == e && RecurrenceTime(ps, s, v, dist, |ps| - 2) <= e
    ensures NonDecreasing(ts)
  {
    var n := |ps|;
    forall i, j | 0 <= i <= j < n ensures ts[i] <= ts[j] {
      if j < n - 1 {
        RecurrenceNonDecreasing(ps, s, v, dist, i, j);
      } else if i < n - 1 {
        RecurrenceNonDecreasing(ps, s, v, dist, i, n - 2);
      }
    }
  }

  /** The recurrence stops short of the window end, by less than one second per leg. */
  lemma EndBound(ps: seq<TrackPoint>, interval: Interval, dist: DistanceFn, v: real)
    requires NonNegative(dist) && v > 0.0 && |ps| >= 3
    requires MeanVelocity(ps, interval, dist) == Ok(v)
    ensures RecurrenceTime(ps, interval.start, v, dist, |ps| - 2) <= interval.end
    ensures interval.end - RecurrenceTime(ps, interval.start, v, dist, |ps| - 2) < |ps| - 2
  {
    var k := |ps| - 2;
    assert MeasuredLegs(|ps|) == k;
    var a := RecurrenceTime(ps, interval.start, v, dist, k) - interval.start;
    var w := interval.end - interval.start;
    var l := Legs(ps, dist, k);
    CancelVelocity(l, w, v);
    RecurrenceBracket(ps, interval.start, v, dist, k, a, l / v);
    WholeSecondsBracket(a, w, k, l / v);
  }

  /** A whole number of seconds w inside the bracket [a, a + k) of a count of
      elapsed seconds a. */
  lemma WholeSecondsBracket(a: int, w: int, k: int, q: real)
    requires a as real <= q < (a + k) as real && q == w as real
    ensures a <= w && w - a < k
  {
  }

  /** A window of w seconds at velocity v covers v * w; its travel time is w. */
  lemma CancelVelocity(l: real, w: int, v: real)
    requires v > 0.0 && v * w as real == l
    ensures l / v == w as real
  {
  }

  // ---------------------------------------------------------------------
  // Deduplication. The original keys a dictionary by timestamp: the first
  // insertion of a key fixes its position, every later one replaces the
  // value. These functions give that meaning without a dictionary.

  /** The distinct values of ts, in order of first occurrence. */
  function FirstOccurrences(ts: seq<int>): (ks: seq<int>)
    ensures |ks| <= |ts|
    ensures forall t :: t in ks <==> t in ts
    ensures PairwiseDistinct(ks)
  {
    if ts == [] then []
    else
      var ks := FirstOccurrences(ts[..|ts| - 1]);
      assert ts == ts[..|ts| - 1] + [ts[|ts| - 1]];
      if ts[|ts| - 1] in ks then ks else ks + [ts[|ts| - 1]]
  }

  /** Index of the last point carrying time t. */
  function LastIndexOfTime(ps: seq<TrackPoint>, t: int): (k: nat)
    requires t in Times(ps)
    ensures k < |ps| && ps[k].time == t
    ensures forall m :: k < m < |ps| ==> ps[m].time != t
  {
    if ps[|ps| - 1].time == t then |ps| - 1 else LastIndexOfTime(ps[..|ps| - 1], t)
  }

  /** Index of the first occurrence of t. */
  function FirstIndex(ts: seq<int>, t: int): (k: nat)
    requires t in ts
    ensures k < |ts| && ts[k] == t
    ensures forall m :: 0 <= m < k ==> ts[m] != t
  {
    if ts[0] == t then 0 else 1 + FirstIndex(ts[1..], t)
  }

  /** Extending a prefix by one point: its time joins the keys if new, and
      becomes the last occurrence of that time. */
  lemma PrefixStep(ps: seq<TrackPoint>, i: nat)
    requires i < |ps|
    ensures Times(ps[..i + 1]) == Times(ps[..i]) + [ps[i].time]
    ensures FirstOccurrences(Times(ps[..i + 1])) ==
      if ps[i].time in FirstOccurrences(Times(ps[..i])) then FirstOccurrences(Times(ps[..i]))
      else FirstOccurrences(Times(ps[..i])) + [ps[i].time]
    ensures LastIndexOfTime(ps[..i + 1], ps[i].time) == i
    ensures forall t :: t in Times(ps[..i]) && t != ps[i].time ==>
      t in Times(ps[..i + 1]) && LastIndexOfTime(ps[..i + 1], t) == LastIndexOfTime(ps[..i], t)
  {
    assert ps[..i + 1][..i] == ps[..i];
  }

  /** A dictionary keyed by time that holds the first i points. */
  ghost predicate IndexesPrefix(ps: seq<TrackPoint>, i: nat, keys: seq<int>, unique: map<int, TrackPoint>)
    requires i <= |ps|
  {
    && keys == FirstOccurrences(Times(ps[..i]))
    && (forall t :: t in unique <==> t in keys)
    && (forall t :: t in unique ==> t in Times(ps[..i]) && unique[t] == ps[LastIndexOfTime(ps[..i], t)])
  }

  /** Inserting point i keeps the dictionary in step with the prefix. */
  lemma IndexStep(ps: seq<TrackPoint>, i: nat, keys: seq<int>, unique: map<int, TrackPoint>)
    requires i < |ps| && IndexesPrefix(ps, i, keys, unique)
    ensures IndexesPrefix(ps, i + 1, if ps[i].time in unique then keys else keys + [ps[i].time],
                          unique[ps[i].time := ps[i]])
  {
    var t0 := ps[i].time;
    var keys' := if t0 in unique then keys else keys + [t0];
    var unique' := unique[t0 := ps[i]];
    PrefixStep(ps, i);
    assert keys' == FirstOccurrences(Times(ps[..i + 1])) by {
      assert t0 in unique <==> t0 in FirstOccurrences(Times(ps[..i]));
    }
    forall t | t in unique'
      ensures t in Times(ps[..i + 1]) && unique'[t] == ps[LastIndexOfTime(ps[..i + 1], t)]
    {
      if t != t0 {
        assert t in unique && t in Times(ps[..i]);
      }
    }
  }

  /** Specification of deduplication: one point per distinct time, ordered by
      the time's first occurrence, each the last point carrying that time. */
  function Dedup(ps: seq<TrackPoint>): (r: seq<TrackPoint>)
    ensures |r| <= |ps|
    ensures Times(r) == FirstOccurrences(Times(ps))
  {
    var ks := FirstOccurrences(Times(ps));
    seq(|ks|, i requires 0 <= i < |ks| => ps[LastIndexOfTime(ps, ks[i])])
  }

  /** The m-th survivor is the last point carrying the m-th distinct time. */
  lemma DedupAt(ps: seq<TrackPoint>, m: nat)
    requires m < |FirstOccurrences(Times(ps))|
    ensures FirstOccurrences(Times(ps))[m] in Times(ps)
    ensures m < |Dedup(ps)| && Dedup(ps)[m] == ps[LastIndexOfTime(ps, FirstOccurrences(Times(ps))[m])]
  {
  }

  /** After deduplication the times are pairwise distinct, no time value is
      lost or invented, and each survivor is the last input point with its
      time. */
  lemma DedupSurvivors(ps: seq<TrackPoint>)
    ensures PairwiseDistinct(Times(Dedup(ps)))
    ensures forall t :: t in Times(Dedup(ps)) <==> t in Times(ps)
    ensures forall i :: 0 <= i < |Dedup(ps)| ==>
      exists k :: 0 <= k < |ps| && Dedup(ps)[i] == ps[k] &&
        forall m :: k < m < |ps| ==> ps[m].time != ps[k].time
  {
    var r := Dedup(ps);
    forall i | 0 <= i < |r|
      ensures exists k :: 0 <= k < |ps| && r[i] == ps[k] && forall m :: k < m < |ps| ==> ps[m].time != ps[k].time
    {
      var ks := FirstOccurrences(Times(ps));
      var k := LastIndexOfTime(ps, ks[i]);
      assert r[i] == ps[k];
    }
  }

  /** Deleting the last element keeps first occurrences of the others. */
  lemma FirstIndexPrefix(ts: seq<int>, t: int)
    requires |ts| >= 1 && t in ts[..|ts| - 1]
    ensures FirstIndex(ts, t) == FirstIndex(ts[..|ts| - 1], t)
  {
    var a, b := FirstIndex(ts, t), FirstIndex(ts[..|ts| - 1], t);
    assert ts[..|ts| - 1][b] == ts[b];
    assert !(a < b) by { assert ts[..|ts| - 1][a] == ts[a]; }
  }

  /** Survivors keep the order in which their times first appeared. */
  lemma {:induction false} FirstOccurrencesOrdered(ts: seq<int>)
    ensures forall i, j :: 0 <= i < j < |FirstOccurrences(ts)| ==>
      FirstIndex(ts, FirstOccurrences(ts)[i]) < FirstIndex(ts, FirstOccurrences(ts)[j])
  {
    if ts != [] {
      var pre := ts[..|ts| - 1];
      var x := ts[|ts| - 1];
      FirstOccurrencesOrdered(pre);
      var p := FirstOccurrences(pre);
      var ks := FirstOccurrences(ts);
      assert ts == pre + [x];
      forall i, j | 0 <= i < j < |ks|
        ensures FirstIndex(ts, ks[i]) < FirstIndex(ts, ks[j])
      {
        assert ks[i] in p;
        FirstIndexPrefix(ts, ks[i]);
        if j < |p| {
          FirstIndexPrefix(ts, ks[j]);
        } else {
          assert ks[j] == x && x !in pre;
          assert FirstIndex(ts, x) == |ts| - 1;
        }
      }
    }
  }

  lemma DedupOrder(ps: seq<TrackPoint>)
    ensures forall i, j :: 0 <= i < j < |Dedup(ps)| ==>
      FirstIndex(Times(ps), Dedup(ps)[i].time) < FirstIndex(Times(ps), Dedup(ps)[j].time)
  {
    var r := Dedup(ps);
    FirstOccurrencesOrdered(Times(ps));
    forall i | 0 <= i < |r| ensures r[i].time == FirstOccurrences(Times(ps))[i] {
      assert Times(r)[i] == r[i].time;
    }
  }

  lemma {:induction false} FirstOccurrencesOfDistinct(ts: seq<int>)
    requires PairwiseDistinct(ts)
    ensures FirstOccurrences(ts) == ts
  {
    if ts != [] {
      var pre := ts[..|ts| - 1];
      FirstOccurrencesOfDistinct(pre);
      assert ts[|ts| - 1] !in pre;
      assert ts == pre + [ts[|ts| - 1]];
    }
  }

  /** Points whose times are already pairwise distinct pass unchanged. */
  lemma DedupOfDistinct(ps: seq<TrackPoint>)
    requires PairwiseDistinct(Times(ps))
    ensures Dedup(ps) == ps
  {
    FirstOccurrencesOfDistinct(Times(ps));
    DistinctPointTimes(ps);
    DedupKeepsAll(ps);
  }

  /** Distinct times, read off the points themselves. */
  lemma DistinctPointTimes(ps: seq<TrackPoint>)
    requires PairwiseDistinct(Times(ps))
    ensures forall i, m :: 0 <= i < m < |ps| ==> ps[i].time != ps[m].time
  {
    forall i, m | 0 <= i < m < |ps| ensures ps[i].time != ps[m].time {
      assert Times(ps)[i] != Times(ps)[m];
    }
  }

  /** When every time is a first occurrence and no time repeats, every point
      survives in place. */
  lemma DedupKeepsAll(ps: seq<TrackPoint>)
    requires FirstOccurrences(Times(ps)) == Times(ps)
    requires forall i, m :: 0 <= i < m < |ps| ==> ps[i].time != ps[m].time
    ensures Dedup(ps) == ps
  {
    var r := Dedup(ps);
    assert |r| == |ps|;
    forall i | 0 <= i < |ps| ensures r[i] == ps[i] {
      DedupAt(ps, i);
      LastIndexUnique(ps, ps[i].time, i);
    }
  }

  /** A point with time t that no later point shares is the last one with t. */
  lemma LastIndexUnique(ps: seq<TrackPoint>, t: int, j: nat)
    requires j < |ps| && ps[j].time == t
    requires forall m :: j < m < |ps| ==> ps[m].time != t
    ensures t in Times(ps) && LastIndexOfTime(ps, t) == j
  {
    assert Times(ps)[j] == t;
  }

  /** Deduplication is idempotent. */
  lemma DedupIdempotent(ps: seq<TrackPoint>)
    ensures Dedup(Dedup(ps)) == Dedup(ps)
  {
    DedupSurvivors(ps);
    DedupOfDistinct(Dedup(ps));
  }

  /** On a non-decreasing timeline the distinct times come out strictly
      increasing, from the first time to the last. */
  lemma {:induction false} FirstOccurrencesSorted(ts: seq<int>)
    requires NonDecreasing(ts)
    ensures StrictlyIncreasing(FirstOccurrences(ts))
    ensures ts != [] ==> |FirstOccurrences(ts)| >= 1
    ensures ts != [] ==> FirstOccurrences(ts)[0] == ts[0]
    ensures ts != [] ==> FirstOccurrences(ts)[|FirstOccurrences(ts)| - 1] == ts[|ts| - 1]
  {
    if |ts| >= 2 {
      var pre := ts[..|ts| - 1];
      var x := ts[|ts| - 1];
      FirstOccurrencesSorted(pre);
      var p := FirstOccurrences(pre);
      assert pre[|pre| - 1] <= x;
      forall t | t in p ensures t <= pre[|pre| - 1] {
        var k :| 0 <= k < |pre| && pre[k] == t;
      }
    } else if |ts| == 1 {
      assert ts[..0] == [];
    }
  }

  lemma DedupSorted(ps: seq<TrackPoint>)
    requires NonDecreasing(Times(ps))
    ensures StrictlyIncreasing(Times(Dedup(ps)))
    ensures ps != [] ==> Dedup(ps) != [] && Dedup(ps)[0].time == ps[0].time
    ensures ps != [] ==> Dedup(ps)[|Dedup(ps)| - 1].time == ps[|ps| - 1].time
  {
    FirstOccurrencesSorted(Times(ps));
  }
}
