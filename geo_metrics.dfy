/** Distances and velocities over one segment's points.
    The geodesic distance itself belongs to a geodesy library; it enters
    here as the parameter `dist`. */
module GeoMetrics {
  import opened Types

  type DistanceFn = (LatLon, LatLon) -> real

  /** What the geodesy library guarantees and the lemmas rely on. */
  ghost predicate NonNegative(dist: DistanceFn)
  {
    forall a, b :: dist(a, b) >= 0.0
  }

  /** Distance between two points; the elevation plays no part. */
  function Distance(dist: DistanceFn, p: TrackPoint, q: TrackPoint): real
  {
    dist(p.Position(), q.Position())
  }

  /** Total length of legs 0 .. k-1, that is, of the path ps[0], ..., ps[k]. */
  function Legs(ps: seq<TrackPoint>, dist: DistanceFn, k: nat): real
    requires k == 0 || k < |ps|
  {
    if k == 0 then 0.0 else Legs(ps, dist, k - 1) + Distance(dist, ps[k - 1], ps[k])
  }

  /** How many legs the distance sum measures: every leg but the last. */
  function MeasuredLegs(n: nat): nat
  {
    if n >= 2 then n - 2 else 0
  }

  /** Reference definition: the length of the whole path, every leg included. */
  function PathLength(ps: seq<TrackPoint>, dist: DistanceFn): real
  {
    if |ps| < 2 then 0.0 else Distance(dist, ps[0], ps[1]) + PathLength(ps[1..], dist)
  }

  /** The distance sum of a point list, accumulated leg by leg. */
  method DistanceSum(points: seq<TrackPoint>, dist: DistanceFn) returns (d: real)
    ensures d == Legs(points, dist, MeasuredLegs(|points|))
  {
    d := 0.0;
    var i := 0;
    while i < |points| - 2
      invariant 0 <= i <= MeasuredLegs(|points|)
      invariant d == Legs(points, dist, i)
    {
      d := d + Distance(dist, points[i], points[i + 1]);
      i := i + 1;
    }
  }

  lemma {:induction false} LegsNonNegative(ps: seq<TrackPoint>, dist: DistanceFn, k: nat)
    requires NonNegative(dist)
    requires k == 0 || k < |ps|
    ensures Legs(ps, dist, k) >= 0.0
  {
    if k > 0 {
      LegsNonNegative(ps, dist, k - 1);
      assert dist(ps[k - 1].Position(), ps[k].Position()) >= 0.0;
    }
  }

  lemma {:induction false} PathLengthSnoc(ps: seq<TrackPoint>, q: TrackPoint, dist: DistanceFn)
    requires |ps| >= 1
    ensures PathLength(ps + [q], dist) == PathLength(ps, dist) + Distance(dist, ps[|ps| - 1], q)
  {
    if |ps| >= 2 {
      assert (ps + [q])[1..] == ps[1..] + [q];
      PathLengthSnoc(ps[1..], q, dist);
    }
  }

  /** The legs summed from the front are the path length of the prefix they span. */
  lemma {:induction false} LegsArePrefixLength(ps: seq<TrackPoint>, dist: DistanceFn, k: nat)
    requires k < |ps|
    ensures Legs(ps, dist, k) == PathLength(ps[..k + 1], dist)
  {
    if k > 0 {
      LegsArePrefixLength(ps, dist, k - 1);
      assert ps[..k + 1] == ps[..k] + [ps[k]];
      PathLengthSnoc(ps[..k], ps[k], dist);
    }
  }

  /** The distance sum leaves out the final leg: it is the length of the path
      without its last point, and it is zero for two points or fewer. */
  lemma DistanceSumSkipsLastLeg(ps: seq<TrackPoint>, dist: DistanceFn)
    ensures |ps| <= 2 ==> Legs(ps, dist, MeasuredLegs(|ps|)) == 0.0
    ensures |ps| >= 2 ==> Legs(ps, dist, MeasuredLegs(|ps|)) == PathLength(ps[..|ps| - 1], dist)
    ensures |ps| >= 2 ==>
      Legs(ps, dist, MeasuredLegs(|ps|)) + Distance(dist, ps[|ps| - 2], ps[|ps| - 1]) == PathLength(ps, dist)
  {
    if |ps| >= 2 {
      var n := |ps|;
      LegsArePrefixLength(ps, dist, n - 2);
      assert ps[..n - 2 + 1] == ps[..n - 1];
      PathLengthDropLast(ps, dist);
    }
  }

  lemma PathLengthDropLast(ps: seq<TrackPoint>, dist: DistanceFn)
    requires |ps| >= 2
    ensures PathLength(ps[..|ps| - 1], dist) + Distance(dist, ps[|ps| - 2], ps[|ps| - 1]) == PathLength(ps, dist)
  {
    var init := ps[..|ps| - 1];
    var q := ps[|ps| - 1];
    PathLengthSnoc(init, q, dist);
    assert init + [q] == ps;
  }

  /** Mean velocity: the distance sum over the length of the window. */
  function MeanVelocity(points: seq<TrackPoint>, interval: Interval, dist: DistanceFn): (r: Result<real>)
    ensures r.Err? <==> interval.end == interval.start
    ensures r.Err? ==> r.error == ZeroLengthWindow
    ensures r.Ok? ==> r.value * (interval.end - interval.start) as real == Legs(points, dist, MeasuredLegs(|points|))
  {
    if interval.end == interval.start then Err(ZeroLengthWindow)
    else Ok(Legs(points, dist, MeasuredLegs(|points|)) / (interval.end - interval.start) as real)
  }

  /** The sign of the mean velocity on a forward window. */
  lemma MeanVelocitySign(points: seq<TrackPoint>, interval: Interval, dist: DistanceFn)
    requires NonNegative(dist)
    requires interval.start < interval.end
    ensures MeanVelocity(points, interval, dist).Ok?
    ensures MeanVelocity(points, interval, dist).value >= 0.0
    ensures MeanVelocity(points, interval, dist).value == 0.0 <==> Legs(points, dist, MeasuredLegs(|points|)) == 0.0
  {
    LegsNonNegative(points, dist, MeasuredLegs(|points|));
  }

  /** Python's int() on a float: truncation toward zero. */
  function Trunc(x: real): (r: int)
    ensures x >= 0.0 ==> r >= 0 && r as real <= x < r as real + 1.0
    ensures x < 0.0 ==> r <= 0 && r as real - 1.0 < x <= r as real
  {
    if x >= 0.0 then x.Floor else -((-x).Floor)
  }

  /** Whole seconds to travel from p to q at the given velocity. */
  function TimeDiff(dist: DistanceFn, p: TrackPoint, q: TrackPoint, velocity: real): (r: Result<int>)
    ensures r.Err? <==> velocity == 0.0
    ensures r.Err? ==> r.error == ZeroVelocity
    ensures r.Ok? && velocity > 0.0 && Distance(dist, p, q) >= 0.0 ==>
      r.value >= 0 && r.value as real <= Distance(dist, p, q) / velocity < (r.value + 1) as real
  {
    if velocity == 0.0 then Err(ZeroVelocity)
    else Ok(Trunc(Distance(dist, p, q) / velocity))
  }

  /** The travel time looks only at the two positions. */
  lemma TimeDiffByPosition(dist: DistanceFn, p: TrackPoint, q: TrackPoint, p': TrackPoint, q': TrackPoint, velocity: real)
    requires p.Position() == p'.Position() && q.Position() == q'.Position()
    ensures TimeDiff(dist, p, q, velocity) == TimeDiff(dist, p', q', velocity)
  {
    assert Distance(dist, p, q) == Distance(dist, p', q');
  }
}
