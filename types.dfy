/** Value types shared by every component of one track segment's pipeline. */
module Types {

  /** Why a segment is rejected. Each one stands for the exception the
      pipeline raises at that point. */
  datatype Error =
    | EmptySegment      // the segment has no points: indexing point 0 fails
    | ZeroLengthWindow  // mean velocity divides by end - start == 0
    | NegativeVelocity  // a negative mean velocity has no activity type
    | ZeroVelocity      // a leg's travel time divides by a zero velocity
    | ZeroSamplingRate  // a positive gap is divided by a zero sampling rate

  datatype Result<T> = Ok(value: T) | Err(error: Error) {
    predicate IsFailure() { Err? }
    function PropagateFailure<U>(): Result<U> requires Err? { Err(error) }
    function Extract(): T requires Ok? { value }
  }

  /** A segment's declared time window, in epoch seconds. */
  datatype Interval = Interval(start: int, end: int)

  /** The part of a point the geodesic distance looks at. */
  datatype LatLon = LatLon(lat: real, lon: real)

  /** One waypoint as the GPX reader delivers it: no timestamp. */
  datatype Waypoint = Waypoint(lat: real, lon: real, ele: real)

  datatype ActivityType = InVehicle | OnBicycle | Running | Still | Walking

  /** One periodic activity marker. */
  datatype Activity = Activity(activityType: ActivityType, time: int)

  datatype TrackPoint = TrackPoint(lat: real, lon: real, ele: real, time: int, activities: seq<Activity>)
  {
    function Position(): LatLon { LatLon(lat, lon) }
  }

  /** A freshly ingested point: time 0 and no markers. */
  function FromWaypoint(w: Waypoint): TrackPoint
  {
    TrackPoint(w.lat, w.lon, w.ele, 0, [])
  }

  /** The timestamps of a point list, in order. */
  function Times(ps: seq<TrackPoint>): (ts: seq<int>)
    ensures |ts| == |ps|
    ensures forall i :: 0 <= i < |ps| ==> ts[i] == ps[i].time
  {
    seq(|ps|, i requires 0 <= i < |ps| => ps[i].time)
  }

  ghost predicate NonDecreasing(ts: seq<int>)
  {
    forall i, j :: 0 <= i <= j < |ts| ==> ts[i] <= ts[j]
  }

  ghost predicate StrictlyIncreasing(ts: seq<int>)
  {
    forall i, j :: 0 <= i < j < |ts| ==> ts[i] < ts[j]
  }

  ghost predicate PairwiseDistinct(ts: seq<int>)
  {
    forall i, j :: 0 <= i < j < |ts| ==> ts[i] != ts[j]
  }
}
