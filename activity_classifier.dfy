/** Classification of a segment's motion from its mean velocity, and the
    periodic activity markers placed in the gaps between timed points. */
module ActivityClassifier {
  import opened Types

  /** Band edges in meters per second (5, 15 and 25 km/h). */
  const WalkingLimit: real := 5000.0 / 3600.0
  const MiddleRunningLimit: real := 15000.0 / 3600.0
  const VehicleLimit: real := 25000.0 / 3600.0

  /** The threshold ladder. The two running bands of the original are kept
      as two branches; the contract shows they form one band. */
  function FromMeanVelocity(v: real): (r: Result<ActivityType>)
    ensures r.Err? <==> v < 0.0
    ensures r.Err? ==> r.error == NegativeVelocity
    ensures v == 0.0 ==> r == Ok(Still)
    ensures 0.0 < v < WalkingLimit ==> r == Ok(Walking)
    ensures WalkingLimit <= v < VehicleLimit ==> r == Ok(Running)
    ensures VehicleLimit <= v ==> r == Ok(InVehicle)
    ensures r != Ok(OnBicycle)
  {
    if v < 0.0 then Err(NegativeVelocity)
    else if v == 0.0 then Ok(Still)
    else if 0.0 <= v < WalkingLimit then Ok(Walking)
    else if WalkingLimit <= v < MiddleRunningLimit then Ok(Running)
    else if MiddleRunningLimit <= v < VehicleLimit then Ok(Running)
    else Ok(InVehicle)
  }

  /** Activity types ordered by typical speed. */
  function Rank(a: ActivityType): nat
  {
    match a
    case Still => 0
    case Walking => 1
    case Running => 2
    case OnBicycle => 3
    case InVehicle => 4
  }

  /** A faster segment is never classified as slower motion. */
  lemma ClassificationMonotone(v: real, w: real)
    requires 0.0 <= v <= w
    ensures FromMeanVelocity(v).Ok? && FromMeanVelocity(w).Ok?
    ensures Rank(FromMeanVelocity(v).value) <= Rank(FromMeanVelocity(w).value)
  {
  }

  /** How many markers a gap of `gap` seconds receives: floor(gap / rate)
      when the gap exceeds the rate, none otherwise. A positive gap with a
      zero rate is a division by zero. */
  function MarkerCount(gap: int, rate: int): (r: Result<nat>)
    ensures r.Err? <==> rate == 0 && gap > 0
    ensures r.Err? ==> r.error == ZeroSamplingRate
    ensures rate > 0 ==> r == Ok(if gap > rate then gap / rate else 0)
    ensures rate > 0 && gap > rate ==> r.value >= 1 && r.value * rate <= gap < (r.value + 1) * rate
    ensures rate < 0 || gap <= rate ==> r == Ok(0)
  {
    if gap > rate then
      if rate == 0 then Err(ZeroSamplingRate)
      else
        var c := (gap as real / rate as real).Floor;
        if rate > 0 then
          FloorIsDivision(gap, rate, c);
          Ok(if c > 0 then c else 0)
        else
          NegativeRateFloor(gap, rate, c);
          Ok(if c > 0 then c else 0)
    else Ok(0)
  }

  /** The real floor of gap / rate is the integer quotient for a positive rate. */
  lemma FloorIsDivision(gap: int, rate: int, c: int)
    requires rate > 0
    requires c == (gap as real / rate as real).Floor
    ensures c == gap / rate
  {
    FloorBracket(gap, rate, c);
    QuotientUnique(gap, rate, c);
  }

  lemma FloorBracket(gap: int, rate: int, c: int)
    requires rate > 0
    requires c == (gap as real / rate as real).Floor
    ensures c * rate <= gap < (c + 1) * rate
  {
    var r := rate as real;
    var q := gap as real / r;
    assert q * r == gap as real;
    BracketScaled(c as real, q, (c + 1) as real, r, gap as real);
    ProductAsReal(c, rate);
    ProductAsReal(c + 1, rate);
  }

  /** A bracket around a quotient, multiplied back by the positive divisor. */
  lemma BracketScaled(lo: real, q: real, hi: real, r: real, g: real)
    requires r > 0.0 && q * r == g && lo <= q < hi
    ensures lo * r <= g < hi * r
  {
    ScaleReal(lo, q, r);
    ScaleReal(q, hi, r);
  }

  /** Integer products carry over to the reals. */
  lemma ProductAsReal(a: int, b: int)
    ensures (a * b) as real == a as real * b as real
  {
  }

  /** Multiplying by a positive factor keeps the order, strict or not. */
  lemma ScaleReal(x: real, y: real, r: real)
    requires r > 0.0 && x <= y
    ensures x * r <= y * r
    ensures x < y ==> x * r < y * r
  {
    assert y * r - x * r == (y - x) * r;
  }

  lemma QuotientUnique(gap: int, rate: int, c: int)
    requires rate > 0
    requires c * rate <= gap < (c + 1) * rate
    ensures c == gap / rate
  {
    var k := gap / rate;
    assert gap == k * rate + gap % rate;
    var d := c - k;
    assert d * rate == c * rate - k * rate;
    assert -rate < d * rate < rate;
    if d >= 1 {
      MultiplyAtLeastOnce(d, rate);
    } else if d <= -1 {
      MultiplyAtLeastOnce(-d, rate);
    }
  }

  lemma MultiplyAtLeastOnce(d: int, rate: int)
    requires d >= 1 && rate > 0
    ensures d * rate >= rate
  {
    assert d * rate == (d - 1) * rate + rate;
    assert (d - 1) * rate >= 0;
  }

  /** With a negative rate a gap above the rate gives a quotient below one. */
  lemma NegativeRateFloor(gap: int, rate: int, c: int)
    requires rate < 0 && gap > rate
    requires c == (gap as real / rate as real).Floor
    ensures c <= 0
  {
    var q := gap as real / rate as real;
    assert q * rate as real == gap as real;
  }

  /** `count` markers every `rate` seconds from `t` on. */
  function Markers(t: int, count: nat, rate: int, act: ActivityType): (ms: seq<Activity>)
    ensures |ms| == count
    ensures forall j :: 0 <= j < count ==> ms[j] == Activity(act, t + rate * j)
  {
    if count == 0 then [] else Markers(t, count - 1, rate, act) + [Activity(act, t + rate * (count - 1))]
  }

  /** The gap between point i and the next. */
  function Gap(ps: seq<TrackPoint>, i: nat): int
    requires i + 1 < |ps|
  {
    ps[i + 1].time - ps[i].time
  }

  /** The markers point i receives: one batch per pair, the final pair skipped. */
  function NewMarkers(ps: seq<TrackPoint>, i: nat, rate: int, act: ActivityType): seq<Activity>
    requires i < |ps|
  {
    if i < |ps| - 2 then
      match MarkerCount(Gap(ps, i), rate)
      case Ok(c) => Markers(ps[i].time, c, rate, act)
      case Err(_) => []
    else []
  }

  /** Specification of marker generation over a whole point list. */
  function Annotate(ps: seq<TrackPoint>, rate: int, act: ActivityType): Result<seq<TrackPoint>>
  {
    if exists i :: 0 <= i < |ps| - 2 && MarkerCount(Gap(ps, i), rate).Err? then Err(ZeroSamplingRate)
    else Ok(seq(|ps|, i requires 0 <= i < |ps| =>
                       ps[i].(activities := ps[i].activities + NewMarkers(ps, i, rate, act))))
  }

  /** State of marker generation after the first i pairs: those points
      carry their new markers, the rest are untouched. */
  ghost predicate AnnotatedUpTo(ps: seq<TrackPoint>, rate: int, act: ActivityType, cur: seq<TrackPoint>, i: nat)
  {
    && |cur| == |ps|
    && (i == 0 || i <= |ps| - 2)
    && (forall k :: 0 <= k < i ==> MarkerCount(Gap(ps, k), rate).Ok?)
    && (forall k :: 0 <= k < i ==> cur[k] == ps[k].(activities := ps[k].activities + NewMarkers(ps, k, rate, act)))
    && (forall k :: i <= k < |ps| ==> cur[k] == ps[k])
  }

  /** One pair: point i receives the markers of its gap. */
  lemma AnnotateStep(ps: seq<TrackPoint>, rate: int, act: ActivityType, cur: seq<TrackPoint>, i: nat, c: nat)
    requires AnnotatedUpTo(ps, rate, act, cur, i)
    requires i < |ps| - 2 && MarkerCount(Gap(ps, i), rate) == Ok(c)
    ensures AnnotatedUpTo(ps, rate, act, cur[i := ps[i].(activities := ps[i].activities + Markers(ps[i].time, c, rate, act))], i + 1)
  {
    assert NewMarkers(ps, i, rate, act) == Markers(ps[i].time, c, rate, act);
  }

  /** After the last measured pair the state is the specification's result. */
  lemma AnnotateDone(ps: seq<TrackPoint>, rate: int, act: ActivityType, cur: seq<TrackPoint>, i: nat)
    requires AnnotatedUpTo(ps, rate, act, cur, i)
    requires i == 0 || i == |ps| - 2
    requires |ps| > 2 ==> i == |ps| - 2
    ensures Annotate(ps, rate, act).Ok? && cur == Annotate(ps, rate, act).value
  {
    var out := Annotate(ps, rate, act).value;
    forall k | 0 <= k < |ps| ensures cur[k] == out[k] {
      if k >= i {
        assert NewMarkers(ps, k, rate, act) == [];
        assert ps[k].activities + [] == ps[k].activities;
      }
    }
  }

  /** The number of markers a point receives, by integer division. */
  function ExpectedCount(ps: seq<TrackPoint>, i: nat, rate: int): nat
    requires i < |ps|
  {
    if i < |ps| - 2 && rate > 0 && Gap(ps, i) > rate then Gap(ps, i) / rate else 0
  }

  /** Marker generation fails exactly on a zero rate meeting a positive gap;
      otherwise it keeps every point's position and time, keeps the markers a
      point already had, and appends exactly floor(gap / rate) markers at
      t, t + rate, ... to each point but the last two, all of the segment's
      single activity type. */
  lemma AnnotateMarkers(ps: seq<TrackPoint>, rate: int, act: ActivityType)
    ensures Annotate(ps, rate, act).Err? <==>
      rate == 0 && exists i :: 0 <= i < |ps| - 2 && ps[i + 1].time > ps[i].time
    ensures Annotate(ps, rate, act).Ok? ==>
      var out := Annotate(ps, rate, act).value;
      && |out| == |ps|
      && (forall i :: 0 <= i < |ps| ==> out[i] == ps[i].(activities := out[i].activities))
      && (forall i :: 0 <= i < |ps| ==>
            && |out[i].activities| == |ps[i].activities| + ExpectedCount(ps, i, rate)
            && out[i].activities[..|ps[i].activities|] == ps[i].activities
            && forall j :: 0 <= j < ExpectedCount(ps, i, rate) ==>
                 out[i].activities[|ps[i].activities| + j] == Activity(act, ps[i].time + rate * j))
  {
    AnnotateFails(ps, rate, act);
    if Annotate(ps, rate, act).Ok? {
      forall i | 0 <= i < |ps|
        ensures Annotate(ps, rate, act).value[i] == ps[i].(activities := Annotate(ps, rate, act).value[i].activities)
        ensures |Annotate(ps, rate, act).value[i].activities| == |ps[i].activities| + ExpectedCount(ps, i, rate)
        ensures Annotate(ps, rate, act).value[i].activities[..|ps[i].activities|] == ps[i].activities
        ensures forall j :: 0 <= j < ExpectedCount(ps, i, rate) ==>
          Annotate(ps, rate, act).value[i].activities[|ps[i].activities| + j] == Activity(act, ps[i].time + rate * j)
      {
        AnnotatePoint(ps, rate, act, i);
      }
    }
  }

  /** The failure case of marker generation. */
  lemma AnnotateFails(ps: seq<TrackPoint>, rate: int, act: ActivityType)
    ensures Annotate(ps, rate, act).Err? <==>
      rate == 0 && exists i :: 0 <= i < |ps| - 2 && ps[i + 1].time > ps[i].time
  {
    if Annotate(ps, rate, act).Err? {
      var i :| 0 <= i < |ps| - 2 && MarkerCount(Gap(ps, i), rate).Err?;
      assert ps[i + 1].time > ps[i].time;
    } else if rate == 0 {
      forall i | 0 <= i < |ps| - 2 ensures ps[i + 1].time <= ps[i].time {
        assert MarkerCount(Gap(ps, i), rate).Ok?;
      }
    }
  }

  /** What marker generation does to one point. */
  lemma AnnotatePoint(ps: seq<TrackPoint>, rate: int, act: ActivityType, i: nat)
    requires i < |ps| && Annotate(ps, rate, act).Ok?
    ensures var p := Annotate(ps, rate, act).value[i];
      && p == ps[i].(activities := p.activities)
      && |p.activities| == |ps[i].activities| + ExpectedCount(ps, i, rate)
      && p.activities[..|ps[i].activities|] == ps[i].activities
      && forall j :: 0 <= j < ExpectedCount(ps, i, rate) ==>
           p.activities[|ps[i].activities| + j] == Activity(act, ps[i].time + rate * j)
  {
    var p := Annotate(ps, rate, act).value[i];
    var ms := NewMarkers(ps, i, rate, act);
    assert p.activities == ps[i].activities + ms;
    if i < |ps| - 2 {
      assert MarkerCount(Gap(ps, i), rate).Ok?;
      assert |ms| == ExpectedCount(ps, i, rate);
    } else {
      assert ms == [];
    }
  }
}
