/** Whether any two segments of a track claim overlapping time windows. */
module OverlapChecker {
  import opened Types
  import opened TrackSegments

  /** Instant t lies in the closed window. */
  predicate Contains(i: Interval, t: int)
  {
    i.start <= t <= i.end
  }

  /** The overlap test on two windows: each starts no later than the other ends. */
  predicate Overlap(a: Interval, b: Interval)
  {
    a.start <= b.end && b.start <= a.end
  }

  /** On windows that do not run backwards the test means exactly that some
      instant lies in both, and so it does not depend on the order of its
      arguments; windows that only touch at an end overlap. */
  lemma OverlapMeansSharedInstant(a: Interval, b: Interval)
    requires a.start <= a.end && b.start <= b.end
    ensures Overlap(a, b) <==> exists t :: Contains(a, t) && Contains(b, t)
    ensures Overlap(a, b) <==> Overlap(b, a)
    ensures a.end == b.start ==> Overlap(a, b)
  {
    if Overlap(a, b) {
      var t := if a.start <= b.start then b.start else a.start;
      assert Contains(a, t) && Contains(b, t);
    }
  }

  /** Two distinct segments of the list overlap in time. */
  ghost predicate SomeOverlap(segments: seq<TrackSegment>)
  {
    exists i, j :: 0 <= i < |segments| && 0 <= j < |segments| &&
      segments[i] != segments[j] && Overlap(segments[i].interval, segments[j].interval)
  }

  /** Compares every segment with every other one, stopping at the first
      overlapping pair. Segments are compared by identity, so a segment
      listed twice is compared with itself and does not count. */
  method SegmentOverlap(segments: seq<TrackSegment>) returns (found: bool)
    ensures found <==> SomeOverlap(segments)
    ensures |segments| <= 1 ==> !found
  {
    var i := 0;
    while i < |segments|
      invariant 0 <= i <= |segments|
      invariant forall a, b :: 0 <= a < i && 0 <= b < |segments| ==>
        !(segments[a] != segments[b] && Overlap(segments[a].interval, segments[b].interval))
    {
      var j := 0;
      while j < |segments|
        invariant 0 <= j <= |segments|
        invariant forall a, b :: 0 <= a < i && 0 <= b < |segments| ==>
          !(segments[a] != segments[b] && Overlap(segments[a].interval, segments[b].interval))
        invariant forall b :: 0 <= b < j ==>
          !(segments[i] != segments[b] && Overlap(segments[i].interval, segments[b].interval))
      {
        if segments[i] != segments[j] && Overlap(segments[i].interval, segments[j].interval) {
          return true;
        }
        j := j + 1;
      }
      i := i + 1;
    }
    return false;
  }

  /** Whether an overlap is found depends only on which segments are listed,
      not on their order or repetitions. */
  lemma SomeOverlapDependsOnMembersOnly(s: seq<TrackSegment>, u: seq<TrackSegment>)
    requires forall x :: x in s <==> x in u
    ensures SomeOverlap(s) <==> SomeOverlap(u)
  {
    if SomeOverlap(s) {
      OverlapCarriesOver(s, u);
    }
    if SomeOverlap(u) {
      OverlapCarriesOver(u, s);
    }
  }

  lemma OverlapCarriesOver(s: seq<TrackSegment>, u: seq<TrackSegment>)
    requires forall x :: x in s ==> x in u
    requires SomeOverlap(s)
    ensures SomeOverlap(u)
  {
    var i, j :| 0 <= i < |s| && 0 <= j < |s| && s[i] != s[j] && Overlap(s[i].interval, s[j].interval);
    assert s[i] in u && s[j] in u;
    var k :| 0 <= k < |u| && u[k] == s[i];
    var l :| 0 <= l < |u| && u[l] == s[j];
    assert u[k] != u[l] && Overlap(u[k].interval, u[l].interval);
  }
}
