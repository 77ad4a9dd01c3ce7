/**
 * The GPS track of hw3/track.c: a sequence of segments, each a sequence of
 * trackpoints, with a per-segment point counter (nTrkptArr) and a total
 * counter (totalTrkpt) kept beside the points.  A trackpoint is a location
 * and a timestamp; location_validate (location.c) is not part of this model
 * and is passed in as a predicate.  Segment lengths, the heatmap and the
 * array capacities are left out.
 */
module Track {
  import opened Locations

  datatype TrackPoint = TrackPoint(loc: Loc, time: int)

  type Segment = seq<TrackPoint>

  /** segArr, nTrkptArr and totalTrkpt of struct track; nSeg is |segs|. */
  datatype Track = Track(segs: seq<Segment>, counts: seq<int>, total: int)

  /** All points of a track, segment after segment. */
  function Flatten(ss: seq<Segment>): seq<TrackPoint> {
    if ss == [] then [] else Flatten(ss[..|ss| - 1]) + ss[|ss| - 1]
  }

  /** Timestamps strictly increase along the sequence. */
  predicate Increasing(ps: seq<TrackPoint>) {
    forall i, j | 0 <= i < j < |ps| :: ps[i].time < ps[j].time
  }

  /** Sum of the per-segment counters. */
  function Sum(cs: seq<int>): int {
    if cs == [] then 0 else Sum(cs[..|cs| - 1]) + cs[|cs| - 1]
  }

  /**
   * The counters agree with the points, and the points, read in segment
   * order, have strictly increasing times.
   */
  predicate Counted(t: Track) {
    && |t.counts| == |t.segs|
    && (forall i | 0 <= i < |t.segs| :: t.counts[i] == |t.segs[i]|)
    && t.total == |Flatten(t.segs)|
    && Increasing(Flatten(t.segs))
  }

  /** Counted, and there is a current (last) segment. */
  predicate Inv(t: Track) {
    Counted(t) && |t.segs| >= 1
  }

  lemma {:induction false} FlattenConcat(a: seq<Segment>, b: seq<Segment>)
    ensures Flatten(a + b) == Flatten(a) + Flatten(b)
    decreases |b|
  {
    if b == [] {
      assert a + b == a;
    } else {
      var b' := b[..|b| - 1];
      assert (a + b)[..|a + b| - 1] == a + b';
      FlattenConcat(a, b');
    }
  }

  lemma FlattenOne(s: Segment)
    ensures Flatten([s]) == s
  {
    assert [s][..0] == [];
  }

  /** Appending a segment appends its points. */
  lemma FlattenSnoc(ss: seq<Segment>, s: Segment)
    ensures Flatten(ss + [s]) == Flatten(ss) + s
  {
    assert (ss + [s])[..|ss|] == ss;
  }

  lemma {:induction false} SumMatches(t: Track, n: nat)
    requires |t.counts| == |t.segs| && n <= |t.segs|
    requires forall i | 0 <= i < |t.segs| :: t.counts[i] == |t.segs[i]|
    ensures Sum(t.counts[..n]) == |Flatten(t.segs[..n])|
  {
    if n > 0 {
      SumMatches(t, n - 1);
      assert t.counts[..n][..n - 1] == t.counts[..n - 1];
      assert t.segs[..n][..n - 1] == t.segs[..n - 1];
    }
  }

  /** totalTrkpt is the sum of the per-segment counters. */
  lemma TotalIsSum(t: Track)
    requires Inv(t)
    ensures t.total == Sum(t.counts)
  {
    SumMatches(t, |t.segs|);
    assert t.counts[..|t.segs|] == t.counts;
    assert t.segs[..|t.segs|] == t.segs;
  }

  /** track_start_segment: one more, empty, segment; nothing else changes. */
  function StartSegment(t: Track): (r: Track)
    requires Counted(t)
    ensures Inv(r) && |r.segs| == |t.segs| + 1
    ensures r.segs[..|t.segs|] == t.segs && r.segs[|t.segs|] == []
    ensures Flatten(r.segs) == Flatten(t.segs) && r.total == t.total
  {
    FlattenSnoc(t.segs, []);
    Track(t.segs + [[]], t.counts + [0], t.total)
  }

  /** track_create: no segments and no points, then track_start_segment. */
  function Create(): (t: Track)
    ensures Inv(t) && |t.segs| == 1 && t.segs[0] == [] && t.total == 0
    ensures Flatten(t.segs) == []
  {
    StartSegment(Track([], [], 0))
  }

  /** track_count_segments. */
  function CountSegments(t: Track): (n: int)
    requires Inv(t)
    ensures n >= 1 && n == |t.segs|
  {
    |t.segs|
  }

  /** track_count_points: the counter of segment i, which is its number of points. */
  function CountPoints(t: Track, i: int): (c: int)
    requires Inv(t) && 0 <= i < |t.segs|
    ensures c == |t.segs[i]|
  {
    t.counts[i]
  }

  /** Number of points in the segments before segment i. */
  function Offset(t: Track, i: int): nat
    requires 0 <= i <= |t.segs|
  {
    |Flatten(t.segs[..i])|
  }

  lemma SplitAt(ss: seq<Segment>, i: int)
    requires 0 <= i < |ss|
    ensures Flatten(ss) == Flatten(ss[..i]) + ss[i] + Flatten(ss[i + 1..])
  {
    var a, b := ss[..i], ss[i + 1..];
    assert ss == (a + [ss[i]]) + b;
    FlattenConcat(a + [ss[i]], b);
    FlattenSnoc(a, ss[i]);
  }

  /**
   * track_get_point: point j of segment i, which is the point at position
   * Offset(t, i) + j when the track is read as one sequence.
   */
  function GetPoint(t: Track, i: int, j: int): (p: TrackPoint)
    requires Inv(t) && 0 <= i < |t.segs| && 0 <= j < CountPoints(t, i)
    ensures Offset(t, i) + j < |Flatten(t.segs)| && p == Flatten(t.segs)[Offset(t, i) + j]
  {
    SplitAt(t.segs, i);
    t.segs[i][j]
  }

  /** A point of an earlier segment is strictly earlier than every point of a later one. */
  lemma SegmentsInTimeOrder(t: Track, i: int, j: int, k: int, l: int)
    requires Inv(t) && 0 <= i < k < |t.segs|
    requires 0 <= j < CountPoints(t, i) && 0 <= l < CountPoints(t, k)
    ensures GetPoint(t, i, j).time < GetPoint(t, k, l).time
  {
    var p := GetPoint(t, i, j);
    var q := GetPoint(t, k, l);
    SplitAt(t.segs[..k], i);
    assert t.segs[..k][..i] == t.segs[..i];
    assert Offset(t, i) + j < Offset(t, k) by {
      assert |Flatten(t.segs[..k])| >= |Flatten(t.segs[..i])| + |t.segs[i]|;
    }
  }

  /** The last point of the track, if it has any. */
  function LastPoint(t: Track): (p: TrackPoint)
    requires Flatten(t.segs) != []
  {
    Flatten(t.segs)[|Flatten(t.segs)| - 1]
  }

  /**
   * What add_point reads when the current segment is empty: the last point
   * of the segment before, which therefore must have one.
   */
  predicate PreviousReadable(t: Track) {
    |t.segs| >= 1 &&
    (t.segs[|t.segs| - 1] != [] || |t.segs| == 1 || t.segs[|t.segs| - 2] != [])
  }

  /** The point add_point accepts: a valid location, later than every point so far. */
  predicate Admits(t: Track, pt: TrackPoint, valid: Loc -> bool) {
    valid(pt.loc) && (Flatten(t.segs) == [] || LastPoint(t).time < pt.time)
  }

  /** The point add_point compares against is the last point of the whole track. */
  lemma LastOfTrack(t: Track)
    requires Inv(t) && PreviousReadable(t)
    ensures var n := |t.segs|;
            var cur := t.segs[n - 1];
            && (cur != [] ==> Flatten(t.segs) != [] && LastPoint(t) == cur[|cur| - 1])
            && (cur == [] && n == 1 ==> Flatten(t.segs) == [])
            && (cur == [] && n > 1 ==>
                  Flatten(t.segs) != [] && LastPoint(t) == t.segs[n - 2][|t.segs[n - 2]| - 1])
  {
    var n := |t.segs|;
    assert t.segs == t.segs[..n - 1] + [t.segs[n - 1]];
    FlattenSnoc(t.segs[..n - 1], t.segs[n - 1]);
    if n > 1 {
      assert t.segs[..n - 1] == t.segs[..n - 2] + [t.segs[n - 2]];
      FlattenSnoc(t.segs[..n - 2], t.segs[n - 2]);
    } else {
      assert t.segs[..0] == [];
    }
  }

  /** Appending a point later than every other keeps the times increasing. */
  lemma IncreasingSnoc(ps: seq<TrackPoint>, pt: TrackPoint)
    requires Increasing(ps) && (ps == [] || ps[|ps| - 1].time < pt.time)
    ensures Increasing(ps + [pt])
  {
    var qs := ps + [pt];
    forall i, j | 0 <= i < j < |qs| ensures qs[i].time < qs[j].time {
      if j == |ps| {
        assert qs[i].time <= ps[|ps| - 1].time;
      }
    }
  }

  /** Appends `pt` to the current segment; every other segment and counter is kept. */
  function Append(t: Track, pt: TrackPoint): (r: Track)
    requires Inv(t) && Admits(t, pt, _ => true)
    ensures Inv(r) && |r.segs| == |t.segs| && r.total == t.total + 1
    ensures Flatten(r.segs) == Flatten(t.segs) + [pt]
    ensures r.segs[..|t.segs| - 1] == t.segs[..|t.segs| - 1]
    ensures r.segs[|t.segs| - 1] == t.segs[|t.segs| - 1] + [pt]
  {
    var n := |t.segs|;
    var r := Track(t.segs[n - 1 := t.segs[n - 1] + [pt]], t.counts[n - 1 := t.counts[n - 1] + 1], t.total + 1);
    assert t.segs == t.segs[..n - 1] + [t.segs[n - 1]];
    assert r.segs == t.segs[..n - 1] + [t.segs[n - 1] + [pt]];
    FlattenSnoc(t.segs[..n - 1], t.segs[n - 1]);
    FlattenSnoc(t.segs[..n - 1], t.segs[n - 1] + [pt]);
    IncreasingSnoc(Flatten(t.segs), pt);
    r
  }

  /**
   * track_add_point: ignored for an invalid location and for a point not
   * strictly later than the last point of the current segment (or, when
   * that segment is empty, of the segment before); otherwise appended to
   * the current segment.
   */
  function AddPoint(t: Track, pt: TrackPoint, valid: Loc -> bool): (r: Track)
    requires Inv(t) && PreviousReadable(t)
    ensures Inv(r)
    ensures !Admits(t, pt, valid) ==> r == t
    ensures Admits(t, pt, valid) ==>
              && |r.segs| == |t.segs| && r.total == t.total + 1
              && Flatten(r.segs) == Flatten(t.segs) + [pt]
              && r.segs[..|t.segs| - 1] == t.segs[..|t.segs| - 1]
              && r.segs[|t.segs| - 1] == t.segs[|t.segs| - 1] + [pt]
  {
    var n := |t.segs|;
    var cur := t.segs[n - 1];
    LastOfTrack(t);
    if !valid(pt.loc) then t
    else if |cur| > 0 && cur[|cur| - 1].time >= pt.time then t
    else if |cur| == 0 && n > 1 && t.segs[n - 2][|t.segs[n - 2]| - 1].time >= pt.time then t
    else Append(t, pt)
  }

  /**
   * track_merge_segments: segments start .. end-1 become one segment at
   * position start holding their points in order, later segments move
   * down, and the points of the track as a whole are unchanged.  The
   * length update reads the last point of the growing segment and the
   * first point of each segment merged into it, so those must exist.
   */
  method MergeSegments(t: Track, start: int, end: int) returns (r: Track)
    requires Inv(t) && 0 <= start < end <= |t.segs|
    requires end == start + 1 || forall i | start <= i < end :: t.segs[i] != []
    ensures Inv(r) && r.total == t.total
    ensures Flatten(r.segs) == Flatten(t.segs)
    ensures |r.segs| == |t.segs| - (end - start - 1)
    ensures r.segs[..start] == t.segs[..start]
    ensures r.segs[start] == Flatten(t.segs[start..end])
    ensures forall i | start < i < |r.segs| :: r.segs[i] == t.segs[i + (end - start - 1)]
  {
    var final := t.segs[start];
    var count := t.counts[start];
    FlattenOne(t.segs[start]);
    assert t.segs[start..start + 1] == [t.segs[start]];
    var i := start + 1;
    while i < end
      invariant start + 1 <= i <= end
      invariant final == Flatten(t.segs[start..i]) && count == |final|
    {
      var seg := t.segs[i];
      final, count := AppendPoints(final, count, seg, t.counts[i]);
      assert t.segs[start..i + 1] == t.segs[start..i] + [seg];
      FlattenSnoc(t.segs[start..i], seg);
      i := i + 1;
    }
    r := Spliced(t, start, end, final, count);
    SplicedShape(t, start, end, final, count);
    SplicedPoints(t, start, end, final, count);
    SplicedCounted(t, start, end, final, count);
  }

  /** The inner loop of the merge: the points of `seg` moved one by one onto `final`. */
  method AppendPoints(final: Segment, count: int, seg: Segment, n: int) returns (f: Segment, c: int)
    requires count == |final| && n == |seg|
    ensures f == final + seg && c == |f|
  {
    f, c := final, count;
    var j := 0;
    while j < n
      invariant 0 <= j <= |seg|
      invariant f == final + seg[..j] && c == |f|
    {
      f := f + [seg[j]];
      c := c + 1;
      j := j + 1;
      assert seg[..j] == seg[..j - 1] + [seg[j - 1]];
    }
    assert seg[..j] == seg;
  }

  /** The track with segments start .. end-1 replaced by the single segment `final`. */
  function Spliced(t: Track, start: int, end: int, final: Segment, count: int): Track
    requires 0 <= start < end <= |t.segs| && |t.counts| == |t.segs|
  {
    Track(t.segs[..start] + [final] + t.segs[end..],
          t.counts[..start] + [count] + t.counts[end..], t.total)
  }

  lemma SplicedShape(t: Track, start: int, end: int, final: Segment, count: int)
    requires 0 <= start < end <= |t.segs| && |t.counts| == |t.segs|
    ensures var r := Spliced(t, start, end, final, count);
            && |r.segs| == |t.segs| - (end - start - 1) && |r.counts| == |r.segs|
            && r.segs[..start] == t.segs[..start] && r.segs[start] == final
            && r.counts[..start] == t.counts[..start] && r.counts[start] == count
            && (forall i | start < i < |r.segs| ::
                  r.segs[i] == t.segs[i + (end - start - 1)] && r.counts[i] == t.counts[i + (end - start - 1)])
  {
  }

  lemma SplicedPoints(t: Track, start: int, end: int, final: Segment, count: int)
    requires 0 <= start < end <= |t.segs| && |t.counts| == |t.segs|
    requires final == Flatten(t.segs[start..end])
    ensures Flatten(Spliced(t, start, end, final, count).segs) == Flatten(t.segs)
  {
    var a, m, b := t.segs[..start], t.segs[start..end], t.segs[end..];
    assert t.segs == (a + m) + b;
    FlattenConcat(a + m, b);
    FlattenConcat(a, m);
    FlattenConcat(a + [final], b);
    FlattenSnoc(a, final);
  }

  lemma SplicedCounted(t: Track, start: int, end: int, final: Segment, count: int)
    requires Inv(t) && 0 <= start < end <= |t.segs|
    requires final == Flatten(t.segs[start..end]) && count == |final|
    ensures Inv(Spliced(t, start, end, final, count))
  {
    var r := Spliced(t, start, end, final, count);
    SplicedShape(t, start, end, final, count);
    SplicedPoints(t, start, end, final, count);
    forall i | 0 <= i < |r.segs| ensures r.counts[i] == |r.segs[i]| {
      if i < start {
        assert r.segs[i] == r.segs[..start][i] && r.counts[i] == r.counts[..start][i];
      }
    }
  }
}
