/**
 Sampling a planned path at half a cell and checking that every sample is known free space.
 The Euclidean length of a segment comes from a parameter `hypot` with its defining property.
 */
module PathSampling {
  import opened Options
  import opened OccupancyGrid

  function Length(hypot: Hypot, a: Point, b: Point): real {
    hypot(b.x - a.x, b.y - a.y)
  }

  function StepCount(length: real, maximum: real): (n: nat)
    requires maximum > 0.0
    ensures n >= 1
  {
    var needed := Ceil(length / maximum);
    if needed > 1 then needed else 1
  }

  /** The point a fraction `t` along the way from `a` to `b`. */
  function Along(a: Point, b: Point, t: real): Point {
    Point(a.x + (b.x - a.x) * t, a.y + (b.y - a.y) * t)
  }

  function Sample(a: Point, b: Point, index: nat, steps: nat): Point
    requires steps >= 1
  {
    Point(a.x + (b.x - a.x) * index as real / steps as real, a.y + (b.y - a.y) * index as real / steps as real)
  }

  function Segment(a: Point, b: Point, steps: nat): (s: seq<Point>)
    requires steps >= 1
    ensures |s| == steps
  {
    seq(steps, k requires 0 <= k < steps => Sample(a, b, k + 1, steps))
  }

  function SegmentSteps(hypot: Hypot, path: seq<Point>, k: nat, maximum: real): (n: nat)
    requires maximum > 0.0 && k + 1 < |path|
    ensures n >= 1
  {
    StepCount(Length(hypot, path[k], path[k + 1]), maximum)
  }

  /** Where pose `k` of the path lands among the samples. */
  ghost function PoseIndex(hypot: Hypot, path: seq<Point>, maximum: real, k: nat): (n: nat)
    requires maximum > 0.0 && k < |path|
    ensures k <= n
  {
    if k == 0 then 0 else PoseIndex(hypot, path, maximum, k - 1) + SegmentSteps(hypot, path, k - 1, maximum)
  }

  datatype Sampled = Dense(points: seq<Point>) | BadStep

  /**
   The samples start at the first pose, and segment `k` puts its evenly spaced samples after pose
   `k`, ending at pose `k + 1`.
   */
  ghost predicate IsDense(hypot: Hypot, path: seq<Point>, maximum: real, points: seq<Point>, poses: nat)
    requires maximum > 0.0 && poses <= |path|
  {
    if poses == 0 then points == []
    else
      && |points| == PoseIndex(hypot, path, maximum, poses - 1) + 1
      && points[0] == path[0]
      && forall k, i {:trigger SampleAt(hypot, path, maximum, points, k, i)} ::
           0 <= k < poses - 1 && 1 <= i <= SegmentSteps(hypot, path, k, maximum) ==>
             SampleAt(hypot, path, maximum, points, k, i)
  }

  ghost predicate SampleAt(hypot: Hypot, path: seq<Point>, maximum: real, points: seq<Point>, k: nat, i: nat)
    requires maximum > 0.0 && k + 1 < |path|
  {
    var at := PoseIndex(hypot, path, maximum, k) + i;
    at < |points| && points[at] == Sample(path[k], path[k + 1], i, SegmentSteps(hypot, path, k, maximum))
  }

  method DensifyPath(hypot: Hypot, path: seq<Point>, maximum: real) returns (result: Sampled)
    ensures result.BadStep? <==> maximum <= 0.0
    ensures result.Dense? ==> IsDense(hypot, path, maximum, result.points, |path|)
  {
    if maximum <= 0.0 {
      return BadStep;
    }
    if path == [] {
      return Dense([]);
    }
    var points := [path[0]];
    for k := 0 to |path| - 1
      invariant IsDense(hypot, path, maximum, points, k + 1)
    {
      var steps := SegmentSteps(hypot, path, k, maximum);
      ghost var before := points;
      points := points + Segment(path[k], path[k + 1], steps);
      forall l, i | 0 <= l < k + 1 && 1 <= i <= SegmentSteps(hypot, path, l, maximum)
        ensures SampleAt(hypot, path, maximum, points, l, i)
      {
        if l < k {
          assert SampleAt(hypot, path, maximum, before, l, i);
        }
      }
    }
    return Dense(points);
  }

  // ----- What the samples guarantee -----

  lemma LastSampleIsEnd(a: Point, b: Point, steps: nat)
    requires steps >= 1
    ensures Sample(a, b, steps, steps) == b && Sample(a, b, 0, steps) == a
  {
  }

  /** Every pose of the path is among the samples, in order. */
  lemma PosesAreSampled(hypot: Hypot, path: seq<Point>, maximum: real, points: seq<Point>, k: nat)
    requires maximum > 0.0 && k < |path| && IsDense(hypot, path, maximum, points, |path|)
    ensures PoseIndex(hypot, path, maximum, k) < |points| && points[PoseIndex(hypot, path, maximum, k)] == path[k]
    ensures k > 0 ==> PoseIndex(hypot, path, maximum, k - 1) < PoseIndex(hypot, path, maximum, k)
  {
    if k > 0 {
      var steps := SegmentSteps(hypot, path, k - 1, maximum);
      assert SampleAt(hypot, path, maximum, points, k - 1, steps);
      LastSampleIsEnd(path[k - 1], path[k], steps);
    }
  }

  /** The samples keep both ends of the path. */
  lemma EndsAreKept(hypot: Hypot, path: seq<Point>, maximum: real, points: seq<Point>)
    requires maximum > 0.0 && path != [] && IsDense(hypot, path, maximum, points, |path|)
    ensures points != [] && points[0] == path[0] && points[|points| - 1] == path[|path| - 1]
  {
    PosesAreSampled(hypot, path, maximum, points, |path| - 1);
  }

  /** No fewer steps would do. */
  lemma StepCountIsLeast(length: real, maximum: real)
    requires maximum > 0.0 && length >= 0.0 && StepCount(length, maximum) > 1
    ensures (StepCount(length, maximum) - 1) as real * maximum < length
  {
    var q, n := length / maximum, (StepCount(length, maximum) - 1) as real;
    CeilBounds(q);
    assert q * maximum == length;
    StrictScale(n, q, maximum);
  }

  lemma StepCountIsEnough(length: real, maximum: real)
    requires maximum > 0.0 && length >= 0.0
    ensures length <= StepCount(length, maximum) as real * maximum
  {
    CeilBounds(length / maximum);
    var n := StepCount(length, maximum) as real;
    assert length / maximum <= n;
    ScaleUp(length / maximum, n, maximum);
    assert length / maximum * maximum == length;
  }

  lemma ScaleUp(x: real, y: real, r: real)
    requires x <= y && r > 0.0
    ensures x * r <= y * r
  {
  }

  lemma StrictScale(x: real, y: real, n: real)
    requires x < y && n > 0.0
    ensures x * n < y * n
  {
  }

  lemma CancelFactor(x: real, y: real, k: real)
    requires k > 0.0
    ensures x * k == y * k ==> x == y
    ensures x * k <= y * k ==> x <= y
  {
    if x < y {
      StrictScale(x, y, k);
    } else if y < x {
      StrictScale(y, x, k);
    }
  }

  lemma ScaledSquares(p: real, q: real, l: real, n: real)
    requires n > 0.0 && Sq(l * n) == Sq(p * n) + Sq(q * n)
    ensures Sq(l) == Sq(p) + Sq(q)
  {
    SquareOfProduct(l, n);
    SquareOfProduct(p, n);
    SquareOfProduct(q, n);
    SumScaled(Sq(p), Sq(q), n);
    CancelFactor(Sq(l) * n, (Sq(p) + Sq(q)) * n, n);
    CancelFactor(Sq(l), Sq(p) + Sq(q), n);
  }

  lemma SquareOfProduct(x: real, n: real)
    ensures Sq(x * n) == Sq(x) * n * n
  {
  }

  lemma SumScaled(a: real, b: real, n: real)
    ensures a * n * n + b * n * n == (a + b) * n * n
  {
  }

  lemma ShortGap(dx: real, dy: real, n: real, length: real, maximum: real)
    requires n >= 1.0 && length >= 0.0 && maximum > 0.0
    requires Sq(length) == Sq(dx) + Sq(dy) && length <= n * maximum
    ensures Sq(dx / n) + Sq(dy / n) <= Sq(maximum)
  {
    var p, q, l := dx / n, dy / n, length / n;
    assert p * n == dx && q * n == dy && l * n == length;
    ScaledSquares(p, q, l, n);
    CancelFactor(l, maximum, n);
    CancelFactor(0.0, l, n);
    SquareGrows(l, maximum);
  }

  lemma SampleStep(a: Point, b: Point, i: nat, n: nat)
    requires n >= 1
    ensures Sample(a, b, i + 1, n).x - Sample(a, b, i, n).x == (b.x - a.x) / n as real
    ensures Sample(a, b, i + 1, n).y - Sample(a, b, i, n).y == (b.y - a.y) / n as real
  {
    CoordinateStep(b.x - a.x, i, n as real);
    CoordinateStep(b.y - a.y, i, n as real);
  }

  lemma CoordinateStep(d: real, i: nat, n: real)
    requires n > 0.0
    ensures d * (i + 1) as real / n - d * i as real / n == d / n
  {
    assert d * (i + 1) as real == d * i as real + d;
  }

  /** Neighbouring samples of a segment are at most one step apart. */
  lemma SamplesAreClose(hypot: Hypot, a: Point, b: Point, maximum: real, i: nat)
    requires IsHypot(hypot) && maximum > 0.0
    requires i < StepCount(Length(hypot, a, b), maximum)
    ensures var n := StepCount(Length(hypot, a, b), maximum);
            Within(DistSq(Sample(a, b, i + 1, n), Sample(a, b, i, n)), maximum)
  {
    var length := Length(hypot, a, b);
    var n := StepCount(length, maximum);
    StepCountIsEnough(length, maximum);
    SampleStep(a, b, i, n);
    ShortGap(b.x - a.x, b.y - a.y, n as real, length, maximum);
  }

  lemma {:induction false} SegmentOf(hypot: Hypot, path: seq<Point>, maximum: real, i: nat, last: nat) returns (k: nat)
    requires maximum > 0.0 && last < |path| && i < PoseIndex(hypot, path, maximum, last)
    ensures k < last
    ensures PoseIndex(hypot, path, maximum, k) <= i
    ensures i < PoseIndex(hypot, path, maximum, k) + SegmentSteps(hypot, path, k, maximum)
  {
    if i < PoseIndex(hypot, path, maximum, last - 1) {
      k := SegmentOf(hypot, path, maximum, i, last - 1);
    } else {
      k := last - 1;
    }
  }

  /** Any two neighbouring samples of the whole path are at most one step apart. */
  lemma NeighboursAreClose(hypot: Hypot, path: seq<Point>, maximum: real, points: seq<Point>, i: nat)
    requires IsHypot(hypot) && maximum > 0.0 && IsDense(hypot, path, maximum, points, |path|)
    requires i + 1 < |points|
    ensures Within(DistSq(points[i + 1], points[i]), maximum)
  {
    var k := SegmentOf(hypot, path, maximum, i, |path| - 1);
    var from := PoseIndex(hypot, path, maximum, k);
    assert SampleAt(hypot, path, maximum, points, k, i + 1 - from);
    if i == from {
      PosesAreSampled(hypot, path, maximum, points, k);
      LastSampleIsEnd(path[k], path[k + 1], SegmentSteps(hypot, path, k, maximum));
    } else {
      assert SampleAt(hypot, path, maximum, points, k, i - from);
    }
    SamplesAreClose(hypot, path[k], path[k + 1], maximum, i - from);
  }

  // ----- Checking a planned path -----

  ghost predicate AllFree(m: OccupancyMap, points: seq<Point>)
    requires m.Valid()
  {
    forall p :: p in points ==> m.StateAt(p) == Free
  }

  datatype PathReport = PathReport(poses: nat, samples: nat, unknown: nat, occupied: nat, passed: bool)

  ghost function CountState(m: OccupancyMap, points: seq<Point>, state: CellState): nat
    requires m.Valid()
  {
    if points == [] then 0
    else CountState(m, points[..|points| - 1], state) + if m.StateAt(points[|points| - 1]) == state then 1 else 0
  }

  ghost function SamplesIn(m: OccupancyMap, points: seq<Point>, state: CellState): set<int>
    requires m.Valid()
  {
    set i | 0 <= i < |points| && m.StateAt(points[i]) == state
  }

  /** The reported counts are numbers of samples. */
  lemma {:induction false} SamplesAreCounted(m: OccupancyMap, points: seq<Point>, state: CellState)
    requires m.Valid()
    ensures CountState(m, points, state) == |SamplesIn(m, points, state)|
  {
    if points == [] {
      assert SamplesIn(m, points, state) == {};
    } else {
      var n := |points| - 1;
      SamplesAreCounted(m, points[..n], state);
      var before := SamplesIn(m, points[..n], state);
      forall i
        ensures i in SamplesIn(m, points, state) <==> i in before || (i == n && m.StateAt(points[n]) == state)
      {
      }
      assert SamplesIn(m, points, state) == before + if m.StateAt(points[n]) == state then {n} else {};
    }
  }

  method CheckPath(m: OccupancyMap, hypot: Hypot, path: seq<Point>)
    returns (report: PathReport, ghost points: seq<Point>)
    requires m.Valid()
    ensures IsDense(hypot, path, m.resolution * 0.5, points, |path|)
    ensures report.poses == |path| && report.samples == |points|
    ensures report.unknown == CountState(m, points, Unknown) && report.occupied == CountState(m, points, Occupied)
    ensures report.passed <==> points != [] && AllFree(m, points)
  {
    var dense := DensifyPath(hypot, path, m.resolution * 0.5);
    points := dense.points;
    var unknown, occupied, allFree := 0, 0, true;
    for i := 0 to |dense.points|
      invariant unknown == CountState(m, dense.points[..i], Unknown)
      invariant occupied == CountState(m, dense.points[..i], Occupied)
      invariant allFree <==> forall k :: 0 <= k < i ==> m.StateAt(dense.points[k]) == Free
    {
      assert dense.points[..i + 1][..i] == dense.points[..i];
      match m.StateAt(dense.points[i])
      case Unknown => unknown, allFree := unknown + 1, false;
      case Occupied => occupied, allFree := occupied + 1, false;
      case Free =>
    }
    assert dense.points[..|dense.points|] == dense.points;
    report := PathReport(|path|, |dense.points|, unknown, occupied, dense.points != [] && allFree);
  }

  lemma SampleIsAlong(a: Point, b: Point, i: nat, n: nat)
    requires n >= 1
    ensures Sample(a, b, i, n) == Along(a, b, i as real / n as real)
  {
  }

  /** A closed interval of length at least `1/n` holds a multiple of `1/n`. */
  lemma IntervalHoldsSample(t0: real, t1: real, n: nat) returns (i: nat)
    requires n >= 1 && 0.0 <= t0 && t1 <= 1.0 && (t1 - t0) * n as real >= 1.0
    ensures i <= n && t0 <= i as real / n as real <= t1
  {
    var r := n as real;
    var c := Ceil(t0 * r);
    CeilBounds(t0 * r);
    assert t0 * r >= 0.0;
    assert t1 * r - t0 * r >= 1.0;
    assert t0 * r <= c as real <= t1 * r;
    QuotientOrder(t0, c as real, t1, r);
    i := c;
    assert t1 * r <= r;
  }

  lemma QuotientOrder(t0: real, c: real, t1: real, r: real)
    requires r > 0.0 && t0 * r <= c <= t1 * r
    ensures t0 <= c / r <= t1
  {
    assert c / r * r == c;
    CancelFactor(t0, c / r, r);
    CancelFactor(c / r, t1, r);
  }

  lemma LongStretch(w: real, length: real, n: real, step: real)
    requires step > 0.0 && n >= 1.0 && 0.0 <= length <= n * step && w * length >= step
    ensures w * n >= 1.0
  {
    PositiveFactor(w, length);
    ScaleLeft(w, length, n * step);
    assert w * (n * step) == (w * n) * step;
    assert 1.0 * step == step;
    CancelFactor(1.0, w * n, step);
  }

  lemma PositiveFactor(w: real, x: real)
    requires x >= 0.0 && w * x > 0.0
    ensures w > 0.0
  {
  }

  lemma ScaleLeft(w: real, x: real, y: real)
    requires w >= 0.0 && x <= y
    ensures w * x <= w * y
  {
  }

  /** A stretch of at least one step holds one of the evenly spaced sampling fractions. */
  lemma StretchHoldsSample(t0: real, t1: real, length: real, step: real) returns (i: nat)
    requires step > 0.0 && length >= 0.0 && 0.0 <= t0 && t1 <= 1.0 && (t1 - t0) * length >= step
    ensures var n := StepCount(length, step);
            i <= n && t0 <= i as real / n as real <= t1
  {
    var n := StepCount(length, step);
    StepCountIsEnough(length, step);
    LongStretch(t1 - t0, length, n as real, step);
    i := IntervalHoldsSample(t0, t1, n);
  }

  /** Every sample of segment `k`, its start included, is one of the samples of the path. */
  lemma SegmentIsSampled(hypot: Hypot, path: seq<Point>, maximum: real, points: seq<Point>, k: nat, i: nat)
    requires maximum > 0.0 && k + 1 < |path| && i <= SegmentSteps(hypot, path, k, maximum)
    requires IsDense(hypot, path, maximum, points, |path|)
    ensures Along(path[k], path[k + 1], i as real / SegmentSteps(hypot, path, k, maximum) as real) in points
  {
    var n := SegmentSteps(hypot, path, k, maximum);
    SampleIsAlong(path[k], path[k + 1], i, n);
    if i == 0 {
      PosesAreSampled(hypot, path, maximum, points, k);
      LastSampleIsEnd(path[k], path[k + 1], n);
    } else {
      assert SampleAt(hypot, path, maximum, points, k, i);
    }
  }

  /**
   On a path whose samples are all free, every stretch of one segment that is at least half a cell
   long holds a free point.
   */
  lemma LongStretchHoldsFreePoint(
    m: OccupancyMap, hypot: Hypot, path: seq<Point>, points: seq<Point>, k: nat, t0: real, t1: real)
    returns (t: real)
    requires m.Valid() && IsHypot(hypot) && k + 1 < |path| && 0.0 <= t0 && t1 <= 1.0
    requires IsDense(hypot, path, m.resolution * 0.5, points, |path|) && AllFree(m, points)
    requires (t1 - t0) * Length(hypot, path[k], path[k + 1]) >= m.resolution * 0.5
    ensures t0 <= t <= t1 && m.StateAt(Along(path[k], path[k + 1], t)) == Free
  {
    var step := m.resolution * 0.5;
    var i := StretchHoldsSample(t0, t1, Length(hypot, path[k], path[k + 1]), step);
    SegmentIsSampled(hypot, path, step, points, k, i);
    t := i as real / SegmentSteps(hypot, path, k, step) as real;
  }

  lemma PoseIsFree(m: OccupancyMap, hypot: Hypot, path: seq<Point>, points: seq<Point>, k: nat)
    requires m.Valid() && k + 1 < |path|
    requires IsDense(hypot, path, m.resolution * 0.5, points, |path|) && AllFree(m, points)
    ensures m.StateAt(Along(path[k], path[k + 1], 1.0)) == Free
  {
    PosesAreSampled(hypot, path, m.resolution * 0.5, points, k + 1);
    assert Along(path[k], path[k + 1], 1.0) == path[k + 1];
  }

  /** No point of the path from fraction `t0` of segment `j` to fraction `t1` of segment `k` is free. */
  ghost predicate Blocked(m: OccupancyMap, path: seq<Point>, j: nat, t0: real, k: nat, t1: real)
    requires m.Valid() && j <= k && k + 1 < |path|
  {
    forall l: nat, t: real {:trigger Along(path[l], path[l + 1], t)} ::
      j <= l <= k && 0.0 <= t <= 1.0 && (l == j ==> t0 <= t) && (l == k ==> t <= t1) ==>
        m.StateAt(Along(path[l], path[l + 1], t)) != Free
  }

  /**
   An accepted path never runs through unknown or occupied space for half a cell: a stretch
   without a free point stays inside one segment and is shorter than half a cell.
   */
  lemma AcceptedPathIsNeverBlocked(
    m: OccupancyMap, hypot: Hypot, path: seq<Point>, points: seq<Point>, j: nat, t0: real, k: nat, t1: real)
    requires m.Valid() && IsHypot(hypot) && j <= k && k + 1 < |path| && 0.0 <= t0 <= 1.0 && 0.0 <= t1 <= 1.0
    requires IsDense(hypot, path, m.resolution * 0.5, points, |path|) && AllFree(m, points)
    requires Blocked(m, path, j, t0, k, t1)
    ensures j == k && (t1 - t0) * Length(hypot, path[k], path[k + 1]) < m.resolution * 0.5
  {
    if j < k {
      PoseIsFree(m, hypot, path, points, j);
    } else if (t1 - t0) * Length(hypot, path[k], path[k + 1]) >= m.resolution * 0.5 {
      var t := LongStretchHoldsFreePoint(m, hypot, path, points, k, t0, t1);
    }
  }
}
