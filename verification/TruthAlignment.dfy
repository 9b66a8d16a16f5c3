/**
 Localisation quality: estimated poses are aligned in time with truth frames, at most one estimate
 is kept for each group of supporting frames, and the kept errors are judged by their 95th
 percentile. Times and coordinates are reals; distances come from a parameter `hypot`.
 */
module TruthAlignment {
  import opened Options
  import opened OccupancyGrid
  import opened StableSort

  datatype Sample = Sample(time: real, x: real, y: real)

  function Abs(x: real): real {
    if x < 0.0 then -x else x
  }

  function Max(x: real, y: real): real {
    if x >= y then x else y
  }

  predicate NoLater(a: Sample, b: Sample) {
    a.time <= b.time
  }

  /** Strictly increasing time stamps. */
  ghost predicate Ticks(s: seq<Sample>) {
    forall i, j :: 0 <= i < j < |s| ==> s[i].time < s[j].time
  }

  // ----- Removing repeated time stamps -----

  function Unique(s: seq<Sample>): seq<Sample> {
    if s == [] then []
    else
      var kept := Unique(s[..|s| - 1]);
      var last := s[|s| - 1];
      if kept != [] && last.time == kept[|kept| - 1].time then kept else kept + [last]
  }

  method UniqueTimestamps(samples: seq<Sample>) returns (unique: seq<Sample>, duplicates: nat)
    ensures unique == Unique(samples) && |unique| + duplicates == |samples|
  {
    unique, duplicates := [], 0;
    for k := 0 to |samples|
      invariant unique == Unique(samples[..k]) && |unique| + duplicates == k
    {
      assert samples[..k + 1][..k] == samples[..k];
      if unique != [] && samples[k].time == unique[|unique| - 1].time {
        duplicates := duplicates + 1;
      } else {
        unique := unique + [samples[k]];
      }
    }
    assert samples[..|samples|] == samples;
  }

  /** On sorted samples, one sample of every time stamp remains, and the time stamps tick. */
  lemma {:induction false} UniqueTicks(s: seq<Sample>)
    requires IsSorted(NoLater, s)
    ensures Ticks(Unique(s)) && forall i, j :: 0 <= i < j < |Unique(s)| ==> Unique(s)[i].time < Unique(s)[j].time
    ensures s == [] <==> Unique(s) == []
    ensures s != [] ==> Unique(s)[|Unique(s)| - 1].time == s[|s| - 1].time
    ensures forall x :: x in Unique(s) ==> x in s
  {
    if s != [] {
      var init, last := s[..|s| - 1], s[|s| - 1];
      UniqueTicks(init);
      assert forall x :: x in init ==> x in s;
      if init != [] {
        assert NoLater(init[|init| - 1], last);
      }
    }
  }

  lemma {:induction false} UniqueKeepsTimes(s: seq<Sample>, k: nat) returns (i: nat)
    requires IsSorted(NoLater, s) && k < |s|
    ensures i < |Unique(s)| && Unique(s)[i].time == s[k].time
  {
    var init := s[..|s| - 1];
    UniqueTicks(s);
    if k == |s| - 1 {
      i := |Unique(s)| - 1;
    } else {
      i := UniqueKeepsTimes(init, k);
    }
  }

  function AtTime(time: real): Sample -> bool {
    (s: Sample) => s.time == time
  }

  function FirstOnly(s: seq<Sample>): seq<Sample> {
    if s == [] then [] else [s[0]]
  }

  /** Of the sorted samples of one time stamp, the first remains and no other. */
  lemma {:induction false} UniqueKeepsFirst(s: seq<Sample>, time: real)
    requires IsSorted(NoLater, s)
    ensures Filter(AtTime(time), Unique(s)) == FirstOnly(Filter(AtTime(time), s))
  {
    if s != [] {
      var init, last := s[..|s| - 1], s[|s| - 1];
      assert IsSorted(NoLater, init);
      UniqueKeepsFirst(init, time);
      assert init + [last] == s;
      OneMoreSample(init, last, time);
    }
  }

  lemma OneMoreSample(init: seq<Sample>, last: Sample, time: real)
    requires IsSorted(NoLater, init + [last])
    requires Filter(AtTime(time), Unique(init)) == FirstOnly(Filter(AtTime(time), init))
    ensures Filter(AtTime(time), Unique(init + [last])) == FirstOnly(Filter(AtTime(time), init + [last]))
  {
    var kept, same := Unique(init), Filter(AtTime(time), init);
    assert (init + [last])[..|init|] == init;
    assert IsSorted(NoLater, init) by {
      assert forall i :: 0 <= i < |init| ==> (init + [last])[i] == init[i];
    }
    UniqueTicks(init);
    FilterOneMore(AtTime(time), init, last);
    FilterOneMore(AtTime(time), kept, last);
    if last.time == time {
      LastStamp(init, last);
      assert same != [] ==> FirstOnly(same + [last]) == FirstOnly(same);
    }
  }

  /** In sorted samples, the last stamp occurs before exactly if the sample before has it. */
  lemma LastStamp(init: seq<Sample>, last: Sample)
    requires IsSorted(NoLater, init + [last])
    ensures Filter(AtTime(last.time), init) != [] <==> init != [] && init[|init| - 1].time == last.time
  {
    var s, same := init + [last], Filter(AtTime(last.time), init);
    FilterMembers(AtTime(last.time), init);
    if same != [] {
      assert same[0] in init;
      var i :| 0 <= i < |init| && init[i] == same[0];
      assert s[i] == init[i] && s[|init| - 1] == init[|init| - 1] && s[|init|] == last;
      assert NoLater(s[|init| - 1], s[|init|]);
      assert i < |init| - 1 ==> NoLater(s[i], s[|init| - 1]);
    }
    if init != [] && init[|init| - 1].time == last.time {
      assert init[|init| - 1] in same;
    }
  }

  // ----- Alignment of one sample -----

  /** The number of truth frames before `time`, which is where bisection places it. */
  function FramesBefore(truth: seq<Sample>, time: real): (n: nat)
    ensures n <= |truth|
  {
    if truth == [] || truth[|truth| - 1].time < time then |truth|
    else FramesBefore(truth[..|truth| - 1], time)
  }

  lemma {:induction false} FramesBeforeSplits(truth: seq<Sample>, time: real)
    requires Ticks(truth)
    ensures forall k :: 0 <= k < FramesBefore(truth, time) ==> truth[k].time < time
    ensures forall k :: FramesBefore(truth, time) <= k < |truth| ==> truth[k].time >= time
  {
    if truth != [] && truth[|truth| - 1].time >= time {
      FramesBeforeSplits(truth[..|truth| - 1], time);
    }
  }

  /** Bisection by halving, as the standard library does it. */
  method BisectLeft(truth: seq<Sample>, time: real) returns (n: nat)
    requires Ticks(truth)
    ensures n == FramesBefore(truth, time)
  {
    FramesBeforeSplits(truth, time);
    var lo, hi := 0, |truth|;
    while lo < hi
      invariant 0 <= lo <= FramesBefore(truth, time) <= hi <= |truth|
    {
      var mid := (lo + hi) / 2;
      if truth[mid].time < time {
        lo := mid + 1;
      } else {
        hi := mid;
      }
    }
    n := lo;
  }

  datatype Support = Support(first: nat, last: nat)
  datatype Alignment = Alignment(truth: Sample, support: Support, gap: real)

  function Gap(truth: seq<Sample>, k: nat, s: Sample): real
    requires k < |truth|
  {
    Abs(truth[k].time - s.time)
  }

  function Interpolate(left: Sample, right: Sample, time: real): Sample
    requires left.time < right.time
  {
    var ratio := (time - left.time) / (right.time - left.time);
    Sample(time, left.x + ratio * (right.x - left.x), left.y + ratio * (right.y - left.y))
  }

  function NearestFrame(truth: seq<Sample>, s: Sample, k: nat, maximum: real): Option<Alignment>
    requires k < |truth|
  {
    if Gap(truth, k, s) > maximum + SLACK then None
    else Some(Alignment(truth[k], Support(k, k), Gap(truth, k, s)))
  }

  /** The truth to compare a sample with: an exact frame, an interpolation, or the nearest frame. */
  function Aligned(truth: seq<Sample>, s: Sample, maximum: real): Option<Alignment>
    requires Ticks(truth)
  {
    FramesBeforeSplits(truth, s.time);
    var right := FramesBefore(truth, s.time);
    if truth == [] then None
    else if right < |truth| && truth[right].time == s.time then
      Some(Alignment(truth[right], Support(right, right), 0.0))
    else if right == 0 then NearestFrame(truth, s, 0, maximum)
    else if right == |truth| then NearestFrame(truth, s, |truth| - 1, maximum)
    else
      var before, after := s.time - truth[right - 1].time, truth[right].time - s.time;
      if before <= maximum + SLACK && after <= maximum + SLACK then
        var between := Interpolate(truth[right - 1], truth[right], s.time);
        Some(Alignment(between, Support(right - 1, right), Max(before, after)))
      else NearestFrame(truth, s, if before <= after then right - 1 else right, maximum)
  }

  /** The bisecting form computes the same alignment. */
  method AlignedTruthSample(truth: seq<Sample>, s: Sample, maximum: real) returns (a: Option<Alignment>)
    requires Ticks(truth)
    ensures a == Aligned(truth, s, maximum)
  {
    if truth == [] {
      return None;
    }
    var right := BisectLeft(truth, s.time);
    FramesBeforeSplits(truth, s.time);
    if right < |truth| && truth[right].time == s.time {
      return Some(Alignment(truth[right], Support(right, right), 0.0));
    }
    var nearest;
    if right == 0 {
      nearest := 0;
    } else if right == |truth| {
      nearest := |truth| - 1;
    } else {
      var before, after := s.time - truth[right - 1].time, truth[right].time - s.time;
      if before <= maximum + SLACK && after <= maximum + SLACK {
        var between := Interpolate(truth[right - 1], truth[right], s.time);
        return Some(Alignment(between, Support(right - 1, right), Max(before, after)));
      }
      nearest := if before <= after then right - 1 else right;
    }
    return NearestFrame(truth, s, nearest, maximum);
  }

  /** A sample is aligned exactly when some truth frame lies within the allowed gap. */
  lemma AlignedExactly(truth: seq<Sample>, s: Sample, maximum: real)
    requires Ticks(truth) && maximum >= 0.0
    ensures Aligned(truth, s, maximum).Some? <==>
            exists k :: 0 <= k < |truth| && Gap(truth, k, s) <= maximum + 0.000000000001
  {
    FramesBeforeSplits(truth, s.time);
    var right := FramesBefore(truth, s.time);
    forall k | 0 <= k < |truth|
      ensures k < right ==> Gap(truth, k, s) >= Gap(truth, right - 1, s)
      ensures k >= right ==> Gap(truth, k, s) >= Gap(truth, right, s)
    {
    }
    if Aligned(truth, s, maximum).Some? {
      AlignmentIsSupported(truth, s, maximum);
      var a := Aligned(truth, s, maximum).value;
      assert Gap(truth, a.support.first, s) <= maximum + SLACK;
    }
  }

  /** The shape of an alignment: the earliest of the nearest frames, or the two frames around the sample. */
  ghost predicate WellSupported(truth: seq<Sample>, s: Sample, maximum: real, a: Alignment) {
    && a.support.first <= a.support.last < |truth|
    && 0.0 <= a.gap <= maximum + SLACK
    && a.gap == Max(Gap(truth, a.support.first, s), Gap(truth, a.support.last, s))
    && (a.support.first == a.support.last ==>
          && a.truth == truth[a.support.first]
          && (forall k :: 0 <= k < |truth| ==> a.gap <= Gap(truth, k, s))
          && (forall k :: 0 <= k < a.support.first ==> a.gap < Gap(truth, k, s)))
    && (a.support.first != a.support.last ==>
          && a.support.last == a.support.first + 1
          && truth[a.support.first].time < s.time < truth[a.support.last].time
          && a.truth == Interpolate(truth[a.support.first], truth[a.support.last], s.time))
  }

  lemma AlignmentIsSupported(truth: seq<Sample>, s: Sample, maximum: real)
    requires Ticks(truth) && maximum >= 0.0 && Aligned(truth, s, maximum).Some?
    ensures WellSupported(truth, s, maximum, Aligned(truth, s, maximum).value)
  {
    FramesBeforeSplits(truth, s.time);
    var right := FramesBefore(truth, s.time);
    forall k | 0 <= k < |truth|
      ensures k < right ==> Gap(truth, k, s) >= Gap(truth, right - 1, s)
      ensures k >= right ==> Gap(truth, k, s) >= Gap(truth, right, s)
    {
    }
  }

  /** Two frames support a sample exactly when it lies strictly between adjacent frames, both near enough. */
  lemma InterpolatedExactly(truth: seq<Sample>, s: Sample, maximum: real)
    requires Ticks(truth) && maximum >= 0.0 && Aligned(truth, s, maximum).Some?
    ensures var support := Aligned(truth, s, maximum).value.support;
            support.first != support.last <==>
            exists k :: 0 < k < |truth| && truth[k - 1].time < s.time < truth[k].time
                        && s.time - truth[k - 1].time <= maximum + SLACK && truth[k].time - s.time <= maximum + SLACK
  {
    FramesBeforeSplits(truth, s.time);
    var right := FramesBefore(truth, s.time);
    forall k | 0 < k < |truth| && truth[k - 1].time < s.time < truth[k].time
      ensures k == right
    {
    }
  }

  /** Interpolation is exact for a robot that moves at constant velocity between the frames. */
  lemma InterpolationFollowsUniformMotion(left: Sample, right: Sample, time: real, vx: real, vy: real)
    requires left.time < right.time
    requires right.x == left.x + vx * (right.time - left.time) && right.y == left.y + vy * (right.time - left.time)
    ensures Interpolate(left, right, time) ==
            Sample(time, left.x + vx * (time - left.time), left.y + vy * (time - left.time))
  {
    RatioTimesTravel(time - left.time, right.time - left.time, vx);
    RatioTimesTravel(time - left.time, right.time - left.time, vy);
  }

  lemma RatioTimesTravel(a: real, b: real, v: real)
    requires b > 0.0
    ensures a / b * (v * b) == v * a
  {
    assert a / b * b == a;
    assert a / b * (v * b) == v * (a / b * b);
  }

  // ----- One estimate per group of supporting frames -----

  datatype Entry = Entry(gap: real, sample: Sample, truth: Sample)
  type BySupport = map<Support, Entry>

  /** What the table says after the first `n` estimates. */
  ghost predicate KeepsClosest(truth: seq<Sample>, amcl: seq<Sample>, maximum: real, n: nat, table: BySupport)
    requires Ticks(truth) && n <= |amcl|
  {
    && (forall k {:trigger Chosen(truth, amcl, maximum, k)} :: 0 <= k < n && Chosen(truth, amcl, maximum, k).Some? ==>
          var a := Chosen(truth, amcl, maximum, k).value;
          a.support in table && table[a.support].gap <= a.gap)
    && (forall support :: support in table ==>
          exists k :: 0 <= k < n && IsEntry(truth, amcl, maximum, k, support, table[support]))
  }

  ghost function Chosen(truth: seq<Sample>, amcl: seq<Sample>, maximum: real, k: nat): Option<Alignment>
    requires Ticks(truth) && k < |amcl|
  {
    Aligned(truth, amcl[k], maximum)
  }

  /** Estimate `k` is the one kept for the support: its gap is less than that of any earlier rival. */
  ghost predicate IsEntry(truth: seq<Sample>, amcl: seq<Sample>, maximum: real, k: nat, support: Support, e: Entry)
    requires Ticks(truth) && k < |amcl|
  {
    && Chosen(truth, amcl, maximum, k) == Some(Alignment(e.truth, support, e.gap)) && e.sample == amcl[k]
    && forall l {:trigger Chosen(truth, amcl, maximum, l)} ::
         0 <= l < k && Chosen(truth, amcl, maximum, l).Some?
         && Chosen(truth, amcl, maximum, l).value.support == support ==>
           e.gap < Chosen(truth, amcl, maximum, l).value.gap
  }

  method AlignAll(truth: seq<Sample>, amcl: seq<Sample>, maximum: real) returns (table: BySupport)
    requires Ticks(truth)
    ensures KeepsClosest(truth, amcl, maximum, |amcl|, table)
  {
    table := map[];
    for n := 0 to |amcl|
      invariant KeepsClosest(truth, amcl, maximum, n, table)
    {
      var a := AlignedTruthSample(truth, amcl[n], maximum);
      if a.Some? && (a.value.support !in table || a.value.gap < table[a.value.support].gap) {
        ReplaceEntry(truth, amcl, maximum, n, table, a.value);
        table := table[a.value.support := Entry(a.value.gap, amcl[n], a.value.truth)];
      } else {
        KeepEntry(truth, amcl, maximum, n, table);
      }
    }
  }

  lemma ReplaceEntry(truth: seq<Sample>, amcl: seq<Sample>, maximum: real, n: nat, table: BySupport, a: Alignment)
    requires Ticks(truth) && n < |amcl| && KeepsClosest(truth, amcl, maximum, n, table)
    requires Chosen(truth, amcl, maximum, n) == Some(a)
    requires a.support !in table || a.gap < table[a.support].gap
    ensures KeepsClosest(truth, amcl, maximum, n + 1, table[a.support := Entry(a.gap, amcl[n], a.truth)])
  {
    var wider := table[a.support := Entry(a.gap, amcl[n], a.truth)];
    assert IsEntry(truth, amcl, maximum, n, a.support, wider[a.support]);
    forall other | other in wider
      ensures exists k :: 0 <= k < n + 1 && IsEntry(truth, amcl, maximum, k, other, wider[other])
    {
      if other != a.support {
        assert wider[other] == table[other];
        var k :| 0 <= k < n && IsEntry(truth, amcl, maximum, k, other, table[other]);
      }
    }
  }

  lemma KeepEntry(truth: seq<Sample>, amcl: seq<Sample>, maximum: real, n: nat, table: BySupport)
    requires Ticks(truth) && n < |amcl| && KeepsClosest(truth, amcl, maximum, n, table)
    requires var a := Chosen(truth, amcl, maximum, n);
             a.None? || (a.value.support in table && table[a.value.support].gap <= a.value.gap)
    ensures KeepsClosest(truth, amcl, maximum, n + 1, table)
  {
    forall support | support in table
      ensures exists k :: 0 <= k < n + 1 && IsEntry(truth, amcl, maximum, k, support, table[support])
    {
      var k :| 0 <= k < n && IsEntry(truth, amcl, maximum, k, support, table[support]);
    }
  }

  ghost predicate SupportFits(s: Support, frames: nat) {
    s.first <= s.last < frames && s.last <= s.first + 1
  }

  lemma TableSupportsFit(truth: seq<Sample>, amcl: seq<Sample>, maximum: real, table: BySupport)
    requires Ticks(truth) && maximum >= 0.0 && KeepsClosest(truth, amcl, maximum, |amcl|, table)
    ensures forall support :: support in table ==> SupportFits(support, |truth|)
  {
    forall support | support in table
      ensures SupportFits(support, |truth|)
    {
      var k :| 0 <= k < |amcl| && IsEntry(truth, amcl, maximum, k, support, table[support]);
      AlignmentIsSupported(truth, amcl[k], maximum);
    }
  }

  /** Supports over `frames` frames, at most `2 * frames - 1` of them. */
  lemma {:induction false} FewSupports(supports: set<Support>, frames: nat)
    requires forall s :: s in supports ==> SupportFits(s, frames)
    ensures frames == 0 ==> supports == {}
    ensures frames > 0 ==> |supports| <= 2 * frames - 1
  {
    if frames > 0 {
      var alone, paired := Support(frames - 1, frames - 1), Support(if frames > 1 then frames - 2 else 0, frames - 1);
      var rest := supports - {alone, paired};
      forall s | s in rest
        ensures SupportFits(s, frames - 1)
      {
        assert s != alone && s != paired;
      }
      FewSupports(rest, frames - 1);
      assert supports <= rest + {alone, paired};
      SizeOfUnion(rest, alone, paired, supports);
    }
  }

  lemma SizeOfUnion(rest: set<Support>, a: Support, b: Support, all: set<Support>)
    requires all <= rest + {a, b}
    ensures |all| <= |rest| + 2 && (a == b ==> |all| <= |rest| + 1)
  {
    var whole := rest + {a} + {b};
    assert all <= whole;
    assert |whole| == |all| + |whole - all| by {
      assert whole == all + (whole - all);
    }
  }

  /** However many estimates arrive, truth frames bound how many errors are counted. */
  lemma ErrorsAreBounded(truth: seq<Sample>, amcl: seq<Sample>, maximum: real, table: BySupport)
    requires Ticks(truth) && maximum >= 0.0 && KeepsClosest(truth, amcl, maximum, |amcl|, table)
    ensures |table| == 0 || |table| <= 2 * |truth| - 1
  {
    TableSupportsFit(truth, amcl, maximum, table);
    FewSupports(table.Keys, |truth|);
    assert |table| == |table.Keys|;
  }

  // ----- The nearest-rank percentile -----

  predicate AtMost(a: real, b: real) {
    a <= b
  }

  /** The least rank, from 1, that is not below the share of the values. */
  function Rank(percentile: real, n: nat): (rank: int)
    ensures rank >= 1 && rank as real >= percentile * n as real
    ensures rank > 1 ==> (rank - 1) as real < percentile * n as real
  {
    var needed := Ceil(percentile * n as real);
    if needed > 1 then needed else 1
  }

  lemma RankFits(percentile: real, n: nat)
    requires n > 0 && 0.0 <= percentile <= 1.0
    ensures Rank(percentile, n) <= n
  {
    CeilBounds(percentile * n as real);
    assert percentile * n as real <= 1.0 * n as real;
  }

  function NearestRank(values: seq<real>, percentile: real): Option<real>
    requires 0.0 <= percentile <= 1.0
  {
    var ordered := Sort(AtMost, values);
    SortKeepsLength(AtMost, values);
    if ordered == [] then None
    else RankFits(percentile, |ordered|); Some(ordered[Rank(percentile, |ordered|) - 1])
  }

  function CountAtMost(values: seq<real>, limit: real): (n: nat)
    ensures n <= |values|
  {
    if values == [] then 0
    else CountAtMost(values[..|values| - 1], limit) + if values[|values| - 1] <= limit then 1 else 0
  }

  lemma {:induction false} InsertCounts(s: seq<real>, x: real, limit: real)
    ensures CountAtMost(Insert(AtMost, s, x), limit) == CountAtMost(s, limit) + if x <= limit then 1 else 0
  {
    var r := Insert(AtMost, s, x);
    if s == [] {
      assert r[..0] == [];
    } else if s[|s| - 1] <= x {
      assert r[..|s|] == s;
    } else {
      InsertCounts(s[..|s| - 1], x, limit);
      assert r[..|r| - 1] == Insert(AtMost, s[..|s| - 1], x);
    }
  }

  lemma {:induction false} SortCounts(s: seq<real>, limit: real)
    ensures CountAtMost(Sort(AtMost, s), limit) == CountAtMost(s, limit)
  {
    if s != [] {
      SortCounts(s[..|s| - 1], limit);
      InsertCounts(Sort(AtMost, s[..|s| - 1]), s[|s| - 1], limit);
    }
  }

  /** In a sorted list, item `k` is within the limit exactly when more than `k` items are. */
  lemma {:induction false} SortedCount(s: seq<real>, limit: real, k: nat)
    requires IsSorted(AtMost, s) && k < |s|
    ensures s[k] <= limit <==> CountAtMost(s, limit) > k
  {
    var last := |s| - 1;
    if k < last {
      SortedCount(s[..last], limit, k);
      assert s[k] <= s[last] by { assert AtMost(s[k], s[last]); }
    } else if s[last] <= limit {
      AllCounted(s, limit);
    }
  }

  lemma {:induction false} AllCounted(s: seq<real>, limit: real)
    requires IsSorted(AtMost, s) && s != [] && s[|s| - 1] <= limit
    ensures CountAtMost(s, limit) == |s|
  {
    if |s| > 1 {
      assert AtMost(s[|s| - 2], s[|s| - 1]);
      AllCounted(s[..|s| - 1], limit);
    }
  }

  /** The percentile is within a limit exactly when at least the ranked number of values is. */
  lemma PercentileMeans(values: seq<real>, percentile: real, limit: real)
    requires values != [] && 0.0 <= percentile <= 1.0
    ensures var p := NearestRank(values, percentile);
            p.Some? && (p.value <= limit <==> CountAtMost(values, limit) >= Rank(percentile, |values|))
  {
    SortKeepsLength(AtMost, values);
    SortSorts(AtMost, values);
    SortCounts(values, limit);
    RankFits(percentile, |values|);
    SortedCount(Sort(AtMost, values), limit, Rank(percentile, |values|) - 1);
  }

  // ----- The verdict -----

  /** The error is the distance between the estimate and its truth, in the plane. */
  lemma ErrorIsDistance(hypot: Hypot, e: Entry)
    requires IsHypot(hypot)
    ensures ErrorOf(hypot, e) >= 0.0
    ensures Sq(ErrorOf(hypot, e)) == DistSq(Point(e.sample.x, e.sample.y), Point(e.truth.x, e.truth.y))
  {
  }

  function ErrorOf(hypot: Hypot, e: Entry): real {
    hypot(e.sample.x - e.truth.x, e.sample.y - e.truth.y)
  }

  /** The errors, one for each support of the table. */
  ghost predicate IsErrorList(hypot: Hypot, table: BySupport, supports: seq<Support>, errors: seq<real>) {
    && |supports| == |errors| == |table|
    && (forall i, j :: 0 <= i < j < |supports| ==> supports[i] != supports[j])
    && (forall i :: 0 <= i < |supports| ==> supports[i] in table && errors[i] == ErrorOf(hypot, table[supports[i]]))
  }

  method ErrorList(hypot: Hypot, table: BySupport) returns (errors: seq<real>, ghost supports: seq<Support>)
    ensures IsErrorList(hypot, table, supports, errors)
  {
    errors, supports := [], [];
    var rest := table.Keys;
    while rest != {}
      invariant rest <= table.Keys
      invariant |supports| == |errors| == |table.Keys| - |rest|
      invariant forall i, j :: 0 <= i < j < |supports| ==> supports[i] != supports[j]
      invariant forall i :: 0 <= i < |supports| ==>
                  supports[i] in table.Keys - rest && errors[i] == ErrorOf(hypot, table[supports[i]])
      decreases rest
    {
      var support :| support in rest;
      errors, supports := errors + [ErrorOf(hypot, table[support])], supports + [support];
      rest := rest - {support};
    }
  }

  datatype Report = Report(overlap: bool, duplicates: nat, errors: seq<real>, p95: Option<real>, passed: bool)
  datatype Verdict = Judged(report: Report) | BadThreshold(reason: string)

  predicate Overlap(a: seq<Sample>, b: seq<Sample>) {
    a != [] && b != [] &&
    Max(a[0].time, b[0].time) <= (if a[|a| - 1].time <= b[|b| - 1].time then a[|a| - 1].time else b[|b| - 1].time)
  }

  ghost function Frames(samples: seq<Sample>): seq<Sample> {
    Unique(Sort(NoLater, samples))
  }

  lemma FramesTick(samples: seq<Sample>)
    ensures Ticks(Frames(samples)) && |Frames(samples)| <= |samples|
  {
    SortSorts(NoLater, samples);
    SortKeepsLength(NoLater, samples);
    UniqueTicks(Sort(NoLater, samples));
    UniqueIsShorter(Sort(NoLater, samples));
  }

  /** Sorting is stable: of samples with one time stamp the first to arrive is the frame. */
  lemma FramesKeepFirst(samples: seq<Sample>, time: real)
    ensures Filter(AtTime(time), Frames(samples)) == FirstOnly(Filter(AtTime(time), samples))
  {
    SortSorts(NoLater, samples);
    SortIsStable(NoLater, samples, AtTime(time));
    UniqueKeepsFirst(Sort(NoLater, samples), time);
  }

  lemma {:induction false} UniqueIsShorter(s: seq<Sample>)
    ensures |Unique(s)| <= |s|
  {
    if s != [] {
      UniqueIsShorter(s[..|s| - 1]);
    }
  }

  /** Which estimates the verdict rests on. */
  ghost predicate RestsOn(
    hypot: Hypot, amcl: seq<Sample>, gazebo: seq<Sample>, maximumGap: real, report: Report)
  {
    FramesTick(gazebo);
    var truth, estimates := Frames(gazebo), Frames(amcl);
    report.overlap == Overlap(estimates, truth) &&
    if report.overlap then
      exists table: BySupport, supports: seq<Support> ::
        KeepsClosest(truth, estimates, maximumGap, |estimates|, table) &&
        IsErrorList(hypot, table, supports, report.errors)
    else report.errors == []
  }

  const PERCENTILE: real := 0.95

  method EvaluateLocalization(hypot: Hypot, amcl: seq<Sample>, gazebo: seq<Sample>,
                              maximumError: real, maximumGap: real, minimumSamples: int)
    returns (verdict: Verdict)
    ensures verdict.BadThreshold? <==> maximumError < 0.0 || maximumGap < 0.0 || minimumSamples <= 0
    ensures verdict.Judged? ==>
              var r := verdict.report;
              && RestsOn(hypot, amcl, gazebo, maximumGap, r)
              && r.duplicates == (|amcl| - |Frames(amcl)|) + (|gazebo| - |Frames(gazebo)|)
              && (r.passed <==>
                    && r.overlap && r.duplicates == 0 && |r.errors| >= minimumSamples
                    && CountAtMost(r.errors, maximumError + SLACK) >= Rank(PERCENTILE, |r.errors|))
  {
    if maximumError < 0.0 {
      return BadThreshold("maximum position error must be non-negative");
    }
    if maximumGap < 0.0 {
      return BadThreshold("maximum alignment gap must be non-negative");
    }
    if minimumSamples <= 0 {
      return BadThreshold("minimum aligned samples must be positive");
    }
    FramesTick(amcl);
    FramesTick(gazebo);
    SortKeepsLength(NoLater, amcl);
    SortKeepsLength(NoLater, gazebo);
    var estimates, repeatedAmcl := UniqueTimestamps(Sort(NoLater, amcl));
    var truth, repeatedTruth := UniqueTimestamps(Sort(NoLater, gazebo));
    var overlap := Overlap(estimates, truth);
    var errors: seq<real> := [];
    if overlap {
      var table := AlignAll(truth, estimates, maximumGap);
      ghost var supports;
      errors, supports := ErrorList(hypot, table);
    }
    var p95 := NearestRank(errors, PERCENTILE);
    if errors != [] {
      PercentileMeans(errors, PERCENTILE, maximumError + SLACK);
    }
    var duplicates := repeatedAmcl + repeatedTruth;
    var passed := overlap && duplicates == 0 && |errors| >= minimumSamples
                  && p95.Some? && p95.value <= maximumError + SLACK;
    return Judged(Report(overlap, duplicates, errors, p95, passed));
  }

  /** A pass needs enough distinct truth frames, however many estimates were sent. */
  lemma PassNeedsTruthFrames(
    hypot: Hypot, amcl: seq<Sample>, gazebo: seq<Sample>, maximumGap: real, minimumSamples: int, report: Report)
    requires maximumGap >= 0.0 && minimumSamples > 0
    requires RestsOn(hypot, amcl, gazebo, maximumGap, report) && |report.errors| >= minimumSamples
    ensures minimumSamples <= 2 * |Frames(gazebo)| - 1
  {
    FramesTick(gazebo);
    var truth, estimates := Frames(gazebo), Frames(amcl);
    var table, supports :|
      KeepsClosest(truth, estimates, maximumGap, |estimates|, table) &&
      IsErrorList(hypot, table, supports, report.errors);
    ErrorsAreBounded(truth, estimates, maximumGap, table);
  }

  ghost predicate Spans(s: seq<Sample>, t: real)
    requires s != []
  {
    s[0].time <= t <= s[|s| - 1].time
  }

  /** The time ranges overlap exactly if some moment lies in both. */
  lemma OverlapMeansCommonMoment(a: seq<Sample>, b: seq<Sample>)
    requires Ticks(a) && Ticks(b)
    ensures Overlap(a, b) <==>
            a != [] && b != [] &&
            exists t :: Spans(a, t) && Spans(b, t)
  {
    if Overlap(a, b) {
      var t := Max(a[0].time, b[0].time);
      assert Spans(a, t) && Spans(b, t);
    }
  }

  lemma {:induction false} CountIsWithin(values: seq<real>, limit: real)
    ensures CountAtMost(values, limit) <= |values|
  {
  }

  /** The percentile is within a limit exactly if at most one error in twenty exceeds it. */
  lemma PassMeansFewExceed(errors: seq<real>, limit: real)
    requires errors != []
    ensures CountAtMost(errors, limit) >= Rank(PERCENTILE, |errors|) <==>
            20 * (|errors| - CountAtMost(errors, limit)) <= |errors|
  {
    CountIsWithin(errors, limit);
    OneInTwenty(Rank(PERCENTILE, |errors|), CountAtMost(errors, limit), |errors|);
  }

  lemma OneInTwenty(rank: int, within: nat, n: nat)
    requires n > 0 && rank >= 1 && rank as real >= 0.95 * n as real
    requires rank > 1 ==> (rank - 1) as real < 0.95 * n as real
    ensures within >= rank <==> 20 * (n - within) <= n
  {
    assert 20.0 * rank as real >= 19.0 * n as real;
    assert 20 * rank >= 19 * n;
    assert rank > 1 ==> 20 * (rank - 1) < 19 * n;
  }
}
