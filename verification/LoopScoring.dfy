/**
 Scoring of loop-closure candidates: candidates are ranked per query, and each cut-off k is judged
 by the queries it hits, the pairs it gets right and the reciprocal rank of the first true one.
 */
module LoopScoring {
  import opened Options
  import opened StableSort

  datatype Candidate = Candidate(scanId: int, rank: int, similarity: real, ringKeyDistance: real)
  datatype Row = Row(queryId: int, stamp: real, candidates: seq<Candidate>)
  datatype Pose = Pose(stamp: real, x: real, y: real)

  // ----- Reading rows -----

  ghost predicate UniqueIds(rows: seq<Row>) {
    forall i, j :: 0 <= i < j < |rows| ==> rows[i].queryId != rows[j].queryId
  }

  ghost predicate InTimeOrder(rows: seq<Row>) {
    forall i, j :: 0 <= i < j < |rows| ==> rows[i].stamp <= rows[j].stamp
  }

  predicate RanksCountUp(candidates: seq<Candidate>) {
    forall i :: 0 <= i < |candidates| ==> candidates[i].rank == i + 1
  }

  ghost predicate WellFormed(rows: seq<Row>) {
    && UniqueIds(rows) && InTimeOrder(rows)
    && forall i, j :: 0 <= i < |rows| && 0 <= j < |rows[i].candidates| ==> rows[i].candidates[j].rank == j + 1
  }

  datatype LoadError = DuplicateId | TimeRunsBack | RanksBroken | NoRows

  /** What is wrong with row `i`, judged after the rows before it. */
  function Fault(raw: seq<Row>, i: nat): Option<LoadError>
    requires i < |raw|
  {
    if exists k :: 0 <= k < i && raw[k].queryId == raw[i].queryId then Some(DuplicateId)
    else if i > 0 && raw[i].stamp < raw[i - 1].stamp then Some(TimeRunsBack)
    else if !RanksCountUp(raw[i].candidates) then Some(RanksBroken)
    else None
  }

  /** After well-formed rows, a row has a fault exactly when it spoils them, and the fault says how. */
  lemma FaultsSpoil(raw: seq<Row>, i: nat)
    requires i < |raw| && WellFormed(raw[..i])
    ensures Fault(raw, i).None? <==> WellFormed(raw[..i + 1])
    ensures Fault(raw, i) == Some(DuplicateId) <==> !UniqueIds(raw[..i + 1])
    ensures Fault(raw, i) == Some(TimeRunsBack) <==> UniqueIds(raw[..i + 1]) && !InTimeOrder(raw[..i + 1])
  {
    var before, after := raw[..i], raw[..i + 1];
    assert forall k :: 0 <= k < i ==> after[k] == before[k];
    if k :| 0 <= k < i && raw[k].queryId == raw[i].queryId {
      assert after[k].queryId == after[i].queryId;
    }
    if i > 0 {
      assert before[i - 1] == after[i - 1];
      assert forall k :: 0 <= k < i ==> before[k].stamp <= before[i - 1].stamp;
    }
  }

  /** The loader accepts exactly the well-formed, nonempty lists of rows. */
  method LoadRows(raw: seq<Row>) returns (error: Option<LoadError>)
    ensures error.None? <==> raw != [] && WellFormed(raw)
    ensures error == Some(NoRows) <==> raw == []
    ensures error.Some? && raw != [] ==>
              exists i :: 0 <= i < |raw| && Fault(raw, i) == error && forall k :: 0 <= k < i ==> Fault(raw, k).None?
  {
    var seen: set<int> := {};
    for i := 0 to |raw|
      invariant seen == set k | 0 <= k < i :: raw[k].queryId
      invariant WellFormed(raw[..i]) && forall k :: 0 <= k < i ==> Fault(raw, k).None?
    {
      var row := raw[i];
      assert Fault(raw, i) == Some(DuplicateId) <==> row.queryId in seen;
      if row.queryId in seen {
        return Some(DuplicateId);
      }
      if i > 0 && row.stamp < raw[i - 1].stamp {
        assert raw[i].stamp < raw[i - 1].stamp;
        return Some(TimeRunsBack);
      }
      if !RanksCountUp(row.candidates) {
        return Some(RanksBroken);
      }
      seen := seen + {row.queryId};
      assert i > 0 ==> raw[..i][i - 1].stamp <= row.stamp;
    }
    assert raw[..|raw|] == raw;
    return if raw == [] then Some(NoRows) else None;
  }

  // ----- Who counts as a true revisit -----

  ghost predicate IsRevisit(current: Pose, earlier: Pose, separation: real, radius: real) {
    && current.stamp - earlier.stamp >= separation
    && (current.x - earlier.x) * (current.x - earlier.x) + (current.y - earlier.y) * (current.y - earlier.y)
       <= radius * radius
  }

  /** The earlier scans, in row order, that query `i` truly revisits. */
  ghost function Revisited(rows: seq<Row>, poses: map<int, Pose>, separation: real, radius: real, i: nat): set<int>
    requires i < |rows| && rows[i].queryId in poses
  {
    set j | 0 <= j < i && rows[j].queryId in poses
            && IsRevisit(poses[rows[i].queryId], poses[rows[j].queryId], separation, radius) :: rows[j].queryId
  }

  /** By lengths: an earlier row counts exactly when its pose is old enough and no farther than the radius. */
  lemma RevisitedByDistance(
    rows: seq<Row>, poses: map<int, Pose>, separation: real, radius: real, hypot: (real, real) -> real, i: nat, j: nat)
    requires UniqueIds(rows) && i < |rows| && j < |rows| && rows[i].queryId in poses && radius > 0.0
    requires forall x, y :: hypot(x, y) >= 0.0 && hypot(x, y) * hypot(x, y) == x * x + y * y
    ensures rows[j].queryId in Revisited(rows, poses, separation, radius, i) <==>
            && j < i && rows[j].queryId in poses
            && var current, earlier := poses[rows[i].queryId], poses[rows[j].queryId];
               && earlier.stamp + separation <= current.stamp
               && hypot(current.x - earlier.x, current.y - earlier.y) <= radius
  {
    if rows[j].queryId in poses {
      var current, earlier := poses[rows[i].queryId], poses[rows[j].queryId];
      SquaresCompare(hypot(current.x - earlier.x, current.y - earlier.y), radius);
    }
  }

  lemma SquaresCompare(a: real, b: real)
    requires a >= 0.0 && b >= 0.0
    ensures a * a <= b * b <==> a <= b
  {
    if a <= b {
      SquareGrows(a, b);
    } else {
      assert a * a - b * b == (a - b) * (a + b);
      PositiveProduct(a - b, a + b);
    }
  }

  lemma SquareGrows(a: real, b: real)
    requires 0.0 <= a <= b
    ensures a * a <= b * b
  {
    assert a * a <= a * b;
    assert a * b <= b * b;
  }

  lemma PositiveProduct(a: real, b: real)
    requires a > 0.0 && b > 0.0
    ensures a * b > 0.0
  {
  }

  /** Eligible queries are exactly those with a pose that truly revisit an earlier scan. */
  ghost predicate EligibleIsExact(
    rows: seq<Row>, poses: map<int, Pose>, separation: real, radius: real, n: nat, eligible: map<int, set<int>>)
    requires n <= |rows|
  {
    && (forall i :: 0 <= i < n && rows[i].queryId in poses ==>
          var positives := Revisited(rows, poses, separation, radius, i);
          && (rows[i].queryId in eligible <==> positives != {})
          && (positives != {} ==> eligible[rows[i].queryId] == positives))
    && (forall q | q in eligible :: q in poses && exists i :: 0 <= i < n && rows[i].queryId == q)
  }

  method BuildEligible(rows: seq<Row>, poses: map<int, Pose>, separation: real, radius: real)
    returns (eligible: map<int, set<int>>)
    requires UniqueIds(rows) && radius > 0.0 && separation > 0.0
    ensures EligibleIsExact(rows, poses, separation, radius, |rows|, eligible)
  {
    eligible := map[];
    for i := 0 to |rows|
      invariant EligibleIsExact(rows, poses, separation, radius, i, eligible)
    {
      var q := rows[i].queryId;
      if q in poses {
        var positives := Positives(rows, poses, separation, radius, i);
        if positives != {} {
          eligible := eligible[q := positives];
        }
      }
    }
  }

  method Positives(rows: seq<Row>, poses: map<int, Pose>, separation: real, radius: real, i: nat)
    returns (positives: set<int>)
    requires i < |rows| && rows[i].queryId in poses
    ensures positives == Revisited(rows, poses, separation, radius, i)
  {
    positives := {};
    var current := poses[rows[i].queryId];
    for j := 0 to i
      invariant positives == set k | 0 <= k < j && rows[k].queryId in poses
                && IsRevisit(current, poses[rows[k].queryId], separation, radius) :: rows[k].queryId
    {
      var c := rows[j].queryId;
      if c in poses {
        var earlier := poses[c];
        var dx, dy := current.x - earlier.x, current.y - earlier.y;
        if current.stamp - earlier.stamp >= separation && dx * dx + dy * dy <= radius * radius {
          positives := positives + {c};
        }
      }
    }
  }

  // ----- Ranking -----

  datatype Key = Key(first: real, second: real, id: int)

  function KeyOf(rerank: bool, c: Candidate): Key {
    if rerank then Key(-c.similarity, c.ringKeyDistance, c.scanId) else Key(c.ringKeyDistance, -c.similarity, c.scanId)
  }

  predicate NotAfter(a: Key, b: Key) {
    a.first < b.first || (a.first == b.first && (a.second < b.second || (a.second == b.second && a.id <= b.id)))
  }

  function Order(rerank: bool): (Candidate, Candidate) -> bool {
    (a, b) => NotAfter(KeyOf(rerank, a), KeyOf(rerank, b))
  }

  function Ranked(row: Row, rerank: bool): seq<Candidate> {
    Sort(Order(rerank), row.candidates)
  }

  /** Ranking loses and invents nothing, and no candidate precedes one of a smaller key. */
  lemma RankedBestFirst(row: Row, rerank: bool)
    ensures multiset(Ranked(row, rerank)) == multiset(row.candidates)
    ensures forall i, j :: 0 <= i < j < |Ranked(row, rerank)| ==>
              var a, b := Ranked(row, rerank)[i], Ranked(row, rerank)[j];
              if rerank then
                || a.similarity > b.similarity
                || (a.similarity == b.similarity &&
                    (a.ringKeyDistance < b.ringKeyDistance
                     || (a.ringKeyDistance == b.ringKeyDistance && a.scanId <= b.scanId)))
              else
                || a.ringKeyDistance < b.ringKeyDistance
                || (a.ringKeyDistance == b.ringKeyDistance &&
                    (a.similarity > b.similarity || (a.similarity == b.similarity && a.scanId <= b.scanId)))
  {
    SortKeepsItems(Order(rerank), row.candidates);
    SortSorts(Order(rerank), row.candidates);
    var r := Ranked(row, rerank);
    forall i, j | 0 <= i < j < |r|
      ensures NotAfter(KeyOf(rerank, r[i]), KeyOf(rerank, r[j]))
    {
      assert Order(rerank)(r[i], r[j]);
    }
  }

  // ----- What is counted -----

  datatype Truth = Truth(eligible: map<int, set<int>>, poses: map<int, Pose>, rerank: bool)

  function PositivesOf(t: Truth, q: int): set<int> {
    if q in t.eligible then t.eligible[q] else {}
  }

  function HasPose(poses: map<int, Pose>): Candidate -> bool {
    (c: Candidate) => c.scanId in poses
  }

  function IsAmong(positives: set<int>): Candidate -> bool {
    (c: Candidate) => c.scanId in positives
  }

  predicate IsTrue(t: Truth, q: int, c: Candidate) {
    c.scanId in t.poses && c.scanId in PositivesOf(t, q)
  }

  function Best(s: seq<Candidate>, k: nat): (r: seq<Candidate>)
    ensures |r| <= k && |r| <= |s| && r == s[..|r|] && (|r| == k || r == s)
  {
    if |s| <= k then s else s[..k]
  }

  ghost predicate Hits(t: Truth, row: Row, k: nat) {
    exists c :: c in Best(Ranked(row, t.rerank), k) && IsTrue(t, row.queryId, c)
  }

  ghost function HitSet(t: Truth, rows: seq<Row>, k: nat): set<int> {
    set i | 0 <= i < |rows| && Hits(t, rows[i], k) :: rows[i].queryId
  }

  function ScoredIn(t: Truth, row: Row, k: nat): seq<Candidate> {
    Filter(HasPose(t.poses), Best(Ranked(row, t.rerank), k))
  }

  function TrueIn(t: Truth, row: Row, k: nat): seq<Candidate> {
    Filter(IsAmong(PositivesOf(t, row.queryId)), ScoredIn(t, row, k))
  }

  function Sum(f: Row -> nat, rows: seq<Row>): nat {
    if rows == [] then 0 else Sum(f, rows[..|rows| - 1]) + f(rows[|rows| - 1])
  }

  function Selected(t: Truth, k: nat): Row -> nat {
    (row: Row) => |Best(Ranked(row, t.rerank), k)|
  }

  function Scored(t: Truth, k: nat): Row -> nat {
    (row: Row) => |ScoredIn(t, row, k)|
  }

  function Trues(t: Truth, k: nat): Row -> nat {
    (row: Row) => |TrueIn(t, row, k)|
  }

  /** `first` is the rank, from 1, of the first true candidate among the best `k`. */
  ghost predicate IsFirstTrue(t: Truth, row: Row, k: nat, first: Option<nat>) {
    var r := Best(Ranked(row, t.rerank), k);
    match first
    case None => forall i :: 0 <= i < |r| ==> !IsTrue(t, row.queryId, r[i])
    case Some(rank) =>
      && 1 <= rank <= |r| && IsTrue(t, row.queryId, r[rank - 1])
      && forall i :: 0 <= i < rank - 1 ==> !IsTrue(t, row.queryId, r[i])
  }

  function Reciprocal(first: Option<nat>): real
    requires first.Some? ==> first.value > 0
  {
    if first.None? then 0.0 else 1.0 / (first.value as real)
  }

  // ----- Scoring a ranking -----

  method FirstTrue(t: Truth, row: Row, k: nat) returns (first: Option<nat>)
    ensures IsFirstTrue(t, row, k, first)
  {
    first := None;
    var r := Best(Ranked(row, t.rerank), k);
    for i := 0 to |r|
      invariant first.None? ==> forall j :: 0 <= j < i ==> !IsTrue(t, row.queryId, r[j])
      invariant first.Some? ==> first.value <= i && IsFirstTrue(t, row, k, first)
    {
      if r[i].scanId !in t.poses {
        continue;
      }
      if r[i].scanId in PositivesOf(t, row.queryId) && first.None? {
        first := Some(i + 1);
      }
    }
  }

  predicate GoodCutoffs(ks: seq<int>) {
    ks != [] && ks[0] > 0 && forall i :: 0 < i < |ks| ==> ks[i - 1] < ks[i]
  }

  lemma LastIsLargest(ks: seq<int>, i: nat)
    requires GoodCutoffs(ks) && i < |ks|
    ensures 0 < ks[i] <= ks[|ks| - 1]
    ensures forall j :: 0 <= j < i ==> ks[j] < ks[i]
  {
    forall j: nat | j <= i
      ensures 0 < ks[j] <= ks[i] && (j < i ==> ks[j] < ks[i])
    {
      Ascends(ks, 0, j);
      Ascends(ks, j, i);
    }
    Ascends(ks, i, |ks| - 1);
  }

  lemma {:induction false} Ascends(ks: seq<int>, i: nat, j: nat)
    requires GoodCutoffs(ks) && i <= j < |ks|
    ensures i < j ==> ks[i] < ks[j]
    decreases j
  {
    if i < j {
      Ascends(ks, i, j - 1);
    }
  }

  datatype Counts = Counts(hits: set<int>, trues: nat, scored: nat, unscored: nat)

  ghost predicate CountsAre(t: Truth, rows: seq<Row>, k: nat, c: Counts) {
    && c.hits == HitSet(t, rows, k) && c.trues == Sum(Trues(t, k), rows) && c.scored == Sum(Scored(t, k), rows)
    && c.scored + c.unscored == Sum(Selected(t, k), rows)
  }

  /** One reciprocal rank for each row with positives, in order. */
  ghost predicate RanksAre(t: Truth, rows: seq<Row>, k: nat, ranks: seq<real>)
    decreases |rows|
  {
    if rows == [] then ranks == []
    else
      var init, last := rows[..|rows| - 1], rows[|rows| - 1];
      if PositivesOf(t, last.queryId) == {} then RanksAre(t, init, k, ranks)
      else
        && ranks != [] && RanksAre(t, init, k, ranks[..|ranks| - 1])
        && exists first :: IsFirstTrue(t, last, k, first) && ranks[|ranks| - 1] == Reciprocal(first)
  }

  lemma TrueMembers(t: Truth, row: Row, k: nat)
    ensures |TrueIn(t, row, k)| <= |ScoredIn(t, row, k)| <= |Best(Ranked(row, t.rerank), k)|
    ensures forall c :: c in TrueIn(t, row, k) <==> c in Best(Ranked(row, t.rerank), k) && IsTrue(t, row.queryId, c)
  {
    FilterMembers(HasPose(t.poses), Best(Ranked(row, t.rerank), k));
    FilterMembers(IsAmong(PositivesOf(t, row.queryId)), ScoredIn(t, row, k));
  }

  lemma TruePairsHit(t: Truth, row: Row, k: nat)
    ensures |TrueIn(t, row, k)| <= |ScoredIn(t, row, k)| <= |Best(Ranked(row, t.rerank), k)|
    ensures |TrueIn(t, row, k)| > 0 <==> Hits(t, row, k)
  {
    TrueMembers(t, row, k);
    var trues := TrueIn(t, row, k);
    if |trues| > 0 {
      assert trues[0] in trues;
    }
  }

  lemma OneMoreRow(t: Truth, rows: seq<Row>, row: Row, k: nat)
    ensures HitSet(t, rows + [row], k) == HitSet(t, rows, k) + if Hits(t, row, k) then {row.queryId} else {}
  {
    var all := rows + [row];
    assert forall i :: 0 <= i < |rows| ==> all[i] == rows[i];
    if Hits(t, row, k) {
      assert Hits(t, all[|rows|], k);
    }
    forall q | q in HitSet(t, rows, k)
      ensures q in HitSet(t, all, k)
    {
      var i :| 0 <= i < |rows| && Hits(t, rows[i], k) && rows[i].queryId == q;
      assert Hits(t, all[i], k);
    }
  }

  lemma SumOneMore(f: Row -> nat, rows: seq<Row>, row: Row)
    ensures Sum(f, rows + [row]) == Sum(f, rows) + f(row)
  {
    assert (rows + [row])[..|rows|] == rows;
  }

  /** The counters of one cut-off after one more row. */
  method CountRow(t: Truth, ghost rows: seq<Row>, row: Row, k: nat, c: Counts) returns (c': Counts)
    requires CountsAre(t, rows, k, c)
    ensures CountsAre(t, rows + [row], k, c')
  {
    var selected := Best(Ranked(row, t.rerank), k);
    var scored := Filter(HasPose(t.poses), selected);
    TruePairsHit(t, row, k);
    var unscored: nat := |selected| - |scored|;
    var count := |Filter(IsAmong(PositivesOf(t, row.queryId)), scored)|;
    var hits := if PositivesOf(t, row.queryId) != {} && count > 0 then c.hits + {row.queryId} else c.hits;
    c' := Counts(hits, c.trues + count, c.scored + |scored|, c.unscored + unscored);
    OneMoreRow(t, rows, row, k);
    SumOneMore(Trues(t, k), rows, row);
    SumOneMore(Scored(t, k), rows, row);
    SumOneMore(Selected(t, k), rows, row);
    HitNeedsPositives(t, row, k);
  }

  lemma HitNeedsPositives(t: Truth, row: Row, k: nat)
    ensures Hits(t, row, k) ==> PositivesOf(t, row.queryId) != {}
  {
  }

  method CountAll(t: Truth, ghost rows: seq<Row>, row: Row, ks: seq<nat>, before: seq<Counts>)
    returns (counts: seq<Counts>)
    requires |before| == |ks| && forall i :: 0 <= i < |ks| ==> CountsAre(t, rows, ks[i], before[i])
    ensures |counts| == |ks| && forall i :: 0 <= i < |ks| ==> CountsAre(t, rows + [row], ks[i], counts[i])
  {
    counts := before;
    for k := 0 to |ks|
      invariant |counts| == |ks|
      invariant forall i :: 0 <= i < k ==> CountsAre(t, rows + [row], ks[i], counts[i])
      invariant forall i :: k <= i < |ks| ==> CountsAre(t, rows, ks[i], counts[i])
    {
      var c := CountRow(t, rows, row, ks[k], counts[k]);
      counts := counts[k := c];
    }
  }

  lemma OneMoreRank(t: Truth, rows: seq<Row>, row: Row, k: nat, ranks: seq<real>, first: Option<nat>)
    requires RanksAre(t, rows, k, ranks) && IsFirstTrue(t, row, k, first)
    ensures PositivesOf(t, row.queryId) == {} ==> RanksAre(t, rows + [row], k, ranks)
    ensures PositivesOf(t, row.queryId) != {} ==> RanksAre(t, rows + [row], k, ranks + [Reciprocal(first)])
  {
    assert (rows + [row])[..|rows|] == rows;
    assert (ranks + [Reciprocal(first)])[..|ranks|] == ranks;
  }

  method ScoreRanking(t: Truth, rows: seq<Row>, ks: seq<nat>) returns (counts: seq<Counts>, ranks: seq<real>)
    requires GoodCutoffs(ks)
    ensures |counts| == |ks| && forall i :: 0 <= i < |ks| ==> CountsAre(t, rows, ks[i], counts[i])
    ensures RanksAre(t, rows, ks[|ks| - 1], ranks)
  {
    var maxK := ks[|ks| - 1];
    counts := seq(|ks|, _ => Counts({}, 0, 0, 0));
    ranks := [];
    for n := 0 to |rows|
      invariant |counts| == |ks| && forall i :: 0 <= i < |ks| ==> CountsAre(t, rows[..n], ks[i], counts[i])
      invariant RanksAre(t, rows[..n], maxK, ranks)
    {
      var row := rows[n];
      assert rows[..n + 1] == rows[..n] + [row];
      var first := FirstTrue(t, row, maxK);
      OneMoreRank(t, rows[..n], row, maxK, ranks, first);
      if PositivesOf(t, row.queryId) != {} {
        ranks := ranks + [Reciprocal(first)];
      }
      counts := CountAll(t, rows[..n], row, ks, counts);
    }
    assert rows[..|rows|] == rows;
  }

  // ----- The reported numbers -----

  function Total(values: seq<real>): real {
    if values == [] then 0.0 else Total(values[..|values| - 1]) + values[|values| - 1]
  }

  function MeanReciprocalRank(ranks: seq<real>): real {
    if ranks == [] then 0.0 else Total(ranks) / (|ranks| as real)
  }

  function Ratio(part: nat, whole: nat): (r: real)
    ensures whole > 0 ==> r * whole as real == part as real
    ensures whole == 0 ==> r == 0.0
  {
    if whole == 0 then 0.0 else (part as real) / (whole as real)
  }

  function Recall(t: Truth, c: Counts): real {
    Ratio(|c.hits|, |t.eligible|)
  }

  function Precision(c: Counts): real {
    Ratio(c.trues, c.scored)
  }

  /** What the construction of `eligible` gives: keys are row ids, and no entry is empty. */
  ghost predicate EligibleFits(eligible: map<int, set<int>>, rows: seq<Row>) {
    forall q | q in eligible :: eligible[q] != {} && exists i :: 0 <= i < |rows| && rows[i].queryId == q
  }

  lemma ExactEligibleFits(
    rows: seq<Row>, poses: map<int, Pose>, separation: real, radius: real, eligible: map<int, set<int>>)
    requires EligibleIsExact(rows, poses, separation, radius, |rows|, eligible)
    ensures EligibleFits(eligible, rows)
  {
  }

  lemma BestGrows(s: seq<Candidate>, k: nat, k': nat)
    requires k <= k'
    ensures forall c :: c in Best(s, k) ==> c in Best(s, k')
  {
    var small, large := Best(s, k), Best(s, k');
    assert |small| <= |large|;
    assert forall i :: 0 <= i < |small| ==> small[i] == large[i];
  }

  /** A larger cut-off hits every query a smaller one does. */
  lemma HitsGrow(t: Truth, rows: seq<Row>, k: nat, k': nat)
    requires k <= k'
    ensures HitSet(t, rows, k) <= HitSet(t, rows, k')
  {
    forall q | q in HitSet(t, rows, k)
      ensures q in HitSet(t, rows, k')
    {
      var i :| 0 <= i < |rows| && Hits(t, rows[i], k) && rows[i].queryId == q;
      BestGrows(Ranked(rows[i], t.rerank), k, k');
      assert Hits(t, rows[i], k');
    }
  }

  // ----- Reciprocal ranks against hits -----

  lemma InverseBounds(rank: nat, k: nat)
    requires 1 <= rank
    ensures 0.0 < 1.0 / (rank as real) <= 1.0
    ensures Weighted(k, 1.0 / (rank as real)) >= 0.0
    ensures rank <= k ==> Weighted(k, 1.0 / (rank as real)) >= 1.0
  {
    var r := 1.0 / (rank as real);
    assert r * (rank as real) == 1.0;
    ScaleUp(r, 0.0, k as real);
    if rank <= k {
      ScaleUp(r, rank as real, k as real);
    }
  }

  lemma ScaleUp(r: real, a: real, b: real)
    requires r > 0.0 && a <= b
    ensures b * r >= r * a
  {
  }

  function Weighted(k: nat, r: real): real {
    (k as real) * r
  }

  function WeightedTotal(k: nat, ranks: seq<real>): real {
    if ranks == [] then 0.0 else WeightedTotal(k, ranks[..|ranks| - 1]) + Weighted(k, ranks[|ranks| - 1])
  }

  lemma {:induction false} WeightedTotalIs(k: nat, ranks: seq<real>)
    ensures WeightedTotal(k, ranks) == (k as real) * Total(ranks)
  {
    if ranks != [] {
      var init, r := ranks[..|ranks| - 1], ranks[|ranks| - 1];
      WeightedTotalIs(k, init);
      Distribute(k as real, Total(init), r);
    }
  }

  lemma Distribute(k: real, x: real, y: real)
    ensures k * (x + y) == k * x + k * y
  {
  }

  /** The rank of the first true candidate lies within k exactly when k hits the query. */
  lemma FirstTrueAgainstHits(t: Truth, row: Row, maxK: nat, k: nat, first: Option<nat>)
    requires IsFirstTrue(t, row, maxK, first) && k <= maxK
    ensures Hits(t, row, k) <==> first.Some? && first.value <= k
  {
    var ranked := Ranked(row, t.rerank);
    var best, r := Best(ranked, k), Best(ranked, maxK);
    if Hits(t, row, k) {
      var c :| c in best && IsTrue(t, row.queryId, c);
      var i :| 0 <= i < |best| && best[i] == c;
      assert r[i] == c;
    }
    if first.Some? && first.value <= k {
      assert best[first.value - 1] == r[first.value - 1];
    }
  }

  /** What one row adds to the sum, against what it adds to the hits. */
  lemma RowBounds(t: Truth, row: Row, maxK: nat, k: nat, first: Option<nat>)
    requires IsFirstTrue(t, row, maxK, first) && k <= maxK
    ensures 0.0 <= Reciprocal(first)
    ensures Hits(t, row, k) ==> Weighted(k, Reciprocal(first)) >= 1.0
    ensures Reciprocal(first) <= if Hits(t, row, maxK) then 1.0 else 0.0
  {
    FirstTrueAgainstHits(t, row, maxK, k, first);
    FirstTrueAgainstHits(t, row, maxK, maxK, first);
    if first.Some? {
      InverseBounds(first.value, k);
    }
  }

  lemma RankAgainstHit(t: Truth, row: Row, maxK: nat, k: nat, r: real)
    requires (exists first :: IsFirstTrue(t, row, maxK, first) && r == Reciprocal(first)) && k <= maxK
    ensures (if Hits(t, row, k) then 1.0 else 0.0) <= Weighted(k, r)
  {
    var first :| IsFirstTrue(t, row, maxK, first) && r == Reciprocal(first);
    RowBounds(t, row, maxK, k, first);
    if first.Some? {
      InverseBounds(first.value, k);
    }
  }

  lemma AtMostOneMoreHit(t: Truth, rows: seq<Row>, row: Row, k: nat)
    ensures |HitSet(t, rows + [row], k)| as real <=
            (|HitSet(t, rows, k)| as real) + if Hits(t, row, k) then 1.0 else 0.0
  {
    OneMoreRow(t, rows, row, k);
  }

  /** Hits at k never exceed k times the sum of the reciprocal ranks. */
  lemma {:induction false} HitsAgainstRanks(t: Truth, rows: seq<Row>, maxK: nat, k: nat, ranks: seq<real>)
    requires RanksAre(t, rows, maxK, ranks) && k <= maxK
    ensures |HitSet(t, rows, k)| as real <= WeightedTotal(k, ranks)
    decreases |rows|
  {
    if rows != [] {
      var init, last := rows[..|rows| - 1], rows[|rows| - 1];
      assert rows == init + [last];
      AtMostOneMoreHit(t, init, last, k);
      if PositivesOf(t, last.queryId) == {} {
        HitsAgainstRanks(t, init, maxK, k, ranks);
        HitNeedsPositives(t, last, k);
      } else {
        var before, r := ranks[..|ranks| - 1], ranks[|ranks| - 1];
        HitsAgainstRanks(t, init, maxK, k, before);
        RankAgainstHit(t, last, maxK, k, r);
      }
    } else {
      assert HitSet(t, rows, k) == {};
    }
  }

  lemma NewIdIsNoHit(t: Truth, init: seq<Row>, last: Row, k: nat)
    requires UniqueIds(init + [last])
    ensures last.queryId !in HitSet(t, init, k)
  {
    var rows := init + [last];
    forall i | 0 <= i < |init|
      ensures init[i].queryId != last.queryId
    {
      assert rows[i] == init[i] && rows[|init|] == last;
    }
  }

  lemma UniqueInit(init: seq<Row>, last: Row)
    requires UniqueIds(init + [last])
    ensures UniqueIds(init)
  {
    assert forall i :: 0 <= i < |init| ==> (init + [last])[i] == init[i];
  }

  /** The sum of the reciprocal ranks never exceeds the hits at the largest cut-off. */
  lemma {:induction false} RanksAgainstHits(t: Truth, rows: seq<Row>, maxK: nat, ranks: seq<real>)
    requires RanksAre(t, rows, maxK, ranks) && UniqueIds(rows)
    ensures 0.0 <= Total(ranks) <= |HitSet(t, rows, maxK)| as real
    decreases |rows|
  {
    if rows != [] {
      var init, last := rows[..|rows| - 1], rows[|rows| - 1];
      assert rows == init + [last];
      UniqueInit(init, last);
      OneMoreRow(t, init, last, maxK);
      NewIdIsNoHit(t, init, last, maxK);
      if PositivesOf(t, last.queryId) == {} {
        RanksAgainstHits(t, init, maxK, ranks);
        HitNeedsPositives(t, last, maxK);
      } else {
        RanksAgainstHits(t, init, maxK, ranks[..|ranks| - 1]);
        var first :| IsFirstTrue(t, last, maxK, first) && ranks[|ranks| - 1] == Reciprocal(first);
        RowBounds(t, last, maxK, maxK, first);
      }
    }
  }

  /** The eligible queries among some rows. */
  ghost function EligibleIn(t: Truth, rows: seq<Row>): set<int> {
    set i | 0 <= i < |rows| && PositivesOf(t, rows[i].queryId) != {} :: rows[i].queryId
  }

  lemma EligibleInOneMore(t: Truth, init: seq<Row>, last: Row)
    requires UniqueIds(init + [last])
    ensures EligibleIn(t, init + [last]) ==
            EligibleIn(t, init) + if PositivesOf(t, last.queryId) != {} then {last.queryId} else {}
    ensures last.queryId !in EligibleIn(t, init)
  {
    var rows := init + [last];
    assert forall i :: 0 <= i < |init| ==> rows[i] == init[i];
    assert rows[|init|] == last;
    forall q | q in EligibleIn(t, init)
      ensures q in EligibleIn(t, rows)
    {
      var i :| 0 <= i < |init| && PositivesOf(t, init[i].queryId) != {} && init[i].queryId == q;
      assert rows[i].queryId == q;
    }
  }

  /** As many reciprocal ranks as eligible queries, because no query id occurs twice. */
  lemma {:induction false} OneRankEach(t: Truth, rows: seq<Row>, maxK: nat, ranks: seq<real>)
    requires RanksAre(t, rows, maxK, ranks) && UniqueIds(rows)
    ensures |ranks| == |EligibleIn(t, rows)|
    decreases |rows|
  {
    if rows != [] {
      var init, last := rows[..|rows| - 1], rows[|rows| - 1];
      assert rows == init + [last];
      UniqueInit(init, last);
      EligibleInOneMore(t, init, last);
      if PositivesOf(t, last.queryId) == {} {
        OneRankEach(t, init, maxK, ranks);
      } else {
        OneRankEach(t, init, maxK, ranks[..|ranks| - 1]);
      }
    }
  }

  lemma AllEligibleAreIn(t: Truth, rows: seq<Row>)
    requires EligibleFits(t.eligible, rows)
    ensures EligibleIn(t, rows) == t.eligible.Keys && |t.eligible.Keys| == |t.eligible|
  {
    assert |t.eligible.Keys| == |t.eligible|;
    forall q | q in t.eligible.Keys
      ensures q in EligibleIn(t, rows)
    {
      var i :| 0 <= i < |rows| && rows[i].queryId == q;
      assert PositivesOf(t, rows[i].queryId) == t.eligible[q];
    }
  }

  // ----- What the reported numbers promise -----

  lemma RatioIsMonotone(a: nat, b: nat, whole: nat)
    requires a <= b <= whole
    ensures 0.0 <= Ratio(a, whole) <= Ratio(b, whole) <= 1.0
  {
    if whole > 0 {
      QuotientsCompare(a as real, b as real, whole as real);
      QuotientsCompare(b as real, whole as real, whole as real);
      QuotientsCompare(0.0, a as real, whole as real);
    }
  }

  lemma QuotientsCompare(x: real, y: real, w: real)
    requires w > 0.0 && x <= y
    ensures x / w <= y / w && w / w == 1.0 && 0.0 / w == 0.0
  {
  }

  lemma ScaledQuotient(k: real, x: real, w: real)
    requires w > 0.0
    ensures (k * x) / w == k * (x / w)
  {
  }

  /** Only eligible queries can be hit. */
  lemma HitsAreEligible(t: Truth, rows: seq<Row>, k: nat)
    ensures HitSet(t, rows, k) <= t.eligible.Keys && |HitSet(t, rows, k)| <= |t.eligible|
  {
    forall q | q in HitSet(t, rows, k)
      ensures q in t.eligible.Keys
    {
      var i :| 0 <= i < |rows| && Hits(t, rows[i], k) && rows[i].queryId == q;
      HitNeedsPositives(t, rows[i], k);
    }
    Within(HitSet(t, rows, k), t.eligible.Keys);
    assert |t.eligible.Keys| == |t.eligible|;
  }

  lemma {:induction false} Within<T>(a: set<T>, b: set<T>)
    requires a <= b
    ensures |a| <= |b|
  {
    assert b == a + (b - a);
  }

  /** A larger cut-off never lowers the recall, and recall is a proportion. */
  lemma RecallGrows(t: Truth, rows: seq<Row>, k: nat, k': nat, c: Counts, c': Counts)
    requires CountsAre(t, rows, k, c) && CountsAre(t, rows, k', c') && k <= k'
    ensures c.hits <= c'.hits && 0.0 <= Recall(t, c) <= Recall(t, c') <= 1.0
  {
    HitsGrow(t, rows, k, k');
    HitsAreEligible(t, rows, k');
    Within(c.hits, c'.hits);
    RatioIsMonotone(|c.hits|, |c'.hits|, |t.eligible|);
  }

  lemma MeanStep(hits: real, k: real, total: real, n: real)
    requires n > 0.0 && hits <= k * total
    ensures hits / n <= k * (total / n)
  {
    QuotientsCompare(hits, k * total, n);
    ScaledQuotient(k, total, n);
  }

  /** Recall at k is at most k times the mean reciprocal rank. */
  lemma RecallAgainstMean(t: Truth, rows: seq<Row>, maxK: nat, k: nat, c: Counts, ranks: seq<real>)
    requires UniqueIds(rows) && EligibleFits(t.eligible, rows)
    requires CountsAre(t, rows, k, c) && RanksAre(t, rows, maxK, ranks) && k <= maxK
    ensures Recall(t, c) <= Weighted(k, MeanReciprocalRank(ranks))
  {
    OneRankEach(t, rows, maxK, ranks);
    AllEligibleAreIn(t, rows);
    HitsAgainstRanks(t, rows, maxK, k, ranks);
    RatioAgainstMean(|c.hits|, k, ranks);
  }

  lemma RatioAgainstMean(hits: nat, k: nat, ranks: seq<real>)
    requires hits as real <= WeightedTotal(k, ranks)
    ensures Ratio(hits, |ranks|) <= Weighted(k, MeanReciprocalRank(ranks))
  {
    WeightedTotalIs(k, ranks);
    if ranks != [] {
      MeanStep(hits as real, k as real, Total(ranks), |ranks| as real);
    }
  }

  /** The mean reciprocal rank is at most the recall at the largest cut-off. */
  lemma MeanAgainstRecall(t: Truth, rows: seq<Row>, maxK: nat, c: Counts, ranks: seq<real>)
    requires UniqueIds(rows) && EligibleFits(t.eligible, rows)
    requires CountsAre(t, rows, maxK, c) && RanksAre(t, rows, maxK, ranks)
    ensures 0.0 <= MeanReciprocalRank(ranks) <= Recall(t, c)
  {
    OneRankEach(t, rows, maxK, ranks);
    AllEligibleAreIn(t, rows);
    RanksAgainstHits(t, rows, maxK, ranks);
    if ranks != [] {
      QuotientsCompare(Total(ranks), |c.hits| as real, |ranks| as real);
      QuotientsCompare(0.0, Total(ranks), |ranks| as real);
    }
  }

  lemma {:induction false} SumsCompare(f: Row -> nat, g: Row -> nat, rows: seq<Row>)
    requires forall row :: f(row) <= g(row)
    ensures Sum(f, rows) <= Sum(g, rows)
  {
    if rows != [] {
      SumsCompare(f, g, rows[..|rows| - 1]);
    }
  }

  /** True pairs never exceed scored pairs, so precision is a proportion. */
  lemma PrecisionIsProportion(t: Truth, rows: seq<Row>, k: nat, c: Counts)
    requires CountsAre(t, rows, k, c)
    ensures c.trues <= c.scored && 0.0 <= Precision(c) <= 1.0
  {
    forall row
      ensures Trues(t, k)(row) <= Scored(t, k)(row)
    {
      TruePairsHit(t, row, k);
    }
    SumsCompare(Trues(t, k), Scored(t, k), rows);
    RatioIsMonotone(c.trues, c.scored, c.scored);
  }

  // ----- Two rankings of the same candidates -----

  /** Within a cut-off that covers the list, what is counted does not depend on the ranking. */
  lemma WholeListCounts(t: Truth, row: Row, k: nat)
    requires |row.candidates| <= k
    ensures |ScoredIn(t, row, k)| == |Filter(HasPose(t.poses), row.candidates)|
    ensures |TrueIn(t, row, k)| == |Filter(IsAmong(PositivesOf(t, row.queryId) * t.poses.Keys), row.candidates)|
  {
    var q, p := HasPose(t.poses), IsAmong(PositivesOf(t, row.queryId));
    var both := IsAmong(PositivesOf(t, row.queryId) * t.poses.Keys);
    SortKeepsLength(Order(t.rerank), row.candidates);
    assert Best(Ranked(row, t.rerank), k) == Ranked(row, t.rerank);
    SortCounts(Order(t.rerank), row.candidates, q);
    FilterTwice(p, q, both, Ranked(row, t.rerank));
    SortCounts(Order(t.rerank), row.candidates, both);
  }

  lemma {:induction false} SumsAgree(f: Row -> nat, g: Row -> nat, rows: seq<Row>)
    requires forall i :: 0 <= i < |rows| ==> f(rows[i]) == g(rows[i])
    ensures Sum(f, rows) == Sum(g, rows)
  {
    if rows != [] {
      SumsAgree(f, g, rows[..|rows| - 1]);
    }
  }

  lemma SameRowCounts(t: Truth, u: Truth, row: Row, k: nat)
    requires u == t.(rerank := !t.rerank) && |row.candidates| <= k
    ensures Scored(t, k)(row) == Scored(u, k)(row) && Trues(t, k)(row) == Trues(u, k)(row)
    ensures Hits(t, row, k) == Hits(u, row, k)
  {
    WholeListCounts(t, row, k);
    WholeListCounts(u, row, k);
    assert PositivesOf(t, row.queryId) == PositivesOf(u, row.queryId);
    TruePairsHit(t, row, k);
    TruePairsHit(u, row, k);
  }

  /**
   At a cut-off no smaller than any candidate list, reranking by similarity and ring-key retrieval
   report the same hits and the same pairs: the two rankings differ only in the order they give.
   */
  lemma RerankingOnlyReorders(t: Truth, rows: seq<Row>, k: nat)
    requires forall i :: 0 <= i < |rows| ==> |rows[i].candidates| <= k
    ensures var u := t.(rerank := !t.rerank);
            && HitSet(t, rows, k) == HitSet(u, rows, k)
            && Sum(Trues(t, k), rows) == Sum(Trues(u, k), rows) && Sum(Scored(t, k), rows) == Sum(Scored(u, k), rows)
  {
    var u := t.(rerank := !t.rerank);
    forall i | 0 <= i < |rows|
      ensures Scored(t, k)(rows[i]) == Scored(u, k)(rows[i]) && Trues(t, k)(rows[i]) == Trues(u, k)(rows[i])
      ensures Hits(t, rows[i], k) == Hits(u, rows[i], k)
    {
      SameRowCounts(t, u, rows[i], k);
    }
    SumsAgree(Trues(t, k), Trues(u, k), rows);
    SumsAgree(Scored(t, k), Scored(u, k), rows);
  }

  // ----- The counters as counts of pairs -----

  /** The places among the best `k` of a row whose candidate is liked. */
  ghost function Places(t: Truth, row: Row, k: nat, liked: (Row, Candidate) -> bool): set<int> {
    set j | 0 <= j < |Ranked(row, t.rerank)| && j < k && liked(row, Ranked(row, t.rerank)[j])
  }

  ghost function Pairs(t: Truth, rows: seq<Row>, k: nat, liked: (Row, Candidate) -> bool): set<(int, int)> {
    set i, j | 0 <= i < |rows| && j in Places(t, rows[i], k, liked) :: (i, j)
  }

  ghost function Likes(liked: (Row, Candidate) -> bool, row: Row): Candidate -> bool {
    (c: Candidate) => liked(row, c)
  }

  ghost function InRow(i: int, js: set<int>): set<(int, int)> {
    set j | j in js :: (i, j)
  }

  lemma {:induction false} InRowCounts(i: int, keep: Candidate -> bool, s: seq<Candidate>)
    ensures |InRow(i, Positions(keep, s))| == |Filter(keep, s)|
  {
    if s == [] {
      assert InRow(i, Positions(keep, s)) == {};
    } else {
      var n := |s| - 1;
      InRowCounts(i, keep, s[..n]);
      assert Positions(keep, s) == Positions(keep, s[..n]) + if keep(s[n]) then {n} else {};
      assert InRow(i, Positions(keep, s)) == InRow(i, Positions(keep, s[..n])) + if keep(s[n]) then {(i, n)} else {};
    }
  }

  lemma PairsJoin(t: Truth, rows: seq<Row>, row: Row, k: nat, liked: (Row, Candidate) -> bool)
    ensures Pairs(t, rows + [row], k, liked) == Pairs(t, rows, k, liked) + InRow(|rows|, Places(t, row, k, liked))
    ensures Pairs(t, rows, k, liked) !! InRow(|rows|, Places(t, row, k, liked))
  {
    var all, places := rows + [row], Places(t, row, k, liked);
    forall i, j
      ensures (i, j) in Pairs(t, all, k, liked) <==>
              (i, j) in Pairs(t, rows, k, liked) || (i, j) in InRow(|rows|, places)
    {
      assert 0 <= i < |rows| ==> all[i] == rows[i];
    }
  }

  lemma PlacesArePositions(t: Truth, row: Row, k: nat, liked: (Row, Candidate) -> bool)
    ensures Places(t, row, k, liked) == Positions(Likes(liked, row), Best(Ranked(row, t.rerank), k))
  {
  }

  lemma SizesAdd(a: set<(int, int)>, b: set<(int, int)>)
    requires a !! b
    ensures |a + b| == |a| + |b|
  {
  }

  lemma PairsOneMore(t: Truth, rows: seq<Row>, row: Row, k: nat, liked: (Row, Candidate) -> bool)
    ensures |Pairs(t, rows + [row], k, liked)| ==
            |Pairs(t, rows, k, liked)| + |Filter(Likes(liked, row), Best(Ranked(row, t.rerank), k))|
  {
    var best := Best(Ranked(row, t.rerank), k);
    PairsJoin(t, rows, row, k, liked);
    PlacesArePositions(t, row, k, liked);
    SizesAdd(Pairs(t, rows, k, liked), InRow(|rows|, Positions(Likes(liked, row), best)));
    InRowCounts(|rows|, Likes(liked, row), best);
  }

  ghost predicate Tallies(t: Truth, k: nat, liked: (Row, Candidate) -> bool, f: Row -> nat, row: Row) {
    f(row) == |Filter(Likes(liked, row), Best(Ranked(row, t.rerank), k))|
  }

  lemma {:induction false} SumCountsPairs(
    t: Truth, rows: seq<Row>, k: nat, liked: (Row, Candidate) -> bool, f: Row -> nat)
    requires forall row :: Tallies(t, k, liked, f, row)
    ensures Sum(f, rows) == |Pairs(t, rows, k, liked)|
  {
    if rows == [] {
      assert Pairs(t, rows, k, liked) == {};
    } else {
      var init, last := rows[..|rows| - 1], rows[|rows| - 1];
      SumCountsPairs(t, init, k, liked, f);
      PairsOneMore(t, init, last, k, liked);
      assert rows == init + [last];
      assert Tallies(t, k, liked, f, last);
    }
  }

  ghost function HasNoPose(poses: map<int, Pose>): Candidate -> bool {
    (c: Candidate) => c.scanId !in poses
  }

  lemma {:induction false} SumsAdd(f: Row -> nat, g: Row -> nat, both: Row -> nat, rows: seq<Row>)
    requires forall row :: both(row) == f(row) + g(row)
    ensures Sum(both, rows) == Sum(f, rows) + Sum(g, rows)
  {
    if rows != [] {
      SumsAdd(f, g, both, rows[..|rows| - 1]);
    }
  }

  ghost function Unscored(t: Truth, k: nat): Row -> nat {
    (row: Row) => |Filter(HasNoPose(t.poses), Best(Ranked(row, t.rerank), k))|
  }

  /**
   The counters of a cut-off count pairs of a query and one of its best candidates: the true ones,
   those with a pose, and the others.
   */
  lemma CountersCountPairs(t: Truth, rows: seq<Row>, k: nat, c: Counts)
    requires CountsAre(t, rows, k, c)
    ensures c.trues == |Pairs(t, rows, k, (row: Row, x: Candidate) => IsTrue(t, row.queryId, x))|
    ensures c.scored == |Pairs(t, rows, k, (_: Row, x: Candidate) => x.scanId in t.poses)|
    ensures c.unscored == |Pairs(t, rows, k, (_: Row, x: Candidate) => x.scanId !in t.poses)|
  {
    TruesCountPairs(t, rows, k);
    ScoredCountPairs(t, rows, k);
    UnscoredCountPairs(t, rows, k);
    forall row
      ensures Selected(t, k)(row) == Scored(t, k)(row) + Unscored(t, k)(row)
    {
      FilterSplits(HasPose(t.poses), HasNoPose(t.poses), Best(Ranked(row, t.rerank), k));
    }
    SumsAdd(Scored(t, k), Unscored(t, k), Selected(t, k), rows);
  }

  lemma ScoredCountPairs(t: Truth, rows: seq<Row>, k: nat)
    ensures Sum(Scored(t, k), rows) == |Pairs(t, rows, k, (_: Row, x: Candidate) => x.scanId in t.poses)|
  {
    var liked := (_: Row, x: Candidate) => x.scanId in t.poses;
    forall row
      ensures Tallies(t, k, liked, Scored(t, k), row)
    {
      FilterSame(HasPose(t.poses), Likes(liked, row), Best(Ranked(row, t.rerank), k));
    }
    SumCountsPairs(t, rows, k, liked, Scored(t, k));
  }

  lemma UnscoredCountPairs(t: Truth, rows: seq<Row>, k: nat)
    ensures Sum(Unscored(t, k), rows) == |Pairs(t, rows, k, (_: Row, x: Candidate) => x.scanId !in t.poses)|
  {
    var liked := (_: Row, x: Candidate) => x.scanId !in t.poses;
    forall row
      ensures Tallies(t, k, liked, Unscored(t, k), row)
    {
      FilterSame(HasNoPose(t.poses), Likes(liked, row), Best(Ranked(row, t.rerank), k));
    }
    SumCountsPairs(t, rows, k, liked, Unscored(t, k));
  }

  lemma TruesCountPairs(t: Truth, rows: seq<Row>, k: nat)
    ensures Sum(Trues(t, k), rows) == |Pairs(t, rows, k, (row: Row, x: Candidate) => IsTrue(t, row.queryId, x))|
  {
    var liked := (row: Row, x: Candidate) => IsTrue(t, row.queryId, x);
    forall row
      ensures Tallies(t, k, liked, Trues(t, k), row)
    {
      FilterTwice(IsAmong(PositivesOf(t, row.queryId)), HasPose(t.poses), Likes(liked, row),
                  Best(Ranked(row, t.rerank), k));
    }
    SumCountsPairs(t, rows, k, liked, Trues(t, k));
  }

  // ----- The evaluation -----

  datatype Scores = Scores(counts: seq<Counts>, ranks: seq<real>)
  datatype Evaluation = Evaluation(eligible: map<int, set<int>>, ringKey: Scores, reranked: Scores)

  /** The scores of one ranking, and everything its reported numbers promise. */
  ghost predicate ScoresAre(t: Truth, rows: seq<Row>, ks: seq<int>, scores: Scores) {
    && |scores.counts| == |ks|
    && (forall i :: 0 <= i < |ks| ==> ks[i] >= 0 && CountsAre(t, rows, ks[i], scores.counts[i]))
    && ks != [] && RanksAre(t, rows, ks[|ks| - 1], scores.ranks)
  }

  /** The eligible table is exact, and both rankings are scored against it. */
  ghost predicate IsEvaluation(
    rows: seq<Row>, poses: map<int, Pose>, ks: seq<int>, separation: real, radius: real, e: Evaluation)
  {
    && EligibleIsExact(rows, poses, separation, radius, |rows|, e.eligible)
    && ScoresAre(Truth(e.eligible, poses, false), rows, ks, e.ringKey)
    && ScoresAre(Truth(e.eligible, poses, true), rows, ks, e.reranked)
  }

  method Evaluate(rows: seq<Row>, poses: map<int, Pose>, ks: seq<int>, separation: real, radius: real)
    returns (result: Option<Evaluation>)
    requires UniqueIds(rows)
    ensures result.Some? <==> GoodCutoffs(ks) && separation > 0.0 && radius > 0.0
    ensures result.Some? ==> IsEvaluation(rows, poses, ks, separation, radius, result.value)
  {
    if !GoodCutoffs(ks) || separation <= 0.0 || radius <= 0.0 {
      return None;
    }
    forall i | 0 <= i < |ks|
      ensures ks[i] > 0
    {
      LastIsLargest(ks, i);
    }
    var eligible := BuildEligible(rows, poses, separation, radius);
    var counts, ranks := ScoreRanking(Truth(eligible, poses, false), rows, ks);
    var counts', ranks' := ScoreRanking(Truth(eligible, poses, true), rows, ks);
    return Some(Evaluation(eligible, Scores(counts, ranks), Scores(counts', ranks')));
  }

  /**
   Of every evaluation of loaded rows: for both rankings recall at each cut-off k is at most k times
   the mean reciprocal rank, which is at most the recall at the last cut-off.
   */
  lemma EvaluationFits(
    rows: seq<Row>, poses: map<int, Pose>, ks: seq<int>, separation: real, radius: real, e: Evaluation,
    rerank: bool, i: nat)
    requires UniqueIds(rows) && GoodCutoffs(ks) && i < |ks| && IsEvaluation(rows, poses, ks, separation, radius, e)
    ensures var t := Truth(e.eligible, poses, rerank);
            var scores := if rerank then e.reranked else e.ringKey;
            && Recall(t, scores.counts[i]) <= Weighted(ks[i], MeanReciprocalRank(scores.ranks))
            && 0.0 <= MeanReciprocalRank(scores.ranks) <= Recall(t, scores.counts[|ks| - 1])
  {
    var t := Truth(e.eligible, poses, rerank);
    var scores := if rerank then e.reranked else e.ringKey;
    ExactEligibleFits(rows, poses, separation, radius, e.eligible);
    RecallFitsMean(t, rows, ks, scores, i);
    MeanFitsRecall(t, rows, ks, scores);
  }

  /** Whatever the candidates and the cut-offs, hits and recall grow with the cut-off and precision is a proportion. */
  lemma CutoffsAreConsistent(t: Truth, rows: seq<Row>, ks: seq<int>, scores: Scores, i: nat, j: nat)
    requires GoodCutoffs(ks) && ScoresAre(t, rows, ks, scores) && i <= j < |ks|
    ensures scores.counts[i].hits <= scores.counts[j].hits
    ensures 0.0 <= Recall(t, scores.counts[i]) <= Recall(t, scores.counts[j]) <= 1.0
    ensures scores.counts[i].trues <= scores.counts[i].scored && 0.0 <= Precision(scores.counts[i]) <= 1.0
  {
    Ascends(ks, i, j);
    RecallGrows(t, rows, ks[i], ks[j], scores.counts[i], scores.counts[j]);
    PrecisionIsProportion(t, rows, ks[i], scores.counts[i]);
  }

  /** Recall at each cut-off k is at most k times the mean reciprocal rank. */
  lemma RecallFitsMean(t: Truth, rows: seq<Row>, ks: seq<int>, scores: Scores, i: nat)
    requires UniqueIds(rows) && EligibleFits(t.eligible, rows)
    requires GoodCutoffs(ks) && ScoresAre(t, rows, ks, scores) && i < |ks|
    ensures Recall(t, scores.counts[i]) <= Weighted(ks[i], MeanReciprocalRank(scores.ranks))
  {
    Ascends(ks, i, |ks| - 1);
    RecallAgainstMean(t, rows, ks[|ks| - 1], ks[i], scores.counts[i], scores.ranks);
  }

  /** The mean reciprocal rank is at most the recall at the last cut-off. */
  lemma MeanFitsRecall(t: Truth, rows: seq<Row>, ks: seq<int>, scores: Scores)
    requires UniqueIds(rows) && EligibleFits(t.eligible, rows) && ScoresAre(t, rows, ks, scores)
    ensures 0.0 <= MeanReciprocalRank(scores.ranks) <= Recall(t, scores.counts[|ks| - 1])
  {
    MeanAgainstRecall(t, rows, ks[|ks| - 1], scores.counts[|ks| - 1], scores.ranks);
  }
}
