/**
 The resource watchdog: samples of the machine's memory, a counter of pressured samples in a row,
 and one failure report when the row is long enough. Reading a sample and logging it may each fail.
 */
module ResourceWatchdog {
  import opened Options

  datatype Memory = Memory(total: int, available: int, swapTotal: int, swapFree: int)
  datatype Policy = Policy(minimumAvailable: int, maximumSwapUsed: real, samples: int)

  predicate IsPolicy(p: Policy) {
    p.minimumAvailable > 0 && 0.0 < p.maximumSwapUsed <= 1.0 && p.samples > 0
  }

  /** One turn of the monitor: reading raises, or a reading is made and logging it may raise. */
  datatype Turn = ReadingRaised | Read(memory: Memory, processes: nat, rss: int, logged: bool)

  datatype Report = Report(available: int, swapUsed: real, row: nat, rss: int)

  function SwapUsed(m: Memory): (r: real)
    ensures 0.0 <= r <= 1.0
    ensures m.swapTotal <= 0 || m.swapFree >= m.swapTotal ==> r == 0.0
    ensures m.swapTotal > 0 && m.swapFree < 0 ==> r == 1.0
    ensures m.swapTotal > 0 && 0 <= m.swapFree <= m.swapTotal ==>
              r * (m.swapTotal as real) == (m.swapTotal - m.swapFree) as real
  {
    if m.swapTotal <= 0 then 0.0
    else
      var used := if m.swapTotal - m.swapFree > 0 then m.swapTotal - m.swapFree else 0;
      var ratio := (used as real) / (m.swapTotal as real);
      NotNegative(used as real, m.swapTotal as real);
      if ratio < 1.0 then ratio else
        AtMostWhole(used as real, m.swapTotal as real); 1.0
  }

  lemma NotNegative(x: real, y: real)
    requires x >= 0.0 && y > 0.0
    ensures x / y >= 0.0 && (x / y) * y == x
  {
  }

  lemma AtMostWhole(x: real, y: real)
    requires y > 0.0 && x / y >= 1.0
    ensures x >= y
  {
    var ratio := x / y;
    assert ratio * y == x;
    AtLeastItself(ratio, y);
  }

  lemma AtLeastItself(ratio: real, y: real)
    requires ratio >= 1.0 && y > 0.0
    ensures ratio * y >= y
  {
  }

  predicate Pressured(p: Policy, m: Memory) {
    || m.available < p.minimumAvailable
    || (m.swapTotal > 0 && SwapUsed(m) >= p.maximumSwapUsed && m.available < p.minimumAvailable * 2)
  }

  /** Memory is short, or not even twice the minimum is left while the used share of swap has reached its limit. */
  lemma PressureIs(p: Policy, m: Memory)
    requires 0 <= m.swapFree <= m.swapTotal
    ensures Pressured(p, m) <==>
            || m.available < p.minimumAvailable
            || (m.swapTotal > 0 && m.available < 2 * p.minimumAvailable
                && (m.swapTotal - m.swapFree) as real >= p.maximumSwapUsed * m.swapTotal as real)
  {
    if m.swapTotal > 0 {
      ShareReaches(SwapUsed(m), p.maximumSwapUsed, m.swapTotal as real);
    }
  }

  lemma ShareReaches(x: real, y: real, k: real)
    requires k > 0.0
    ensures x >= y <==> x * k >= y * k
  {
    if x < y {
      assert (y - x) * k > 0.0;
    } else {
      assert (x - y) * k >= 0.0;
    }
  }

  /** Full swap alone is no pressure once memory has been freed. */
  lemma SwapAloneIsNoPressure(p: Policy, m: Memory)
    requires p.minimumAvailable > 0 && m.available >= 2 * p.minimumAvailable
    ensures !Pressured(p, m)
  {
  }

  // ----- The tracker and the watchdog -----

  class PressureTracker {
    const policy: Policy
    var row: nat

    constructor (policy: Policy)
      ensures this.policy == policy && row == 0
    {
      this.policy := policy;
      row := 0;
    }

    /** Counts one reading; the result says whether the row is long enough. */
    method Observe(memory: Memory) returns (failing: bool)
      modifies this
      ensures row == NextRow(policy, old(row), memory) && failing == (row >= policy.samples)
    {
      var lowAvailable := memory.available < policy.minimumAvailable;
      var swapPressure := memory.swapTotal > 0 && SwapUsed(memory) >= policy.maximumSwapUsed
        && memory.available < policy.minimumAvailable * 2;
      if lowAvailable || swapPressure {
        row := row + 1;
      } else {
        row := 0;
      }
      return row >= policy.samples;
    }
  }

  function NextRow(p: Policy, row: nat, m: Memory): nat {
    if Pressured(p, m) then row + 1 else 0
  }

  datatype State = State(
    row: nat, count: nat, latest: Option<Memory>, processes: nat, peak: int, failure: Option<Report>,
    reports: seq<Report>)

  const NEW := State(0, 0, None, 0, 0, None, [])

  function Larger(a: int, b: int): int {
    if a > b then a else b
  }

  function Next(p: Policy, s: State, turn: Turn): State {
    if turn.ReadingRaised? then s
    else
      var s' := s.(row := NextRow(p, s.row, turn.memory));
      if !turn.logged then s'
      else Recorded(p, s'.(count := s.count + 1, latest := Some(turn.memory), processes := turn.processes,
                           peak := Larger(s.peak, turn.rss)), turn)
  }

  function ReportOf(row: nat, turn: Turn): Report
    requires turn.Read?
  {
    Report(turn.memory.available, SwapUsed(turn.memory), row, turn.rss)
  }

  /** The failure is latched, and reported, the first time the row is long enough. */
  function Recorded(p: Policy, s: State, turn: Turn): State
    requires turn.Read?
  {
    if s.row >= p.samples && s.failure.None?
    then s.(failure := Some(ReportOf(s.row, turn)), reports := s.reports + [ReportOf(s.row, turn)])
    else s
  }

  class Watchdog {
    const tracker: PressureTracker
    var count: nat
    var latest: Option<Memory>
    var processes: nat
    var peak: int
    var failure: Option<Report>
    var reports: seq<Report>

    function View(): State
      reads this, tracker
    {
      State(tracker.row, count, latest, processes, peak, failure, reports)
    }

    constructor (policy: Policy)
      ensures View() == NEW && tracker.policy == policy && fresh(tracker)
    {
      tracker := new PressureTracker(policy);
      count, latest, processes, peak, failure, reports := 0, None, 0, 0, None, [];
    }

    /** One turn of the monitoring loop; an exception ends the turn and leaves the rest undone. */
    method SampleOnce(turn: Turn)
      modifies this, tracker
      ensures View() == Next(tracker.policy, old(View()), turn)
    {
      if turn.ReadingRaised? {
        return;
      }
      var failing := tracker.Observe(turn.memory);
      if !turn.logged {
        return;
      }
      count := count + 1;
      latest := Some(turn.memory);
      processes := turn.processes;
      peak := Larger(peak, turn.rss);
      if failing && failure.None? {
        var report := Report(turn.memory.available, SwapUsed(turn.memory), tracker.row, turn.rss);
        failure := Some(report);
        reports := reports + [report];
      }
    }
  }

  // ----- Every history -----

  function After(p: Policy, turns: seq<Turn>): State {
    if turns == [] then NEW else Next(p, After(p, turns[..|turns| - 1]), turns[|turns| - 1])
  }

  /** The readings made, in order, whether or not they could be logged. */
  function Readings(turns: seq<Turn>): (r: seq<Memory>)
    ensures |r| <= |turns|
  {
    if turns == [] then []
    else Readings(turns[..|turns| - 1]) + if turns[|turns| - 1].Read? then [turns[|turns| - 1].memory] else []
  }

  /** `n` is the length of the longest pressured stretch that ends the readings. */
  ghost predicate IsTrailingRow(p: Policy, readings: seq<Memory>, n: nat) {
    && n <= |readings|
    && (forall i :: |readings| - n <= i < |readings| ==> Pressured(p, readings[i]))
    && (n < |readings| ==> !Pressured(p, readings[|readings| - n - 1]))
  }

  /** The counter is the trailing row: a reading that raised neither breaks nor extends it. */
  lemma {:induction false} CounterIsTrailingRow(p: Policy, turns: seq<Turn>)
    ensures IsTrailingRow(p, Readings(turns), After(p, turns).row)
  {
    if turns != [] {
      CounterIsTrailingRow(p, turns[..|turns| - 1]);
    }
  }

  /** A logged turn after which the row is long enough. */
  ghost predicate Fails(p: Policy, turns: seq<Turn>, i: nat)
    requires i < |turns|
  {
    turns[i].Read? && turns[i].logged && After(p, turns[..i + 1]).row >= p.samples
  }

  ghost predicate FailsFirst(p: Policy, turns: seq<Turn>, i: nat)
    requires i < |turns|
  {
    Fails(p, turns, i) && forall k :: 0 <= k < i ==> !Fails(p, turns, k)
  }

  ghost predicate NeverFails(p: Policy, turns: seq<Turn>) {
    forall k :: 0 <= k < |turns| ==> !Fails(p, turns, k)
  }

  /** The report that turn `i` would give. */
  function ReportAt(p: Policy, turns: seq<Turn>, i: nat): Report
    requires i < |turns| && turns[i].Read?
  {
    ReportOf(After(p, turns[..i + 1]).row, turns[i])
  }

  lemma FailsInLonger(p: Policy, init: seq<Turn>, last: Turn)
    ensures forall k :: 0 <= k < |init| ==> (Fails(p, init + [last], k) <==> Fails(p, init, k))
  {
    forall k | 0 <= k < |init|
      ensures Fails(p, init + [last], k) <==> Fails(p, init, k)
    {
      assert (init + [last])[..k + 1] == init[..k + 1];
    }
  }

  /** Nothing is reported while no turn fails; else there is one report, of the first failing turn. */
  ghost predicate ReportedFirst(p: Policy, turns: seq<Turn>) {
    var s := After(p, turns);
    if NeverFails(p, turns) then s.failure.None? && s.reports == []
    else exists i :: 0 <= i < |turns| && FailsFirst(p, turns, i)
                     && s.failure == Some(ReportAt(p, turns, i)) && s.reports == [ReportAt(p, turns, i)]
  }

  /** A report tells the available memory and the swap use of its turn, its row and the session's memory. */
  lemma ReportTells(p: Policy, turns: seq<Turn>, i: nat)
    requires i < |turns| && turns[i].Read?
    ensures var r := ReportAt(p, turns, i);
            && r.available == turns[i].memory.available && r.rss == turns[i].rss
            && r.swapUsed == SwapUsed(turns[i].memory) && IsTrailingRow(p, Readings(turns[..i + 1]), r.row)
  {
    CounterIsTrailingRow(p, turns[..i + 1]);
  }

  lemma {:induction false} FirstFailureIsReportedOnce(p: Policy, turns: seq<Turn>)
    ensures ReportedFirst(p, turns)
  {
    if turns != [] {
      var init, last := turns[..|turns| - 1], turns[|turns| - 1];
      FirstFailureIsReportedOnce(p, init);
      assert turns == init + [last];
      FailsInLonger(p, init, last);
      if NeverFails(p, init) {
        FirstReportNow(p, turns);
      } else {
        var i :| 0 <= i < |init| && FailsFirst(p, init, i)
                 && After(p, init).failure == Some(ReportAt(p, init, i))
                 && After(p, init).reports == [ReportAt(p, init, i)];
        assert turns[..i + 1] == init[..i + 1];
        assert FailsFirst(p, turns, i);
      }
    }
  }

  lemma FirstReportNow(p: Policy, turns: seq<Turn>)
    requires turns != []
    requires var init := turns[..|turns| - 1]; After(p, init).failure.None? && After(p, init).reports == []
    requires forall k :: 0 <= k < |turns| - 1 ==> !Fails(p, turns, k)
    ensures ReportedFirst(p, turns)
  {
    var n := |turns| - 1;
    assert turns[..n + 1] == turns;
    if Fails(p, turns, n) {
      assert FailsFirst(p, turns, n);
    }
  }

  /** Once set, the failure never changes, whatever is sampled afterwards. */
  lemma {:induction false} FailureIsLatched(p: Policy, turns: seq<Turn>, more: seq<Turn>)
    requires After(p, turns).failure.Some?
    ensures After(p, turns + more).failure == After(p, turns).failure
    ensures After(p, turns + more).reports == After(p, turns).reports
  {
    if more == [] {
      assert turns + more == turns;
    } else {
      var init := more[..|more| - 1];
      FailureIsLatched(p, turns, init);
      assert (turns + more)[..|turns + more| - 1] == turns + init;
    }
  }

  /** With every reading made and logged, the first failing turn is the one that completes the row. */
  lemma CompletedExactly(p: Policy, turns: seq<Turn>, i: nat)
    requires IsPolicy(p) && i < |turns| && FailsFirst(p, turns, i)
    requires forall k :: 0 <= k <= i ==> turns[k].Read? && turns[k].logged
    ensures After(p, turns[..i + 1]).row == p.samples
  {
    assert turns[..i + 1][..i] == turns[..i];
    if i > 0 {
      assert !Fails(p, turns, i - 1);
      assert turns[..i - 1 + 1] == turns[..i];
    }
  }

  /** A row of any length goes unreported while no reading can be logged. */
  lemma UnloggedRowIsSilent(p: Policy, turns: seq<Turn>)
    requires forall k :: 0 <= k < |turns| && turns[k].Read? ==> !turns[k].logged
    ensures After(p, turns).failure.None? && After(p, turns).reports == []
    ensures IsTrailingRow(p, Readings(turns), After(p, turns).row)
  {
    FirstFailureIsReportedOnce(p, turns);
    CounterIsTrailingRow(p, turns);
  }

  // ----- The summary -----

  function Logged(turns: seq<Turn>): (r: seq<Turn>)
    ensures forall i :: 0 <= i < |r| ==> r[i].Read? && r[i].logged
  {
    if turns == [] then []
    else if turns[|turns| - 1].Read? && turns[|turns| - 1].logged
    then Logged(turns[..|turns| - 1]) + [turns[|turns| - 1]]
    else Logged(turns[..|turns| - 1])
  }

  ghost predicate IsPeak(logged: seq<Turn>, peak: int)
    requires forall i :: 0 <= i < |logged| ==> logged[i].Read?
  {
    && peak >= 0 && (forall i :: 0 <= i < |logged| ==> logged[i].rss <= peak)
    && (peak == 0 || exists i :: 0 <= i < |logged| && logged[i].rss == peak)
  }

  lemma PeakOneMore(logged: seq<Turn>, peak: int, turn: Turn)
    requires (forall i :: 0 <= i < |logged| ==> logged[i].Read?) && turn.Read? && IsPeak(logged, peak)
    ensures IsPeak(logged + [turn], Larger(peak, turn.rss))
  {
    var all := logged + [turn];
    if peak < turn.rss {
      assert all[|logged|].rss == turn.rss;
    } else if peak != 0 {
      var i :| 0 <= i < |logged| && logged[i].rss == peak;
      assert all[i].rss == peak;
    }
  }

  /** The summary counts the logged turns, keeps the last and the largest memory of them. */
  lemma {:induction false} SummaryIsExact(p: Policy, turns: seq<Turn>)
    ensures var s, logged := After(p, turns), Logged(turns);
            && s.count == |logged| && IsPeak(logged, s.peak)
            && (if logged == [] then s.latest.None? && s.processes == 0
                else s.latest == Some(logged[|logged| - 1].memory) && s.processes == logged[|logged| - 1].processes)
  {
    if turns != [] {
      var init, last := turns[..|turns| - 1], turns[|turns| - 1];
      SummaryIsExact(p, init);
      if last.Read? && last.logged {
        PeakOneMore(Logged(init), After(p, init).peak, last);
      }
    }
  }
}
