/**
 The cleanup transaction of a dynamic scenario: a fixed order of callbacks, each of which may
 raise, run once however often the transaction is closed.
 */
module ScenarioCleanup {
  import opened Options

  /** The calls a close makes. `CancelNavigation` names the callback that was registered. */
  datatype Step =
    | CancelNavigation(callback: nat)
    | ParkObstacle
    | WaitBeforeClear
    | ClearDetection
    | WaitBetweenClears
    | VerifySceneCleared
    | VerifyStopped
    | Warning

  datatype Failure = Failure(step: Step, detail: string)
  datatype Primary = NoError | PrimaryError(takesNotes: bool)
  datatype Settings = Settings(clears: nat, settle: real, interval: real)

  /** What closing shows to the outside: the warning, the note on the primary error, the raised error. */
  datatype Outcome = Outcome(
    warned: Option<seq<Failure>>, noted: Option<seq<Failure>>, raised: Option<seq<Failure>>)

  const SILENT := Outcome(None, None, None)

  // ----- The expected order -----

  function ClearSteps(settings: Settings, k: nat): seq<Step> {
    if k == 0 then []
    else ClearSteps(settings, k - 1) + [ClearDetection] +
         if k < settings.clears && settings.interval > 0.0 then [WaitBetweenClears] else []
  }

  lemma OneMoreClear(settings: Settings, before: seq<Step>, k: nat)
    ensures before + ClearSteps(settings, k + 1) ==
            var cleared := before + ClearSteps(settings, k) + [ClearDetection];
            if k + 1 < settings.clears && settings.interval > 0.0 then cleared + [WaitBetweenClears] else cleared
  {
  }

  function StepsBefore(settings: Settings, cancel: Option<nat>, parked: bool): seq<Step> {
    (if cancel.Some? then [CancelNavigation(cancel.value)] else []) +
    (if !parked then [ParkObstacle] else []) +
    (if settings.settle > 0.0 then [WaitBeforeClear] else [])
  }

  function Expected(settings: Settings, cancel: Option<nat>, parked: bool): seq<Step> {
    StepsBefore(settings, cancel, parked) + ClearSteps(settings, settings.clears) +
    [VerifySceneCleared] + [VerifyStopped]
  }

  /** The steps that raise, in order; `answers` gives what each attempt, by position, raises. */
  function Failures(steps: seq<Step>, answers: nat -> Option<string>): seq<Failure> {
    if steps == [] then []
    else
      var i := |steps| - 1;
      Failures(steps[..i], answers) + if answers(i).Some? then [Failure(steps[i], answers(i).value)] else []
  }

  lemma OneMoreAttempt(steps: seq<Step>, step: Step, answers: nat -> Option<string>)
    ensures Failures(steps + [step], answers) ==
            Failures(steps, answers) + if answers(|steps|).Some? then [Failure(step, answers(|steps|).value)] else []
  {
    assert (steps + [step])[..|steps|] == steps;
  }

  function OutcomeOf(failures: seq<Failure>, warning: Option<string>, primary: Primary): Outcome {
    if failures == [] then SILENT
    else
      var all := if warning.Some? then failures + [Failure(Warning, warning.value)] else failures;
      Outcome(Some(failures),
              if primary.PrimaryError? && primary.takesNotes then Some(all) else None,
              if primary.NoError? then Some(all) else None)
  }

  // ----- The transaction -----

  datatype State = State(cancel: Option<nat>, parked: bool, closed: bool, trace: seq<Step>)

  function ClosedBy(
    s: State, settings: Settings, answers: nat -> Option<string>, warning: Option<string>, primary: Primary)
    : (State, Outcome)
  {
    if s.closed then (s, SILENT)
    else
      var steps := Expected(settings, s.cancel, s.parked);
      (s.(closed := true, trace := steps), OutcomeOf(Failures(steps, answers), warning, primary))
  }

  datatype SettingsError = TooFewClears | NegativeInterval | NegativeSettle

  class DynamicScenarioTransaction {
    const settings: Settings
    var cancel: Option<nat>
    var parked: bool
    var closed: bool
    var trace: seq<Step>

    function View(): State
      reads this
    {
      State(cancel, parked, closed, trace)
    }

    /** Nothing is attempted before the transaction is closed. */
    predicate Valid()
      reads this
    {
      closed || trace == []
    }

    constructor (settings: Settings)
      ensures Valid() && this.settings == settings && View() == State(None, false, false, [])
    {
      this.settings := settings;
      cancel, parked, closed, trace := None, false, false, [];
    }

    method SetCancelNavigation(callback: nat)
      modifies this
      ensures View() == old(View()).(cancel := Some(callback)) && (old(Valid()) ==> Valid())
    {
      cancel := Some(callback);
    }

    method MarkObstacleParked()
      modifies this
      ensures View() == old(View()).(parked := true) && (old(Valid()) ==> Valid())
    {
      parked := true;
    }

    /** One attempt: whatever it raises is recorded and the cleanup goes on. */
    method Attempt(step: Step, answers: nat -> Option<string>, failures: seq<Failure>) returns (failures': seq<Failure>)
      requires failures == Failures(trace, answers)
      modifies this`trace
      ensures trace == old(trace) + [step] && failures' == Failures(trace, answers)
    {
      var raised := answers(|trace|);
      OneMoreAttempt(trace, step, answers);
      trace := trace + [step];
      failures' := if raised.Some? then failures + [Failure(step, raised.value)] else failures;
    }

    /** An attempt that is made only if it is due. */
    method AttemptIf(due: bool, step: Step, answers: nat -> Option<string>, failures: seq<Failure>)
      returns (failures': seq<Failure>)
      requires failures == Failures(trace, answers)
      modifies this`trace
      ensures trace == old(trace) + (if due then [step] else []) && failures' == Failures(trace, answers)
    {
      failures' := failures;
      if due {
        failures' := Attempt(step, answers, failures);
      }
    }

    method AttemptBefore(answers: nat -> Option<string>) returns (failures: seq<Failure>)
      requires trace == []
      modifies this`trace
      ensures trace == StepsBefore(settings, cancel, parked) && failures == Failures(trace, answers)
    {
      var callback := if cancel.Some? then cancel.value else 0;
      failures := AttemptIf(cancel.Some?, CancelNavigation(callback), answers, []);
      failures := AttemptIf(!parked, ParkObstacle, answers, failures);
      failures := AttemptIf(settings.settle > 0.0, WaitBeforeClear, answers, failures);
    }

    method AttemptClears(answers: nat -> Option<string>, failures: seq<Failure>) returns (failures': seq<Failure>)
      requires failures == Failures(trace, answers)
      modifies this`trace
      ensures trace == old(trace) + ClearSteps(settings, settings.clears) && failures' == Failures(trace, answers)
    {
      failures' := failures;
      for k := 0 to settings.clears
        invariant trace == old(trace) + ClearSteps(settings, k) && failures' == Failures(trace, answers)
      {
        failures' := Attempt(ClearDetection, answers, failures');
        if k + 1 < settings.clears && settings.interval > 0.0 {
          failures' := Attempt(WaitBetweenClears, answers, failures');
        }
        OneMoreClear(settings, old(trace), k);
      }
    }

    /** Every step of the cleanup, whatever earlier ones raised. */
    method AttemptAll(answers: nat -> Option<string>) returns (failures: seq<Failure>)
      requires trace == []
      modifies this`trace
      ensures trace == Expected(settings, cancel, parked) && failures == Failures(trace, answers)
    {
      failures := AttemptBefore(answers);
      failures := AttemptClears(answers, failures);
      failures := Attempt(VerifySceneCleared, answers, failures);
      failures := Attempt(VerifyStopped, answers, failures);
    }

    method Close(answers: nat -> Option<string>, warning: Option<string>, primary: Primary) returns (outcome: Outcome)
      requires Valid()
      modifies this
      ensures Valid() && (View(), outcome) == ClosedBy(old(View()), settings, answers, warning, primary)
    {
      if closed {
        return SILENT;
      }
      closed := true;
      var failures := AttemptAll(answers);
      if failures == [] {
        return SILENT;
      }
      var all := failures;
      if warning.Some? {
        all := all + [Failure(Warning, warning.value)];
      }
      var noted := if primary.PrimaryError? && primary.takesNotes then Some(all) else None;
      return Outcome(Some(failures), noted, if primary.NoError? then Some(all) else None);
    }
  }

  /** Impossible settings are refused, the first fault named. */
  method Begin(clears: int, settle: real, interval: real)
    returns (transaction: Option<DynamicScenarioTransaction>, error: Option<SettingsError>)
    ensures transaction.Some? <==> clears >= 1 && interval >= 0.0 && settle >= 0.0
    ensures error == if clears < 1 then Some(TooFewClears) else if interval < 0.0 then Some(NegativeInterval)
                     else if settle < 0.0 then Some(NegativeSettle) else None
    ensures transaction.Some? ==>
              && fresh(transaction.value) && transaction.value.View() == State(None, false, false, [])
              && transaction.value.settings == Settings(clears, settle, interval)
  {
    if clears < 1 {
      return None, Some(TooFewClears);
    }
    if interval < 0.0 {
      return None, Some(NegativeInterval);
    }
    if settle < 0.0 {
      return None, Some(NegativeSettle);
    }
    var t := new DynamicScenarioTransaction(Settings(clears, settle, interval));
    return Some(t), None;
  }

  // ----- What the order means -----

  /** Clears alternate with waits, beginning and ending with a clear; without an interval there is no wait. */
  lemma {:induction false} ClearsAlternate(settings: Settings, k: nat)
    requires 0 < k <= settings.clears
    ensures var steps := ClearSteps(settings, k);
            if settings.interval > 0.0
            then |steps| == (if k < settings.clears then 2 * k else 2 * k - 1)
                 && forall i :: 0 <= i < |steps| ==>
                     steps[i] == if i % 2 == 0 then ClearDetection else WaitBetweenClears
            else |steps| == k && forall i :: 0 <= i < k ==> steps[i] == ClearDetection
  {
    if k > 1 {
      ClearsAlternate(settings, k - 1);
    } else {
      assert ClearSteps(settings, 0) == [];
    }
  }

  /** When each step is due: navigation stops first, and nothing is verified before everything is cleared. */
  function Phase(step: Step): nat {
    match step
    case CancelNavigation(_) => 0
    case ParkObstacle => 1
    case WaitBeforeClear => 2
    case ClearDetection => 3
    case WaitBetweenClears => 3
    case VerifySceneCleared => 4
    case VerifyStopped => 5
    case Warning => 6
  }

  ghost predicate InPhaseOrder(steps: seq<Step>) {
    forall i, j :: 0 <= i < j < |steps| ==> Phase(steps[i]) <= Phase(steps[j])
  }

  lemma JoinedInOrder(a: seq<Step>, b: seq<Step>, phase: nat)
    requires InPhaseOrder(a) && InPhaseOrder(b)
    requires (forall i :: 0 <= i < |a| ==> Phase(a[i]) <= phase) && (forall i :: 0 <= i < |b| ==> phase <= Phase(b[i]))
    ensures InPhaseOrder(a + b)
  {
  }

  lemma {:induction false} ClearsInPhase(settings: Settings, k: nat)
    ensures forall i :: 0 <= i < |ClearSteps(settings, k)| ==> Phase(ClearSteps(settings, k)[i]) == 3
  {
    if k > 0 {
      ClearsInPhase(settings, k - 1);
    }
  }

  lemma {:induction false} ClearsCounted(settings: Settings, k: nat)
    requires k <= settings.clears
    ensures var made := multiset(ClearSteps(settings, k));
            && made[ClearDetection] == k
            && made[WaitBetweenClears] ==
               if settings.interval <= 0.0 then 0 else if k < settings.clears || k == 0 then k else k - 1
  {
    if k > 0 {
      ClearsCounted(settings, k - 1);
      var tail := if k < settings.clears && settings.interval > 0.0 then [WaitBetweenClears] else [];
      JoinedCounts(ClearSteps(settings, k - 1), tail);
    }
  }

  lemma JoinedCounts(before: seq<Step>, tail: seq<Step>)
    requires tail == [] || tail == [WaitBetweenClears]
    ensures var made := multiset(before + [ClearDetection] + tail);
            && made[ClearDetection] == multiset(before)[ClearDetection] + 1
            && made[WaitBetweenClears] == multiset(before)[WaitBetweenClears] + |tail|
  {
  }

  /** Whatever is due comes in the order of its phase. */
  lemma CleanupInOrder(settings: Settings, cancel: Option<nat>, parked: bool)
    ensures InPhaseOrder(Expected(settings, cancel, parked))
  {
    var before, clears := StepsBefore(settings, cancel, parked), ClearSteps(settings, settings.clears);
    ClearsInPhase(settings, settings.clears);
    JoinedInOrder(before, clears, 3);
    ChecksComeLast(before + clears);
  }

  /** One by one: navigation is cancelled before anything else, the obstacle parked before any wait, and so on. */
  lemma NothingComesEarly(settings: Settings, cancel: Option<nat>, parked: bool, i: nat, j: nat)
    requires i < j < |Expected(settings, cancel, parked)|
    ensures var first, later := Expected(settings, cancel, parked)[i], Expected(settings, cancel, parked)[j];
            && !later.CancelNavigation?
            && (later.ParkObstacle? ==> first.CancelNavigation?)
            && (later.WaitBeforeClear? ==> first.CancelNavigation? || first.ParkObstacle?)
            && (later.ClearDetection? || later.WaitBetweenClears? ==>
                  !first.VerifySceneCleared? && !first.VerifyStopped?)
            && (later.VerifySceneCleared? ==> !first.VerifyStopped?)
  {
    ClearsInPhase(settings, settings.clears);
  }

  lemma ChecksComeLast(steps: seq<Step>)
    requires InPhaseOrder(steps) && forall i :: 0 <= i < |steps| ==> Phase(steps[i]) <= 3
    ensures InPhaseOrder(steps + [VerifySceneCleared] + [VerifyStopped])
  {
    JoinedInOrder(steps, [VerifySceneCleared], 4);
    JoinedInOrder(steps + [VerifySceneCleared], [VerifyStopped], 5);
  }

  function Once(due: bool): nat {
    if due then 1 else 0
  }

  /** How often each step is due. */
  function Due(settings: Settings, cancel: Option<nat>, parked: bool, step: Step): nat {
    match step
    case CancelNavigation(callback) => Once(cancel == Some(callback))
    case ParkObstacle => Once(!parked)
    case WaitBeforeClear => Once(settings.settle > 0.0)
    case ClearDetection => settings.clears
    case WaitBetweenClears => if settings.interval > 0.0 && settings.clears > 0 then settings.clears - 1 else 0
    case VerifySceneCleared => 1
    case VerifyStopped => 1
    case Warning => 0
  }

  /** Each step is made exactly as often as it is due, and no other cancel callback is called. */
  lemma CleanupIsComplete(settings: Settings, cancel: Option<nat>, parked: bool, step: Step)
    ensures multiset(Expected(settings, cancel, parked))[step] == Due(settings, cancel, parked, step)
  {
    TimesMade(settings, cancel, parked, step);
    BeforeIsComplete(settings, cancel, parked, step);
    ClearsCounted(settings, settings.clears);
  }

  /** How often a step is made: what is due before the clears, the clears, and the two checks. */
  lemma TimesMade(settings: Settings, cancel: Option<nat>, parked: bool, step: Step)
    ensures multiset(Expected(settings, cancel, parked))[step] ==
            multiset(StepsBefore(settings, cancel, parked))[step] +
            (if Phase(step) == 3 then multiset(ClearSteps(settings, settings.clears))[step] else 0) +
            Once(step == VerifySceneCleared) + Once(step == VerifyStopped)
  {
    ClearsInPhase(settings, settings.clears);
    CountsAdd(StepsBefore(settings, cancel, parked), ClearSteps(settings, settings.clears), step);
  }

  lemma CountsAdd(before: seq<Step>, clears: seq<Step>, step: Step)
    requires forall i :: 0 <= i < |clears| ==> Phase(clears[i]) == 3
    ensures multiset(before + clears + [VerifySceneCleared] + [VerifyStopped])[step] ==
            multiset(before)[step] + (if Phase(step) == 3 then multiset(clears)[step] else 0) +
            Once(step == VerifySceneCleared) + Once(step == VerifyStopped)
  {
    if multiset(clears)[step] > 0 {
      assert step in clears;
    }
  }

  lemma BeforeIsComplete(settings: Settings, cancel: Option<nat>, parked: bool, step: Step)
    ensures multiset(StepsBefore(settings, cancel, parked))[step] ==
            if Phase(step) < 3 then Due(settings, cancel, parked, step) else 0
  {
  }

  function Raising(answers: nat -> Option<string>, n: nat): nat {
    if n == 0 then 0 else Raising(answers, n - 1) + if answers(n - 1).Some? then 1 else 0
  }

  /** One failure for each raising step, at the place its order gives it, with what it raised. */
  ghost predicate ListsRaising(steps: seq<Step>, answers: nat -> Option<string>, failures: seq<Failure>) {
    && |failures| == Raising(answers, |steps|)
    && forall i {:trigger steps[i]} :: 0 <= i < |steps| && answers(i).Some? ==>
         && Raising(answers, i) < |failures|
         && failures[Raising(answers, i)] == Failure(steps[i], answers(i).value)
  }

  /** The failure list holds every raising step once, in the order of the attempts, and nothing else. */
  lemma {:induction false} FailuresAreExact(steps: seq<Step>, answers: nat -> Option<string>)
    ensures ListsRaising(steps, answers, Failures(steps, answers))
  {
    if steps != [] {
      var init := steps[..|steps| - 1];
      FailuresAreExact(init, answers);
      forall i | 0 <= i < |steps| && answers(i).Some?
        ensures Raising(answers, i) < |Failures(steps, answers)|
        ensures Failures(steps, answers)[Raising(answers, i)] == Failure(steps[i], answers(i).value)
      {
        if i < |init| {
          assert init[i] == steps[i];
        }
      }
    }
  }

  lemma {:induction false} NothingRaised(answers: nat -> Option<string>, n: nat)
    ensures Raising(answers, n) == 0 <==> forall i: nat :: i < n ==> answers(i).None?
  {
    if n > 0 {
      NothingRaised(answers, n - 1);
    }
  }

  /** Closing raises exactly when some step failed and there was no primary error; a failing warning comes last. */
  lemma ErrorIsRaisedExactly(
    s: State, settings: Settings, answers: nat -> Option<string>, warning: Option<string>, primary: Primary)
    requires !s.closed
    ensures var n := |Expected(settings, s.cancel, s.parked)|;
            var outcome := ClosedBy(s, settings, answers, warning, primary).1;
            && (outcome.raised.Some? <==> (exists i: nat :: i < n && answers(i).Some?) && primary.NoError?)
            && (outcome.warned.Some? <==> exists i: nat :: i < n && answers(i).Some?)
            && (outcome.raised.Some? && warning.Some? ==>
                  outcome.raised.value == outcome.warned.value + [Failure(Warning, warning.value)])
            && (outcome.raised.Some? && warning.None? ==> outcome.raised == outcome.warned)
  {
    var steps := Expected(settings, s.cancel, s.parked);
    FailuresAreExact(steps, answers);
    NothingRaised(answers, |steps|);
  }

  /**
   Whoever is told is told the same: the warning lists every raising step in order, and the error
   raised, or the note on the primary error if that takes notes, is that list and a failing warning.
   */
  lemma FailuresAreTold(
    s: State, settings: Settings, answers: nat -> Option<string>, warning: Option<string>, primary: Primary)
    requires !s.closed
    ensures var steps := Expected(settings, s.cancel, s.parked);
            var outcome := ClosedBy(s, settings, answers, warning, primary).1;
            outcome.warned.Some? ==>
              && ListsRaising(steps, answers, outcome.warned.value)
              && (outcome.noted.Some? <==> primary.PrimaryError? && primary.takesNotes)
              && (outcome.noted.Some? ==>
                    outcome.noted.value ==
                    outcome.warned.value + if warning.Some? then [Failure(Warning, warning.value)] else [])
    ensures ClosedBy(s, settings, answers, warning, primary).1.warned.None? ==>
              ClosedBy(s, settings, answers, warning, primary).1 == Outcome(None, None, None)
  {
    FailuresAreExact(Expected(settings, s.cancel, s.parked), answers);
    var failures := Failures(Expected(settings, s.cancel, s.parked), answers);
    assert failures + [] == failures;
  }

  // ----- Whole lives -----

  datatype Call =
    | SetCancel(callback: nat)
    | MarkParked
    | Close(answers: nat -> Option<string>, warning: Option<string>, primary: Primary)

  function Step1(s: State, settings: Settings, call: Call): State {
    match call
    case SetCancel(callback) => s.(cancel := Some(callback))
    case MarkParked => s.(parked := true)
    case Close(answers, warning, primary) => ClosedBy(s, settings, answers, warning, primary).0
  }

  function After(settings: Settings, calls: seq<Call>): State {
    if calls == [] then State(None, false, false, [])
    else Step1(After(settings, calls[..|calls| - 1]), settings, calls[|calls| - 1])
  }

  /** The callback registered last and whether the obstacle was marked, among the calls given. */
  function LastCancel(calls: seq<Call>): Option<nat> {
    if calls == [] then None
    else if calls[|calls| - 1].SetCancel? then Some(calls[|calls| - 1].callback)
    else LastCancel(calls[..|calls| - 1])
  }

  predicate EverParked(calls: seq<Call>) {
    exists i :: 0 <= i < |calls| && calls[i].MarkParked?
  }

  /** The calls before the first close. */
  function Open(calls: seq<Call>): (n: nat)
    ensures n <= |calls| && (forall i :: 0 <= i < n ==> !calls[i].Close?) && (n < |calls| ==> calls[n].Close?)
  {
    if calls == [] then 0
    else
      var n := Open(calls[..|calls| - 1]);
      if n < |calls| - 1 then n else if calls[|calls| - 1].Close? then n else n + 1
  }

  /**
   Whatever is called in whatever order, and whatever raises, cleanup ran exactly once if close was
   ever called, and its steps are those due at the first close.
   */
  lemma {:induction false} CleanupRunsOnce(settings: Settings, calls: seq<Call>)
    ensures var n := Open(calls);
            var s := After(settings, calls);
            && s.closed == (n < |calls|)
            && s.trace == if n < |calls| then Expected(settings, LastCancel(calls[..n]), EverParked(calls[..n])) else []
    ensures After(settings, calls).cancel == LastCancel(calls) && After(settings, calls).parked == EverParked(calls)
  {
    if calls != [] {
      var init, last := calls[..|calls| - 1], calls[|calls| - 1];
      CleanupRunsOnce(settings, init);
      var n := Open(init);
      assert init[..n] == calls[..n];
      assert calls == init + [last];
      if n == |init| {
        assert init[..n] == init;
      }
      ParkedOneMore(init, last);
    }
  }

  lemma ParkedOneMore(init: seq<Call>, last: Call)
    ensures EverParked(init + [last]) <==> EverParked(init) || last.MarkParked?
  {
    var calls := init + [last];
    if EverParked(init) {
      var i :| 0 <= i < |init| && init[i].MarkParked?;
      assert calls[i].MarkParked?;
    }
    if last.MarkParked? {
      assert calls[|init|].MarkParked?;
    }
  }
}
