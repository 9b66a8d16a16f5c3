/**
 The acceptance session: two leases, a process session, supervised children and one close. Every
 adapter call, manifest write, lease acquisition and printing is free to fail; its outcome is an
 argument of the operation. The calls a session makes to the outside are recorded in order.
 */
module Session {
  import opened Options

  type Process = nat

  /** Calls to the outside; `Stop` and `Finish` are attempts, whatever came of them. */
  datatype Event =
    | TakeDirectory | FreeDirectory
    | TakeDomain | FreeDomain
    | BeginProcesses | FinishProcesses
    | Spawned(process: Process) | StopAttempt(process: Process)

  // ----- What the outside may answer -----

  datatype StopAnswer = Stopped(returncode: Option<int>) | StopRaised(message: string)
  datatype FinishAnswer = Finished(remaining: seq<nat>) | FinishRaised(message: string)

  /** How far setting up gets: each flag says whether that call succeeds. */
  datatype EnterAnswer = EnterAnswer(
    threadOk: bool, directoryFree: bool, mkdirOk: bool, domainFree: bool, setupOk: bool,
    beginOk: bool, manifestOk: bool, watchdogOk: bool, announceOk: bool)

  datatype SpawnAnswer = SpawnAnswer(process: Option<Process>, manifestOk: bool)
  datatype RunAnswer = RunAnswer(timeLeft: bool, raised: bool, timedOut: bool, returncode: int, manifestOk: bool)

  datatype CloseAnswer = CloseAnswer(
    watchdogFailure: Option<string>, stops: nat -> StopAnswer, finish: FinishAnswer, manifestOk: bool, logsOk: bool)

  // ----- The session's own state -----

  datatype LeaseState = NoLease | Held | Released
  datatype Child = Child(role: string, process: Process, stop: Option<Option<int>>)
  datatype Outcome = Running | Passed | Failed

  /** A command as it is remembered: what it returned and why it counts as failed. */
  datatype RunError = Interrupted | TimedOut | ExitCode(code: int)
  datatype RunRecord = RunRecord(returncode: Option<int>, timedOut: bool, error: Option<RunError>)

  datatype State = State(
    directory: LeaseState, domain: LeaseState, processes: bool, children: seq<Child>, runs: seq<RunRecord>,
    cleanup: Option<seq<nat>>, closed: bool, outcome: Outcome, error: Option<string>, trace: seq<Event>)

  const NEW := State(NoLease, NoLease, false, [], [], None, false, Running, None, [])

  datatype Exit = Returns | Raises

  function Note(s: State, e: Event): State {
    s.(trace := s.trace + [e])
  }

  function FreeDomainOf(s: State): State {
    if s.domain == Held then Note(s, FreeDomain).(domain := Released) else s
  }

  function FreeDirectoryOf(s: State): State {
    if s.directory == Held then Note(s, FreeDirectory).(directory := Released) else s
  }

  function FinishOf(s: State): State {
    if s.processes then Note(s, FinishProcesses).(processes := false) else s
  }

  /** The exception path of entering: finish what was begun, then give both leases back. */
  function Undone(s: State): State {
    var t := FreeDomainOf(FinishOf(s)).(domain := NoLease);
    FreeDirectoryOf(t).(directory := NoLease)
  }

  function Entered(s: State, a: EnterAnswer): (State, Exit) {
    // A session that still holds its directory cannot lock it a second time.
    if !a.threadOk || !a.directoryFree || s.directory == Held then (s, Raises)
    else WithDirectory(Note(s, TakeDirectory).(directory := Held), a)
  }

  function WithDirectory(s: State, a: EnterAnswer): (State, Exit) {
    if !a.mkdirOk || !a.domainFree then (Undone(s), Raises)
    else WithDomain(Note(s, TakeDomain).(domain := Held), a)
  }

  function WithDomain(s: State, a: EnterAnswer): (State, Exit) {
    if !a.setupOk || !a.beginOk then (Undone(s), Raises)
    else WithProcesses(Note(s, BeginProcesses).(processes := true), a)
  }

  function WithProcesses(s: State, a: EnterAnswer): (State, Exit) {
    if !a.manifestOk || !a.watchdogOk then (Undone(s), Raises)
    // The announcement is printed outside the handler: if it raises, nothing is undone.
    else (s, if a.announceOk then Returns else Raises)
  }

  predicate Active(s: State) {
    s.domain != NoLease && !s.closed
  }

  function SpawnedBy(s: State, role: string, a: SpawnAnswer): (State, Exit) {
    if !Active(s) || a.process.None? then (s, Raises)
    else
      var p := a.process.value;
      (Note(s, Spawned(p)).(children := s.children + [Child(role, p, None)]), if a.manifestOk then Returns else Raises)
  }

  function Recorded(check: bool, a: RunAnswer): RunRecord {
    if a.raised then RunRecord(None, false, Some(Interrupted))
    else
      RunRecord(Some(a.returncode), a.timedOut,
                if a.timedOut then Some(TimedOut)
                else if check && a.returncode != 0 then Some(ExitCode(a.returncode)) else None)
  }

  function RunBy(s: State, check: bool, a: RunAnswer): (State, Exit) {
    if !Active(s) || !a.timeLeft then (s, Raises)
    else
      var record := Recorded(check, a);
      (s.(runs := s.runs + [record]), if record.error.None? && a.manifestOk then Returns else Raises)
  }

  // ----- Closing -----

  datatype Stopping = Stopping(children: seq<Child>, errors: seq<string>, attempts: seq<Process>)

  function StopError(child: Child, answer: StopAnswer): seq<string> {
    match answer
    case Stopped(Some(_)) => []
    case Stopped(None) => [child.role + ": process could not be reaped"]
    case StopRaised(message) => [child.role + ": " + message]
  }

  function AfterStop(child: Child, answer: StopAnswer): Child {
    if answer.Stopped? then child.(stop := Some(answer.returncode)) else child
  }

  /** Stops the first `k` children, the last of them first. */
  function StopFirst(children: seq<Child>, stops: nat -> StopAnswer, k: nat): (r: Stopping)
    requires k <= |children|
    ensures |r.children| == |children| && |r.attempts| == k
    decreases k
  {
    if k == 0 then Stopping(children, [], [])
    else
      var child := children[k - 1];
      var rest := StopFirst(children[k - 1 := AfterStop(child, stops(k - 1))], stops, k - 1);
      Stopping(rest.children, StopError(child, stops(k - 1)) + rest.errors, [child.process] + rest.attempts)
  }

  function Preceded(errors: seq<string>, attempts: seq<Process>, rest: Stopping): Stopping {
    Stopping(rest.children, errors + rest.errors, attempts + rest.attempts)
  }

  lemma OneMoreStopped(
    children: seq<Child>, stops: nat -> StopAnswer, k: nat, errors: seq<string>, attempts: seq<Process>)
    requires k < |children|
    ensures Preceded(errors, attempts, StopFirst(children, stops, k + 1)) ==
            Preceded(errors + StopError(children[k], stops(k)), attempts + [children[k].process],
                     StopFirst(children[k := AfterStop(children[k], stops(k))], stops, k))
  {
    var rest := StopFirst(children[k := AfterStop(children[k], stops(k))], stops, k);
    PrecededTwice(errors, attempts, StopError(children[k], stops(k)), [children[k].process], rest);
  }

  lemma PrecededTwice(errors: seq<string>, attempts: seq<Process>, e: seq<string>, p: seq<Process>, rest: Stopping)
    ensures Preceded(errors, attempts, Preceded(e, p, rest)) == Preceded(errors + e, attempts + p, rest)
  {
    assert errors + (e + rest.errors) == errors + e + rest.errors;
    assert attempts + (p + rest.attempts) == attempts + p + rest.attempts;
  }

  function StopEvents(attempts: seq<Process>): (events: seq<Event>)
    ensures |events| == |attempts| && forall i :: 0 <= i < |attempts| ==> events[i] == StopAttempt(attempts[i])
  {
    seq(|attempts|, i requires 0 <= i < |attempts| => StopAttempt(attempts[i]))
  }

  lemma OneMoreStopEvent(trace: seq<Event>, attempts: seq<Process>, process: Process)
    ensures trace + StopEvents(attempts) + [StopAttempt(process)] == trace + StopEvents(attempts + [process])
  {
    assert StopEvents(attempts + [process]) == StopEvents(attempts) + [StopAttempt(process)];
  }

  function FinishErrors(processes: bool, answer: FinishAnswer): seq<string> {
    if !processes then []
    else
      match answer
      case Finished(remaining) => if remaining == [] then [] else ["adopted processes still alive"]
      case FinishRaised(message) => ["orphan cleanup: " + message]
  }

  function JoinErrors(errors: seq<string>): string {
    if errors == [] then "" else if |errors| == 1 then errors[0] else errors[0] + "; " + JoinErrors(errors[1..])
  }

  /** What the closing session finds wrong with its own cleanup. */
  function CleanupErrors(s: State, a: CloseAnswer): seq<string> {
    StopFirst(s.children, a.stops, |s.children|).errors + FinishErrors(s.processes, a.finish)
  }

  /** The error that close works with: the caller's, or a resource failure noticed late. */
  function WorkingError(incoming: Option<string>, a: CloseAnswer): Option<string> {
    if incoming.Some? then incoming else a.watchdogFailure
  }

  function ReportedError(error: Option<string>, errors: seq<string>): Option<string> {
    if errors == [] then error
    else if error.Some? then Some(error.value + "; cleanup: " + JoinErrors(errors))
    else Some(JoinErrors(errors))
  }

  /** Every child stopped and the process session finished. */
  function CleanedUp(s: State, a: CloseAnswer): State {
    var stopping := StopFirst(s.children, a.stops, |s.children|);
    FinishOf(s.(children := stopping.children, trace := s.trace + StopEvents(stopping.attempts),
                cleanup := if s.processes && a.finish.Finished? then Some(a.finish.remaining) else s.cleanup))
  }

  /** The verdict recorded and both leases given back, whether or not the manifest can be written. */
  function Settled(s: State, error: Option<string>, errors: seq<string>): State {
    FreeDirectoryOf(FreeDomainOf(
      s.(error := ReportedError(error, errors), closed := true,
         outcome := if error.Some? || errors != [] then Failed else Passed)))
  }

  function ExitOf(incoming: Option<string>, error: Option<string>, errors: seq<string>, a: CloseAnswer): Exit {
    if !a.manifestOk || (ReportedError(error, errors).Some? && !a.logsOk) then Raises
    else if errors != [] && error.None? then Raises
    else if incoming.None? && error.Some? then Raises
    else Returns
  }

  function Closed(s: State, incoming: Option<string>, a: CloseAnswer): (State, Exit) {
    if s.closed then (s, Returns)
    else
      var error, errors := WorkingError(incoming, a), CleanupErrors(s, a);
      (Settled(CleanedUp(s, a), error, errors), ExitOf(incoming, error, errors, a))
  }

  /** The manifest's claim that nothing is left behind. */
  predicate CleanupComplete(s: State) {
    s.closed && s.cleanup.Some? && s.cleanup.value == [] &&
    forall i :: 0 <= i < |s.children| ==> s.children[i].stop.Some? && s.children[i].stop.value.Some?
  }

  // ----- The session object -----

  class AcceptanceSession {
    var directory: LeaseState
    var domain: LeaseState
    var processes: bool
    var children: seq<Child>
    var runs: seq<RunRecord>
    var cleanup: Option<seq<nat>>
    var closed: bool
    var outcome: Outcome
    var error: Option<string>
    var trace: seq<Event>

    function View(): State
      reads this
    {
      State(directory, domain, processes, children, runs, cleanup, closed, outcome, error, trace)
    }

    constructor ()
      ensures View() == NEW
    {
      directory, domain, processes, children, runs := NoLease, NoLease, false, [], [];
      cleanup, closed, outcome, error, trace := None, false, Running, None, [];
    }

    method FreeDomainLease()
      modifies this
      ensures View() == FreeDomainOf(old(View()))
    {
      if domain == Held {
        trace, domain := trace + [FreeDomain], Released;
      }
    }

    method FreeDirectoryLease()
      modifies this
      ensures View() == FreeDirectoryOf(old(View()))
    {
      if directory == Held {
        trace, directory := trace + [FreeDirectory], Released;
      }
    }

    method FinishProcessSession()
      modifies this
      ensures View() == FinishOf(old(View()))
    {
      if processes {
        trace, processes := trace + [FinishProcesses], false;
      }
    }

    method Enter(a: EnterAnswer) returns (exit: Exit)
      modifies this
      ensures (View(), exit) == Entered(old(View()), a)
    {
      if !a.threadOk || !a.directoryFree || directory == Held {
        return Raises;
      }
      trace, directory := trace + [TakeDirectory], Held;
      exit := EnterWithDirectory(a);
    }

    method EnterWithDirectory(a: EnterAnswer) returns (exit: Exit)
      modifies this
      ensures (View(), exit) == WithDirectory(old(View()), a)
    {
      if !a.mkdirOk || !a.domainFree {
        Undo();
        return Raises;
      }
      trace, domain := trace + [TakeDomain], Held;
      exit := EnterWithDomain(a);
    }

    method EnterWithDomain(a: EnterAnswer) returns (exit: Exit)
      modifies this
      ensures (View(), exit) == WithDomain(old(View()), a)
    {
      if !a.setupOk || !a.beginOk {
        Undo();
        return Raises;
      }
      trace, processes := trace + [BeginProcesses], true;
      exit := EnterWithProcesses(a);
    }

    method EnterWithProcesses(a: EnterAnswer) returns (exit: Exit)
      modifies this
      ensures (View(), exit) == WithProcesses(old(View()), a)
    {
      if !a.manifestOk || !a.watchdogOk {
        Undo();
        return Raises;
      }
      return if a.announceOk then Returns else Raises;
    }

    /** The exception path: finish what was begun, then give both leases back. */
    method Undo()
      modifies this
      ensures View() == Undone(old(View()))
    {
      FinishProcessSession();
      FreeDomainLease();
      domain := NoLease;
      FreeDirectoryLease();
      directory := NoLease;
    }

    method Spawn(role: string, a: SpawnAnswer) returns (exit: Exit)
      modifies this
      ensures (View(), exit) == SpawnedBy(old(View()), role, a)
    {
      if domain == NoLease || closed || a.process.None? {
        return Raises;
      }
      trace := trace + [Spawned(a.process.value)];
      children := children + [Child(role, a.process.value, None)];
      return if a.manifestOk then Returns else Raises;
    }

    method Run(check: bool, a: RunAnswer) returns (exit: Exit)
      modifies this
      ensures (View(), exit) == RunBy(old(View()), check, a)
    {
      if domain == NoLease || closed || !a.timeLeft {
        return Raises;
      }
      var index := |runs|;
      runs := runs + [RunRecord(None, false, None)];
      if a.raised {
        runs := runs[index := RunRecord(None, false, Some(Interrupted))];
        assert runs == old(runs) + [Recorded(check, a)];
        return Raises;
      }
      var error: Option<RunError> := None;
      if a.timedOut {
        error := Some(TimedOut);
      } else if check && a.returncode != 0 {
        error := Some(ExitCode(a.returncode));
      }
      runs := runs[index := RunRecord(Some(a.returncode), a.timedOut, error)];
      assert runs == old(runs) + [Recorded(check, a)];
      if !a.manifestOk || a.timedOut || (check && a.returncode != 0) {
        return Raises;
      }
      return Returns;
    }

    /** The loop over the children, last spawned first. */
    method StopChildren(stops: nat -> StopAnswer) returns (errors: seq<string>)
      modifies this`children, this`trace
      ensures var stopping := StopFirst(old(children), stops, |old(children)|);
              errors == stopping.errors &&
              View() == old(View()).(children := stopping.children, trace := old(trace) + StopEvents(stopping.attempts))
    {
      errors := [];
      ghost var all := StopFirst(children, stops, |children|);
      ghost var attempts: seq<Process> := [];
      for k := |children| downto 0
        invariant |children| == |old(children)| && trace == old(trace) + StopEvents(attempts)
        invariant all == Preceded(errors, attempts, StopFirst(children, stops, k))
      {
        var child, answer := children[k], stops(k);
        OneMoreStopped(children, stops, k, errors, attempts);
        OneMoreStopEvent(old(trace), attempts, child.process);
        attempts := attempts + [child.process];
        trace := trace + [StopAttempt(child.process)];
        errors := errors + StopError(child, answer);
        children := children[k := AfterStop(child, answer)];
      }
      assert errors + [] == errors && attempts + [] == attempts;
    }

    method CleanUp(a: CloseAnswer) returns (errors: seq<string>)
      modifies this
      ensures View() == CleanedUp(old(View()), a) && errors == CleanupErrors(old(View()), a)
    {
      errors := StopChildren(a.stops);
      errors := errors + FinishErrors(processes, a.finish);
      if processes && a.finish.Finished? {
        cleanup := Some(a.finish.remaining);
      }
      FinishProcessSession();
    }

    method Settle(found: Option<string>, errors: seq<string>)
      modifies this
      ensures View() == Settled(old(View()), found, errors)
      ensures error == ReportedError(found, errors)
    {
      error := ReportedError(found, errors);
      outcome := if found.Some? || errors != [] then Failed else Passed;
      closed := true;
      FreeDomainLease();
      FreeDirectoryLease();
    }

    method Close(incoming: Option<string>, a: CloseAnswer) returns (exit: Exit)
      modifies this
      ensures (View(), exit) == Closed(old(View()), incoming, a)
    {
      if closed {
        return Returns;
      }
      var found := WorkingError(incoming, a);
      var errors := CleanUp(a);
      Settle(found, errors);
      if !a.manifestOk || (error.Some? && !a.logsOk) {
        return Raises;
      }
      if errors != [] && found.None? {
        return Raises;
      }
      return if incoming.None? && found.Some? then Raises else Returns;
    }
  }

  // ----- What one close does -----

  function Reverse(s: seq<Process>): (r: seq<Process>)
    ensures |r| == |s|
  {
    if s == [] then [] else [s[|s| - 1]] + Reverse(s[..|s| - 1])
  }

  function Processes(children: seq<Child>): (r: seq<Process>)
    ensures |r| == |children| && forall i :: 0 <= i < |r| ==> r[i] == children[i].process
  {
    seq(|children|, i requires 0 <= i < |children| => children[i].process)
  }

  /** Stopping attempts every child once, in reverse order, and changes nothing but the stop results. */
  lemma {:induction false} StopsInReverse(children: seq<Child>, stops: nat -> StopAnswer, k: nat)
    requires k <= |children|
    ensures StopFirst(children, stops, k).attempts == Reverse(Processes(children[..k]))
    ensures forall i :: 0 <= i < |children| ==>
              StopFirst(children, stops, k).children[i] ==
                  if i < k then AfterStop(children[i], stops(i)) else children[i]
    decreases k
  {
    if k > 0 {
      var next := children[k - 1 := AfterStop(children[k - 1], stops(k - 1))];
      StopsInReverse(next, stops, k - 1);
      assert next[..k - 1] == children[..k - 1];
      assert Processes(children[..k])[..k - 1] == Processes(children[..k - 1]);
    }
  }

  predicate Reaped(answer: StopAnswer) {
    answer.Stopped? && answer.returncode.Some?
  }

  lemma NoErrorMeansReaped(child: Child, answer: StopAnswer)
    ensures StopError(child, answer) == [] <==> Reaped(answer)
  {
  }

  ghost predicate AllReaped(stops: nat -> StopAnswer, k: nat) {
    forall i: nat :: i < k ==> Reaped(stops(i))
  }

  lemma {:induction false} NoErrorsMeansReaped(children: seq<Child>, stops: nat -> StopAnswer, k: nat)
    requires k <= |children|
    ensures StopFirst(children, stops, k).errors == [] <==> AllReaped(stops, k)
    decreases k
  {
    if k > 0 {
      var child := children[k - 1];
      var next := children[k - 1 := AfterStop(child, stops(k - 1))];
      NoErrorsMeansReaped(next, stops, k - 1);
      NoErrorMeansReaped(child, stops(k - 1));
      assert StopFirst(children, stops, k).errors ==
             StopError(child, stops(k - 1)) + StopFirst(next, stops, k - 1).errors;
      OneMoreReaped(stops, k - 1);
    }
  }

  lemma OneMoreReaped(stops: nat -> StopAnswer, k: nat)
    ensures AllReaped(stops, k + 1) <==> AllReaped(stops, k) && Reaped(stops(k))
  {
  }

  /**
   With no error brought in and the manifest written, closing an open session returns normally
   exactly when its outcome is a pass, which is when nothing went wrong.
   */
  lemma CloseReturnsExactlyOnPass(s: State, a: CloseAnswer)
    requires !s.closed && a.manifestOk
    ensures var (s', exit) := Closed(s, None, a);
            && (exit == Returns <==> s'.outcome == Passed)
            && (s'.outcome == Passed <==> a.watchdogFailure.None? && CleanupErrors(s, a) == [])
  {
  }

  /** A pass is never reported over an error, and a failed session always says why. */
  lemma FailureIsExplained(s: State, incoming: Option<string>, a: CloseAnswer)
    requires !s.closed
    ensures var s' := Closed(s, incoming, a).0;
            && (incoming.Some? ==> s'.outcome == Failed)
            && (s'.outcome == Failed <==> s'.error.Some?)
  {
  }

  /**
   Closing an open session raises if and only if the manifest cannot be written, a failure cannot be
   printed, or something went wrong and the caller brought in no error of its own.
   */
  lemma CloseRaisesExactly(s: State, incoming: Option<string>, a: CloseAnswer)
    requires !s.closed
    ensures var wrong := a.watchdogFailure.Some? || CleanupErrors(s, a) != [];
            Closed(s, incoming, a).1 == Raises <==>
            || !a.manifestOk || ((incoming.Some? || wrong) && !a.logsOk) || (incoming.None? && wrong)
  {
  }

  // ----- What the errors say -----

  /** How many of the children from `first` on, and before `end`, were not reaped. */
  function Unreaped(stops: nat -> StopAnswer, first: nat, end: nat): nat
    decreases end
  {
    if first >= end then 0 else Unreaped(stops, first, end - 1) + if Reaped(stops(end - 1)) then 0 else 1
  }

  /** The error of a child that was not reaped: its role, and what the adapter said if it raised. */
  ghost predicate TellsOf(error: string, child: Child, answer: StopAnswer) {
    match answer
    case StopRaised(message) => error == child.role + ": " + message
    case Stopped(_) => error == child.role + ": process could not be reaped"
  }

  lemma StopErrorTells(child: Child, answer: StopAnswer)
    ensures if Reaped(answer) then StopError(child, answer) == []
            else |StopError(child, answer)| == 1 && TellsOf(StopError(child, answer)[0], child, answer)
  {
  }

  lemma {:induction false} ErrorsAreCounted(children: seq<Child>, stops: nat -> StopAnswer, k: nat)
    requires k <= |children|
    ensures |StopFirst(children, stops, k).errors| == Unreaped(stops, 0, k)
    decreases k
  {
    if k > 0 {
      ErrorsAreCounted(children[k - 1 := AfterStop(children[k - 1], stops(k - 1))], stops, k - 1);
      StopErrorTells(children[k - 1], stops(k - 1));
    }
  }

  /** One error for each child that was not reaped, the last spawned first, each under its role. */
  lemma {:induction false} ErrorsAreExact(children: seq<Child>, stops: nat -> StopAnswer, k: nat, i: nat)
    requires i < k <= |children| && !Reaped(stops(i))
    ensures var errors := StopFirst(children, stops, k).errors;
            && |errors| == Unreaped(stops, 0, k) && Unreaped(stops, i + 1, k) < |errors|
            && TellsOf(errors[Unreaped(stops, i + 1, k)], children[i], stops(i))
    decreases k
  {
    ErrorsAreCounted(children, stops, k);
    StopErrorTells(children[k - 1], stops(k - 1));
    if i < k - 1 {
      ErrorsAreExact(children[k - 1 := AfterStop(children[k - 1], stops(k - 1))], stops, k - 1, i);
    }
  }

  /** Parts joined by the separator, as the reported error lists them. */
  ghost predicate Mentions(text: string, part: string) {
    exists k: nat :: k <= |text| && part <= text[k..]
  }

  lemma {:induction false} JoinedMentions(errors: seq<string>, i: nat)
    requires i < |errors|
    ensures Mentions(JoinErrors(errors), errors[i])
  {
    var text := JoinErrors(errors);
    if i == 0 {
      assert text[0..] == text;
      assert errors[0] <= text[0..];
    } else {
      JoinedMentions(errors[1..], i - 1);
      var rest := JoinErrors(errors[1..]);
      var k: nat :| k <= |rest| && errors[i] <= rest[k..];
      var head := errors[0] + "; ";
      assert text == head + rest;
      assert text[|head| + k..] == rest[k..];
    }
  }

  /** The recorded error begins with what went wrong first, and mentions everything the cleanup found. */
  lemma ReportMentionsAll(s: State, incoming: Option<string>, a: CloseAnswer, i: nat)
    requires !s.closed
    ensures var error := Closed(s, incoming, a).0.error;
            && (incoming.Some? ==> error.Some? && incoming.value <= error.value)
            && (incoming.None? && a.watchdogFailure.Some? ==> error.Some? && a.watchdogFailure.value <= error.value)
            && (i < |CleanupErrors(s, a)| ==> error.Some? && Mentions(error.value, CleanupErrors(s, a)[i]))
  {
    var working, errors := WorkingError(incoming, a), CleanupErrors(s, a);
    assert Closed(s, incoming, a).0.error == ReportedError(working, errors);
    if i < |errors| {
      JoinedMentions(errors, i);
      if working.Some? {
        MentionedAfter(working.value + "; cleanup: ", JoinErrors(errors), errors[i]);
      }
    }
  }

  lemma MentionedAfter(head: string, text: string, part: string)
    requires Mentions(text, part)
    ensures Mentions(head + text, part)
  {
    var k: nat :| k <= |text| && part <= text[k..];
    assert (head + text)[|head| + k..] == text[k..];
  }
}
