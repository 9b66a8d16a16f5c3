/**
 Whole lives of a session: every sequence of calls, with every answer from the outside. What was
 taken is given back, every child is stopped once in reverse order, and exactly when not.
 */
module SessionRuns {
  import opened Options
  import opened Session

  datatype Call =
    | CallEnter(enter: EnterAnswer)
    | CallSpawn(role: string, spawn: SpawnAnswer)
    | CallRun(check: bool, run: RunAnswer)
    | CallClose(incoming: Option<string>, close: CloseAnswer)

  function Step(s: State, call: Call): State {
    match call
    case CallEnter(a) => Entered(s, a).0
    case CallSpawn(role, a) => SpawnedBy(s, role, a).0
    case CallRun(check, a) => RunBy(s, check, a).0
    case CallClose(incoming, a) => Closed(s, incoming, a).0
  }

  function After(calls: seq<Call>): State {
    if calls == [] then NEW else Step(After(calls[..|calls| - 1]), calls[|calls| - 1])
  }

  lemma OneMoreCall(calls: seq<Call>, call: Call)
    ensures After(calls + [call]) == Step(After(calls), call)
  {
    assert (calls + [call])[..|calls|] == calls;
  }

  lemma FirstCall(call: Call)
    ensures After([call]) == Step(NEW, call)
  {
    assert [call] == [] + [call];
    OneMoreCall([], call);
  }

  // ----- Reading the trace -----

  /** How often each thing was taken and given back, and who was spawned and stopped, in order. */
  datatype Tally = Tally(
    directoriesTaken: nat, directoriesFreed: nat, domainsTaken: nat, domainsFreed: nat, begun: nat, finished: nat,
    spawned: seq<Process>, stopped: seq<Process>)

  function Enter(t: Tally, e: Event): Tally {
    match e
    case TakeDirectory => t.(directoriesTaken := t.directoriesTaken + 1)
    case FreeDirectory => t.(directoriesFreed := t.directoriesFreed + 1)
    case TakeDomain => t.(domainsTaken := t.domainsTaken + 1)
    case FreeDomain => t.(domainsFreed := t.domainsFreed + 1)
    case BeginProcesses => t.(begun := t.begun + 1)
    case FinishProcesses => t.(finished := t.finished + 1)
    case Spawned(p) => t.(spawned := t.spawned + [p])
    case StopAttempt(p) => t.(stopped := t.stopped + [p])
  }

  function Tallied(trace: seq<Event>): Tally {
    if trace == [] then Tally(0, 0, 0, 0, 0, 0, [], [])
    else Enter(Tallied(trace[..|trace| - 1]), trace[|trace| - 1])
  }

  lemma OneMoreEvent(trace: seq<Event>, e: Event)
    ensures Tallied(trace + [e]) == Enter(Tallied(trace), e)
  {
    assert (trace + [e])[..|trace|] == trace;
  }

  lemma {:induction false} StopsInTrace(trace: seq<Event>, attempts: seq<Process>)
    ensures Tallied(trace + StopEvents(attempts)) == Tallied(trace).(stopped := Tallied(trace).stopped + attempts)
  {
    var events := StopEvents(attempts);
    if attempts == [] {
      assert trace + events == trace;
    } else {
      var init, last := attempts[..|attempts| - 1], attempts[|attempts| - 1];
      StopsInTrace(trace, init);
      assert trace + events == (trace + StopEvents(init)) + [StopAttempt(last)];
      OneMoreEvent(trace + StopEvents(init), StopAttempt(last));
      OneMoreStop(Tallied(trace), init, last);
      assert attempts == init + [last];
    }
  }

  lemma OneMoreStop(t: Tally, attempts: seq<Process>, last: Process)
    ensures Enter(t.(stopped := t.stopped + attempts), StopAttempt(last)) ==
            t.(stopped := t.stopped + (attempts + [last]))
  {
    assert t.stopped + attempts + [last] == t.stopped + (attempts + [last]);
  }

  // ----- What every state keeps -----

  function One(b: bool): nat {
    if b then 1 else 0
  }

  /** Each kind of resource has been given back as often as taken, but for one that is still held. */
  ghost predicate Balanced(s: State, t: Tally) {
    && t.directoriesTaken == t.directoriesFreed + One(s.directory == Held)
    && t.domainsTaken == t.domainsFreed + One(s.domain == Held)
    && t.begun == t.finished + One(s.processes)
  }

  /** Children are the processes spawned; only closing stops them, each once, last spawned first. */
  ghost predicate Ordered(s: State, t: Tally) {
    t.spawned == Processes(s.children) && t.stopped == if s.closed then Reverse(t.spawned) else []
  }

  ghost predicate Books(s: State) {
    Balanced(s, Tallied(s.trace)) && Ordered(s, Tallied(s.trace))
  }

  predicate IsOpen(s: State) {
    s.directory == Held && s.domain == Held && s.processes
  }

  predicate IsIdle(s: State) {
    s.directory == NoLease && s.domain == NoLease && !s.processes && s.children == []
  }

  /** Before its first close a session is fully open or fully idle, and has no cleanup result. */
  ghost predicate BeforeClose(s: State) {
    && (IsOpen(s) || IsIdle(s)) && s.cleanup.None?
    && forall i :: 0 <= i < |s.children| ==> s.children[i].stop.None?
  }

  ghost predicate Kept(s: State) {
    && Books(s) && (!s.closed ==> BeforeClose(s))
    && (s.directory != Held ==> s.domain != Held && !s.processes)
  }

  lemma FinishTally(s: State)
    ensures Tallied(FinishOf(s).trace) ==
            Tallied(s.trace).(finished := Tallied(s.trace).finished + One(s.processes))
  {
    OneMoreEvent(s.trace, FinishProcesses);
  }

  lemma FreeDomainTally(s: State)
    ensures Tallied(FreeDomainOf(s).trace) ==
            Tallied(s.trace).(domainsFreed := Tallied(s.trace).domainsFreed + One(s.domain == Held))
  {
    OneMoreEvent(s.trace, FreeDomain);
  }

  lemma FreeDirectoryTally(s: State)
    ensures Tallied(FreeDirectoryOf(s).trace) ==
            Tallied(s.trace).(directoriesFreed := Tallied(s.trace).directoriesFreed + One(s.directory == Held))
  {
    OneMoreEvent(s.trace, FreeDirectory);
  }

  /** Giving back any one resource keeps the books. */
  lemma FinishKeepsBooks(s: State)
    requires Books(s)
    ensures Books(FinishOf(s))
  {
    FinishTally(s);
  }

  lemma FreeDomainKeepsBooks(s: State)
    requires Books(s)
    ensures Books(FreeDomainOf(s))
  {
    FreeDomainTally(s);
  }

  lemma FreeDirectoryKeepsBooks(s: State)
    requires Books(s)
    ensures Books(FreeDirectoryOf(s))
  {
    FreeDirectoryTally(s);
  }

  /** The exception path gives back whatever had been taken by then. */
  lemma UndoneKeepsBooks(s: State)
    requires Books(s)
    ensures var t := Undone(s);
            && Books(t) && t.directory == NoLease && t.domain == NoLease && !t.processes
            && t.children == s.children && t.closed == s.closed && t.cleanup == s.cleanup
  {
    FinishKeepsBooks(s);
    FreeDomainKeepsBooks(FinishOf(s));
    FreeDirectoryKeepsBooks(FreeDomainOf(FinishOf(s)).(domain := NoLease));
  }

  /** What the state may be while a session is being entered, or after that failed. */
  ghost predicate Entering(s: State, t: State) {
    && Books(t) && t.children == s.children && t.closed == s.closed && t.cleanup == s.cleanup
    && (IsOpen(t) || (t.directory == NoLease && t.domain == NoLease && !t.processes))
  }

  lemma ProcessesEntering(s: State, a: EnterAnswer)
    requires Books(s) && IsOpen(s)
    ensures Entering(s, WithProcesses(s, a).0)
  {
    UndoneKeepsBooks(s);
  }

  lemma DomainEntering(s: State, a: EnterAnswer)
    requires Books(s) && s.directory == Held && s.domain == Held && !s.processes
    ensures Entering(s, WithDomain(s, a).0)
  {
    UndoneKeepsBooks(s);
    OneMoreEvent(s.trace, BeginProcesses);
    ProcessesEntering(Note(s, BeginProcesses).(processes := true), a);
  }

  lemma DirectoryEntering(s: State, a: EnterAnswer)
    requires Books(s) && s.directory == Held && s.domain != Held && !s.processes
    ensures Entering(s, WithDirectory(s, a).0)
  {
    UndoneKeepsBooks(s);
    OneMoreEvent(s.trace, TakeDomain);
    DomainEntering(Note(s, TakeDomain).(domain := Held), a);
  }

  lemma EnterKeeps(s: State, a: EnterAnswer)
    requires Kept(s)
    ensures Kept(Entered(s, a).0)
  {
    if a.threadOk && a.directoryFree && s.directory != Held {
      OneMoreEvent(s.trace, TakeDirectory);
      DirectoryEntering(Note(s, TakeDirectory).(directory := Held), a);
    }
  }

  lemma SpawnKeeps(s: State, role: string, a: SpawnAnswer)
    requires Kept(s)
    ensures Kept(SpawnedBy(s, role, a).0)
  {
    if Active(s) && a.process.Some? {
      OneMoreEvent(s.trace, Spawned(a.process.value));
      assert Processes(s.children + [Child(role, a.process.value, None)]) == Processes(s.children) + [a.process.value];
    }
  }

  /** Stopping every child: one attempt each, in reverse order of spawning. */
  lemma StoppedInTrace(s: State, a: CloseAnswer)
    requires Books(s) && !s.closed
    ensures var stopping := StopFirst(s.children, a.stops, |s.children|);
            var before, after := Tallied(s.trace), Tallied(s.trace + StopEvents(stopping.attempts));
            after == before.(stopped := Reverse(before.spawned))
  {
    AllStopped(s.children, a.stops);
    StopsInTrace(s.trace, StopFirst(s.children, a.stops, |s.children|).attempts);
  }

  lemma AllStopped(children: seq<Child>, stops: nat -> StopAnswer)
    ensures var stopping := StopFirst(children, stops, |children|);
            stopping.attempts == Reverse(Processes(children)) && Processes(stopping.children) == Processes(children)
  {
    StopsInReverse(children, stops, |children|);
    assert children[..|children|] == children;
  }

  lemma CleanUpKeepsBooks(s: State, a: CloseAnswer)
    requires Books(s) && !s.closed
    ensures var t := CleanedUp(s, a);
            && Books(t.(closed := true)) && !t.processes && t.directory == s.directory && t.domain == s.domain
  {
    StoppedInTrace(s, a);
    AllStopped(s.children, a.stops);
    FinishKeepsBooks(StoppedState(s, a).(closed := true));
  }

  /** A closing session whose children have all been stopped. */
  function StoppedState(s: State, a: CloseAnswer): State {
    var stopping := StopFirst(s.children, a.stops, |s.children|);
    s.(children := stopping.children, trace := s.trace + StopEvents(stopping.attempts),
       cleanup := if s.processes && a.finish.Finished? then Some(a.finish.remaining) else s.cleanup)
  }

  lemma CloseKeeps(s: State, incoming: Option<string>, a: CloseAnswer)
    requires Kept(s)
    ensures Kept(Closed(s, incoming, a).0)
    ensures !s.closed ==>
              var t := Closed(s, incoming, a).0;
              t.closed && t.directory != Held && t.domain != Held && !t.processes
  {
    if !s.closed {
      CleanUpKeepsBooks(s, a);
      SettleKeepsBooks(CleanedUp(s, a), WorkingError(incoming, a), CleanupErrors(s, a));
    }
  }

  lemma SettleKeepsBooks(s: State, error: Option<string>, errors: seq<string>)
    requires Books(s.(closed := true))
    ensures var t := Settled(s, error, errors);
            Books(t) && t.closed && t.directory != Held && t.domain != Held && t.processes == s.processes
  {
    var t := s.(error := ReportedError(error, errors), closed := true,
                outcome := if error.Some? || errors != [] then Failed else Passed);
    assert Books(t);
    FreeDomainKeepsBooks(t);
    FreeDirectoryKeepsBooks(FreeDomainOf(t));
  }

  lemma StepKeeps(s: State, call: Call)
    requires Kept(s)
    ensures Kept(Step(s, call))
  {
    match call
    case CallEnter(a) => EnterKeeps(s, a);
    case CallSpawn(role, a) => SpawnKeeps(s, role, a);
    case CallRun(_, _) =>
    case CallClose(incoming, a) => CloseKeeps(s, incoming, a);
  }

  lemma NewKeeps(s: State)
    requires s.trace == [] && s.children == [] && s.directory == s.domain == NoLease
    requires !s.processes && s.cleanup.None? && !s.closed
    ensures Kept(s)
  {
    assert Tallied(s.trace).spawned == [];
  }

  /** In every state any calls lead to, with any answers, the books are right. */
  lemma {:induction false} EveryStateKeeps(calls: seq<Call>)
    ensures Kept(After(calls))
  {
    if calls == [] {
      NewKeeps(NEW);
    } else {
      EveryStateKeeps(calls[..|calls| - 1]);
      StepKeeps(After(calls[..|calls| - 1]), calls[|calls| - 1]);
    }
  }

  // ----- At every moment -----

  /** A process session only within a domain lease, and that only within a directory lease. */
  ghost predicate Nested(t: Tally) {
    && t.finished <= t.begun
    && t.begun - t.finished <= t.domainsTaken - t.domainsFreed <= t.directoriesTaken - t.directoriesFreed
  }

  /** Children come and go only within a process session. */
  ghost predicate Fitting(t: Tally, e: Event) {
    e.Spawned? || e.StopAttempt? ==> t.begun > t.finished
  }

  /** So it was after every single event. */
  ghost predicate AlwaysNested(trace: seq<Event>) {
    if trace == [] then true
    else
      var init := trace[..|trace| - 1];
      AlwaysNested(init) && Nested(Tallied(trace)) && Fitting(Tallied(init), trace[|trace| - 1])
  }

  lemma OneMoreNested(trace: seq<Event>, e: Event)
    requires AlwaysNested(trace) && Nested(Enter(Tallied(trace), e)) && Fitting(Tallied(trace), e)
    ensures AlwaysNested(trace + [e])
  {
    OneMoreEvent(trace, e);
    assert (trace + [e])[..|trace|] == trace;
  }

  ghost predicate Orderly(s: State) {
    && Balanced(s, Tallied(s.trace)) && AlwaysNested(s.trace)
    && (s.processes ==> s.domain == Held) && (s.domain == Held ==> s.directory == Held)
  }

  lemma FinishIsOrderly(s: State)
    requires Orderly(s)
    ensures Orderly(FinishOf(s)) && !FinishOf(s).processes
  {
    FinishTally(s);
    if s.processes {
      OneMoreNested(s.trace, FinishProcesses);
    }
  }

  lemma FreeDomainIsOrderly(s: State)
    requires Orderly(s) && !s.processes
    ensures Orderly(FreeDomainOf(s)) && FreeDomainOf(s).domain != Held && !FreeDomainOf(s).processes
  {
    FreeDomainTally(s);
    if s.domain == Held {
      OneMoreNested(s.trace, FreeDomain);
    }
  }

  lemma FreeDirectoryIsOrderly(s: State)
    requires Orderly(s) && s.domain != Held && !s.processes
    ensures Orderly(FreeDirectoryOf(s)) && FreeDirectoryOf(s).directory != Held
  {
    FreeDirectoryTally(s);
    if s.directory == Held {
      OneMoreNested(s.trace, FreeDirectory);
    }
  }

  lemma UndoneIsOrderly(s: State)
    requires Orderly(s)
    ensures Orderly(Undone(s))
  {
    FinishIsOrderly(s);
    var finished := FinishOf(s);
    FreeDomainIsOrderly(finished);
    var freed := FreeDomainOf(finished).(domain := NoLease);
    assert Orderly(freed);
    FreeDirectoryIsOrderly(freed);
  }

  lemma ProcessesAreOrderly(s: State, a: EnterAnswer)
    requires Orderly(s)
    ensures Orderly(WithProcesses(s, a).0)
  {
    UndoneIsOrderly(s);
  }

  lemma DomainIsOrderly(s: State, a: EnterAnswer)
    requires Orderly(s) && s.domain == Held && !s.processes
    ensures Orderly(WithDomain(s, a).0)
  {
    UndoneIsOrderly(s);
    OneMoreEvent(s.trace, BeginProcesses);
    OneMoreNested(s.trace, BeginProcesses);
    ProcessesAreOrderly(Note(s, BeginProcesses).(processes := true), a);
  }

  lemma DirectoryIsOrderly(s: State, a: EnterAnswer)
    requires Orderly(s) && s.directory == Held && s.domain != Held && !s.processes
    ensures Orderly(WithDirectory(s, a).0)
  {
    UndoneIsOrderly(s);
    OneMoreEvent(s.trace, TakeDomain);
    OneMoreNested(s.trace, TakeDomain);
    DomainIsOrderly(Note(s, TakeDomain).(domain := Held), a);
  }

  lemma EnterIsOrderly(s: State, a: EnterAnswer)
    requires Orderly(s)
    ensures Orderly(Entered(s, a).0)
  {
    if a.threadOk && a.directoryFree && s.directory != Held {
      OneMoreEvent(s.trace, TakeDirectory);
      OneMoreNested(s.trace, TakeDirectory);
      DirectoryIsOrderly(Note(s, TakeDirectory).(directory := Held), a);
    }
  }

  lemma SpawnIsOrderly(s: State, role: string, a: SpawnAnswer)
    requires Orderly(s) && Kept(s)
    ensures Orderly(SpawnedBy(s, role, a).0)
  {
    if Active(s) && a.process.Some? {
      OneMoreEvent(s.trace, Spawned(a.process.value));
      OneMoreNested(s.trace, Spawned(a.process.value));
    }
  }

  lemma {:induction false} StopsAreNested(trace: seq<Event>, attempts: seq<Process>)
    requires AlwaysNested(trace) && Nested(Tallied(trace))
    requires attempts != [] ==> Tallied(trace).begun > Tallied(trace).finished
    ensures AlwaysNested(trace + StopEvents(attempts))
  {
    var events := StopEvents(attempts);
    if attempts == [] {
      assert trace + events == trace;
    } else {
      var init, last := attempts[..|attempts| - 1], attempts[|attempts| - 1];
      StopsAreNested(trace, init);
      StopsInTrace(trace, init);
      assert trace + events == (trace + StopEvents(init)) + [StopAttempt(last)];
      OneMoreNested(trace + StopEvents(init), StopAttempt(last));
    }
  }

  lemma StoppedIsOrderly(s: State, a: CloseAnswer)
    requires Orderly(s) && Kept(s) && !s.closed
    ensures Orderly(StoppedState(s, a))
  {
    var attempts := StopFirst(s.children, a.stops, |s.children|).attempts;
    StopsInTrace(s.trace, attempts);
    StopsAreNested(s.trace, attempts);
  }

  lemma SettledIsOrderly(s: State, error: Option<string>, errors: seq<string>)
    requires Orderly(s) && !s.processes
    ensures Orderly(Settled(s, error, errors))
  {
    var t := s.(error := ReportedError(error, errors), closed := true,
                outcome := if error.Some? || errors != [] then Failed else Passed);
    assert Orderly(t);
    FreeDomainIsOrderly(t);
    FreeDirectoryIsOrderly(FreeDomainOf(t));
  }

  lemma CloseIsOrderly(s: State, incoming: Option<string>, a: CloseAnswer)
    requires Orderly(s) && Kept(s)
    ensures Orderly(Closed(s, incoming, a).0)
  {
    if !s.closed {
      StoppedIsOrderly(s, a);
      FinishIsOrderly(StoppedState(s, a));
      SettledIsOrderly(CleanedUp(s, a), WorkingError(incoming, a), CleanupErrors(s, a));
    }
  }

  lemma StepIsOrderly(s: State, call: Call)
    requires Orderly(s) && Kept(s)
    ensures Orderly(Step(s, call))
  {
    match call
    case CallEnter(a) => EnterIsOrderly(s, a);
    case CallSpawn(role, a) => SpawnIsOrderly(s, role, a);
    case CallRun(_, _) =>
    case CallClose(incoming, a) => CloseIsOrderly(s, incoming, a);
  }

  lemma NewIsOrderly(s: State)
    requires s.trace == [] && s.directory == s.domain == NoLease && !s.processes
    ensures Orderly(s)
  {
  }

  /**
   In every life of a session, after every single event: a process session is begun only under a held
   domain and finished before that is freed, a domain is taken only under a held directory and freed
   before that, and children are spawned and stopped only within a process session.
   */
  lemma {:induction false} EveryLifeIsOrderly(calls: seq<Call>)
    ensures Orderly(After(calls)) && AlwaysNested(After(calls).trace)
  {
    if calls == [] {
      NewIsOrderly(NEW);
    } else {
      var init := calls[..|calls| - 1];
      EveryLifeIsOrderly(init);
      EveryStateKeeps(init);
      StepIsOrderly(After(init), calls[|calls| - 1]);
    }
  }

  // ----- The promises -----

  ghost predicate GivenBack(s: State) {
    var t := Tallied(s.trace);
    t.directoriesTaken == t.directoriesFreed && t.domainsTaken == t.domainsFreed && t.begun == t.finished
  }

  /** Whatever was called, every child has had one stop attempt, in reverse order, once closed. */
  lemma ChildrenAreStoppedInReverse(calls: seq<Call>)
    ensures var t := Tallied(After(calls).trace);
            t.stopped == if After(calls).closed then Reverse(t.spawned) else []
  {
    EveryStateKeeps(calls);
  }

  /**
   Closing gives everything back, whatever was called before and whatever fails on the way,
   exactly unless the session was closed already and had been entered again since.
   */
  lemma CloseGivesBackExactly(calls: seq<Call>, incoming: Option<string>, a: CloseAnswer)
    ensures GivenBack(Closed(After(calls), incoming, a).0) <==>
            !(After(calls).closed && After(calls).directory == Held)
  {
    EveryStateKeeps(calls);
    CloseKeeps(After(calls), incoming, a);
  }

  // ----- Which runs are recorded -----

  /** Call `j` is a run that the session, as it was then, let through. */
  predicate LetThrough(calls: seq<Call>, j: int) {
    && 0 <= j < |calls| && calls[j].CallRun? && calls[j].run.timeLeft && Active(After(calls[..j]))
  }

  /** What a record says of a command, field by field of what the adapter answered. */
  ghost predicate RecordFits(check: bool, a: RunAnswer, r: RunRecord) {
    && (r.error.None? <==> !a.raised && !a.timedOut && (check ==> a.returncode == 0))
    && (r.error == Some(Interrupted) <==> a.raised)
    && (r.error == Some(TimedOut) <==> !a.raised && a.timedOut)
    && (forall code :: r.error == Some(ExitCode(code)) <==>
          !a.raised && !a.timedOut && check && a.returncode == code != 0)
    && (if a.raised then r.returncode.None? && !r.timedOut
        else r.returncode == Some(a.returncode) && r.timedOut == a.timedOut)
  }

  lemma RecordedFits(check: bool, a: RunAnswer)
    ensures RecordFits(check, a, Recorded(check, a))
  {
  }

  /** Record `i` is that of the call at its position, in the order of the calls, and no such call is left out. */
  ghost predicate Records(calls: seq<Call>, runs: seq<RunRecord>, positions: seq<nat>) {
    && |positions| == |runs|
    && (forall i, j :: 0 <= i < j < |positions| ==> positions[i] < positions[j])
    && (forall i :: 0 <= i < |positions| ==>
          LetThrough(calls, positions[i]) && RecordFits(calls[positions[i]].check, calls[positions[i]].run, runs[i]))
    && forall j :: LetThrough(calls, j) ==> j in positions
  }

  lemma LetThroughBefore(init: seq<Call>, last: Call, j: int)
    requires 0 <= j < |init|
    ensures LetThrough(init + [last], j) <==> LetThrough(init, j)
  {
    assert (init + [last])[..j] == init[..j];
  }

  lemma OneMoreRecord(init: seq<Call>, last: Call, runs: seq<RunRecord>, positions: seq<nat>)
    requires Records(init, runs, positions)
    ensures var calls := init + [last];
            if LetThrough(calls, |init|)
            then Records(calls, runs + [Recorded(last.check, last.run)], positions + [|init|])
            else Records(calls, runs, positions)
  {
    var calls := init + [last];
    forall j | 0 <= j < |init|
      ensures LetThrough(calls, j) <==> LetThrough(init, j)
    {
      LetThroughBefore(init, last, j);
    }
    assert forall j :: LetThrough(calls, j) ==> j == |init| || LetThrough(init, j);
    if LetThrough(calls, |init|) {
      RecordedFits(last.check, last.run);
    }
  }

  lemma OnlyRunsRecord(s: State, call: Call)
    ensures Step(s, call).runs ==
            if call.CallRun? && call.run.timeLeft && Active(s) then s.runs + [Recorded(call.check, call.run)]
            else s.runs
  {
    match call
    case CallEnter(a) => EnterRecordsNothing(s, a);
    case CallSpawn(_, _) =>
    case CallRun(_, _) =>
    case CallClose(incoming, a) => CloseRecordsNothing(s, incoming, a);
  }

  lemma UndoneRecordsNothing(s: State)
    ensures Undone(s).runs == s.runs
  {
  }

  lemma EnterRecordsNothing(s: State, a: EnterAnswer)
    ensures Entered(s, a).0.runs == s.runs
  {
    var directory := Note(s, TakeDirectory).(directory := Held);
    var domain := Note(directory, TakeDomain).(domain := Held);
    UndoneRecordsNothing(directory);
    DomainRecordsNothing(domain, a);
  }

  lemma DomainRecordsNothing(s: State, a: EnterAnswer)
    ensures WithDomain(s, a).0.runs == s.runs
  {
    UndoneRecordsNothing(s);
    UndoneRecordsNothing(Note(s, BeginProcesses).(processes := true));
  }

  lemma CloseRecordsNothing(s: State, incoming: Option<string>, a: CloseAnswer)
    ensures Closed(s, incoming, a).0.runs == s.runs
  {
    assert CleanedUp(s, a).runs == s.runs;
  }

  /**
   In every life of a session the records are one for each run that was let through, in order, each
   with what came of that run; no other call adds or changes any.
   */
  lemma {:induction false} RecordsAreTheRuns(calls: seq<Call>) returns (positions: seq<nat>)
    ensures Records(calls, After(calls).runs, positions)
  {
    if calls == [] {
      positions := [];
    } else {
      var init, last := calls[..|calls| - 1], calls[|calls| - 1];
      positions := RecordsAreTheRuns(init);
      assert calls == init + [last] && calls[..|init|] == init;
      OneMoreRecord(init, last, After(init).runs, positions);
      OnlyRunsRecord(After(init), last);
      if LetThrough(calls, |init|) {
        positions := positions + [|init|];
      }
    }
  }

  /** Later calls leave the records of earlier ones as they are. */
  lemma {:induction false} RecordsAreKept(calls: seq<Call>, more: seq<Call>)
    ensures After(calls).runs <= After(calls + more).runs
  {
    if more == [] {
      assert calls + more == calls;
    } else {
      var init, last := more[..|more| - 1], more[|more| - 1];
      RecordsAreKept(calls, init);
      assert calls + more == (calls + init) + [last];
      OneMoreCall(calls + init, last);
      OnlyRunsRecord(After(calls + init), last);
    }
  }

  /** How the call ends for whoever made it. */
  function ExitFrom(s: State, call: Call): Exit {
    match call
    case CallEnter(a) => Entered(s, a).1
    case CallSpawn(role, a) => SpawnedBy(s, role, a).1
    case CallRun(check, a) => RunBy(s, check, a).1
    case CallClose(incoming, a) => Closed(s, incoming, a).1
  }

  /**
   A run returns normally if and only if it was let through, the command was not interrupted, came
   to its end in time, exited with 0 if that was to be checked, and the manifest was written.
   */
  lemma RunReturnsExactly(calls: seq<Call>, j: nat)
    requires j < |calls| && calls[j].CallRun?
    ensures ExitFrom(After(calls[..j]), calls[j]) == Returns <==>
            && LetThrough(calls, j)
            && !calls[j].run.raised && !calls[j].run.timedOut && (calls[j].check ==> calls[j].run.returncode == 0)
            && calls[j].run.manifestOk
  {
    RecordedFits(calls[j].check, calls[j].run);
  }

  // ----- Which children are recorded -----

  /** Call `j` is a spawn that the session, as it was then, let through and the adapter carried out. */
  predicate SpawnedAt(calls: seq<Call>, j: int) {
    && 0 <= j < |calls| && calls[j].CallSpawn? && calls[j].spawn.process.Some? && Active(After(calls[..j]))
  }

  /** Child `i` has the role and the process of the spawn at its position; no such spawn is left out. */
  ghost predicate Spawns(calls: seq<Call>, children: seq<Child>, positions: seq<nat>) {
    && |positions| == |children|
    && (forall i, j :: 0 <= i < j < |positions| ==> positions[i] < positions[j])
    && (forall i :: 0 <= i < |positions| ==>
          && SpawnedAt(calls, positions[i]) && children[i].role == calls[positions[i]].role
          && children[i].process == calls[positions[i]].spawn.process.value)
    && forall j :: SpawnedAt(calls, j) ==> j in positions
  }

  /** The children are the same but for what came of stopping them. */
  ghost predicate SameChildren(before: seq<Child>, after: seq<Child>) {
    |after| == |before| &&
    forall i :: 0 <= i < |before| ==> after[i].role == before[i].role && after[i].process == before[i].process
  }

  lemma CloseKeepsChildren(s: State, incoming: Option<string>, a: CloseAnswer)
    ensures SameChildren(s.children, Closed(s, incoming, a).0.children)
  {
    StopsInReverse(s.children, a.stops, |s.children|);
    assert !s.closed ==> Closed(s, incoming, a).0.children == CleanedUp(s, a).children;
  }

  lemma EnterKeepsChildren(s: State, a: EnterAnswer)
    ensures Entered(s, a).0.children == s.children
  {
    var directory := Note(s, TakeDirectory).(directory := Held);
    UndoneKeepsChildren(directory);
    DomainKeepsChildren(Note(directory, TakeDomain).(domain := Held), a);
  }

  lemma DomainKeepsChildren(s: State, a: EnterAnswer)
    ensures WithDomain(s, a).0.children == s.children
  {
    UndoneKeepsChildren(s);
    UndoneKeepsChildren(Note(s, BeginProcesses).(processes := true));
  }

  lemma UndoneKeepsChildren(s: State)
    ensures Undone(s).children == s.children
  {
  }

  lemma OnlySpawnsAdd(s: State, call: Call)
    ensures if call.CallSpawn? && call.spawn.process.Some? && Active(s)
            then Step(s, call).children == s.children + [Child(call.role, call.spawn.process.value, None)]
            else SameChildren(s.children, Step(s, call).children)
  {
    match call
    case CallEnter(a) => EnterKeepsChildren(s, a);
    case CallSpawn(_, _) =>
    case CallRun(_, _) =>
    case CallClose(incoming, a) => CloseKeepsChildren(s, incoming, a);
  }

  lemma SpawnedBefore(init: seq<Call>, last: Call)
    ensures forall j :: 0 <= j < |init| ==> (SpawnedAt(init + [last], j) <==> SpawnedAt(init, j))
  {
    forall j | 0 <= j < |init|
      ensures SpawnedAt(init + [last], j) <==> SpawnedAt(init, j)
    {
      assert (init + [last])[..j] == init[..j];
    }
  }

  lemma SameSpawns(init: seq<Call>, last: Call, before: seq<Child>, after: seq<Child>, positions: seq<nat>)
    requires Spawns(init, before, positions) && SameChildren(before, after) && !SpawnedAt(init + [last], |init|)
    ensures Spawns(init + [last], after, positions)
  {
    var calls := init + [last];
    SpawnedBefore(init, last);
    forall i | 0 <= i < |positions|
      ensures SpawnedAt(calls, positions[i]) && calls[positions[i]] == init[positions[i]]
    {
    }
    assert forall j :: SpawnedAt(calls, j) ==> SpawnedAt(init, j);
  }

  lemma OneMoreSpawn(init: seq<Call>, last: Call, before: seq<Child>, positions: seq<nat>)
    requires Spawns(init, before, positions) && SpawnedAt(init + [last], |init|)
    ensures Spawns(init + [last], before + [Child(last.role, last.spawn.process.value, None)], positions + [|init|])
  {
    var calls := init + [last];
    SpawnedBefore(init, last);
    forall i | 0 <= i < |positions|
      ensures SpawnedAt(calls, positions[i]) && calls[positions[i]] == init[positions[i]]
    {
    }
    assert calls[|init|] == last;
    assert forall j :: SpawnedAt(calls, j) ==> j == |init| || SpawnedAt(init, j);
  }

  /** In every life of a session its children are the spawns that were carried out, in order. */
  lemma {:induction false} ChildrenAreTheSpawns(calls: seq<Call>) returns (positions: seq<nat>)
    ensures Spawns(calls, After(calls).children, positions)
  {
    if calls == [] {
      positions := [];
    } else {
      var init, last := calls[..|calls| - 1], calls[|calls| - 1];
      positions := ChildrenAreTheSpawns(init);
      assert calls == init + [last] && calls[..|init|] == init;
      OnlySpawnsAdd(After(init), last);
      if SpawnedAt(calls, |init|) {
        OneMoreSpawn(init, last, After(init).children, positions);
        positions := positions + [|init|];
      } else {
        SameSpawns(init, last, After(init).children, After(calls).children, positions);
      }
    }
  }

  /** A spawn returns normally if and only if it was carried out and the manifest was written. */
  lemma SpawnReturnsExactly(calls: seq<Call>, j: nat)
    requires j < |calls| && calls[j].CallSpawn?
    ensures ExitFrom(After(calls[..j]), calls[j]) == Returns <==> SpawnedAt(calls, j) && calls[j].spawn.manifestOk
  {
  }

  // ----- One `with` block -----

  ghost predicate IsBody(calls: seq<Call>) {
    forall i :: 0 <= i < |calls| ==> calls[i].CallSpawn? || calls[i].CallRun?
  }

  /** The calls of one block: if entering raises, neither the body nor close is reached. */
  function Block(enter: EnterAnswer, body: seq<Call>, incoming: Option<string>, close: CloseAnswer): seq<Call> {
    if Entered(NEW, enter).1 == Raises then [CallEnter(enter)]
    else [CallEnter(enter)] + body + [CallClose(incoming, close)]
  }

  /** Begun at most once, and not closed. */
  ghost predicate FirstTime(s: State) {
    !s.closed && Tallied(s.trace).begun <= 1
  }

  lemma EnteredFirstTime(enter: EnterAnswer)
    ensures FirstTime(Entered(NEW, enter).0)
    ensures Entered(NEW, enter).1 == Returns ==> IsOpen(Entered(NEW, enter).0)
  {
    OneMoreEvent([], TakeDirectory);
    DirectoryFirstTime(Note(NEW, TakeDirectory).(directory := Held), enter);
  }

  lemma DirectoryFirstTime(s: State, enter: EnterAnswer)
    requires !s.closed && s.directory == Held && Tallied(s.trace).begun == 0
    ensures FirstTime(WithDirectory(s, enter).0)
    ensures WithDirectory(s, enter).1 == Returns ==> IsOpen(WithDirectory(s, enter).0)
  {
    UndoneBeginsNothing(s);
    OneMoreEvent(s.trace, TakeDomain);
    DomainFirstTime(Note(s, TakeDomain).(domain := Held), enter);
  }

  lemma DomainFirstTime(s: State, enter: EnterAnswer)
    requires !s.closed && s.directory == Held && s.domain == Held && Tallied(s.trace).begun == 0
    ensures FirstTime(WithDomain(s, enter).0)
    ensures WithDomain(s, enter).1 == Returns ==> IsOpen(WithDomain(s, enter).0)
  {
    UndoneBeginsNothing(s);
    OneMoreEvent(s.trace, BeginProcesses);
    ProcessesFirstTime(Note(s, BeginProcesses).(processes := true), enter);
  }

  lemma ProcessesFirstTime(s: State, enter: EnterAnswer)
    requires !s.closed && IsOpen(s) && Tallied(s.trace).begun == 1
    ensures FirstTime(WithProcesses(s, enter).0)
    ensures WithProcesses(s, enter).1 == Returns ==> IsOpen(WithProcesses(s, enter).0)
  {
    UndoneBeginsNothing(s);
  }

  lemma UndoneBeginsNothing(s: State)
    ensures Tallied(Undone(s).trace).begun == Tallied(s.trace).begun && Undone(s).closed == s.closed
  {
    FinishTally(s);
    FreeDomainTally(FinishOf(s));
    FreeDirectoryTally(FreeDomainOf(FinishOf(s)).(domain := NoLease));
  }

  lemma BodyStep(s: State, call: Call)
    requires call.CallSpawn? || call.CallRun?
    ensures FirstTime(s) ==> FirstTime(Step(s, call))
    ensures IsOpen(Step(s, call)) == IsOpen(s)
  {
    if call.CallSpawn? && call.spawn.process.Some? {
      OneMoreEvent(s.trace, Spawned(call.spawn.process.value));
    }
  }

  lemma {:induction false} BodyKeepsOpen(enter: EnterAnswer, body: seq<Call>)
    requires IsBody(body)
    ensures FirstTime(After([CallEnter(enter)] + body))
    ensures IsOpen(After([CallEnter(enter)] + body)) == IsOpen(Entered(NEW, enter).0)
  {
    if body == [] {
      assert [CallEnter(enter)] + body == [CallEnter(enter)];
      FirstCall(CallEnter(enter));
      EnteredFirstTime(enter);
    } else {
      var init, last := body[..|body| - 1], body[|body| - 1];
      var calls := [CallEnter(enter)] + init;
      BodyKeepsOpen(enter, init);
      assert [CallEnter(enter)] + body == calls + [last];
      OneMoreCall(calls, last);
      BodyStep(After(calls), last);
    }
  }

  lemma SettleBeginsNothing(s: State, error: Option<string>, errors: seq<string>)
    ensures Tallied(Settled(s, error, errors).trace).begun == Tallied(s.trace).begun
  {
    var t := s.(error := ReportedError(error, errors), closed := true,
                outcome := if error.Some? || errors != [] then Failed else Passed);
    FreeDomainTally(t);
    FreeDirectoryTally(FreeDomainOf(t));
  }

  /** Closing begins no process session. */
  lemma CloseBeginsNothing(s: State, incoming: Option<string>, a: CloseAnswer)
    requires Books(s) && !s.closed
    ensures Tallied(Closed(s, incoming, a).0.trace).begun == Tallied(s.trace).begun
  {
    StoppedInTrace(s, a);
    FinishTally(StoppedState(s, a));
    SettleBeginsNothing(CleanedUp(s, a), WorkingError(incoming, a), CleanupErrors(s, a));
  }

  /** Everything is set up, and then announcing it raises. */
  predicate LostInEntry(a: EnterAnswer) {
    && a.threadOk && a.directoryFree && a.mkdirOk && a.domainFree && a.setupOk && a.beginOk
    && a.manifestOk && a.watchdogOk && !a.announceOk
  }

  /**
   In every block, whatever acquisition, adapter call, manifest write or printing fails: both
   leases and the process session are given back if and only if it is not the announcement at the
   end of entering that raises. A process session is finished at most once, exactly once if the
   body was reached, and every child is stopped once, in reverse.
   */
  lemma BlockGivesBackExactly(enter: EnterAnswer, body: seq<Call>, incoming: Option<string>, close: CloseAnswer)
    requires IsBody(body)
    ensures var s := After(Block(enter, body, incoming, close));
            var t := Tallied(s.trace);
            && (GivenBack(s) <==> !LostInEntry(enter))
            && t.finished <= 1 && t.stopped == Reverse(t.spawned)
            && (Entered(NEW, enter).1 == Returns ==> s.closed && t.finished == 1)
  {
    if Entered(NEW, enter).1 == Returns {
      OpenBlock(enter, body, incoming, close);
    } else if LostInEntry(enter) {
      LostEntry(enter);
    } else {
      RefusedEntry(enter);
    }
  }

  /** The leak: both leases and the process session stay held, and nobody will close them. */
  lemma LostEntry(enter: EnterAnswer)
    requires LostInEntry(enter)
    ensures Entered(NEW, enter).1 == Raises
    ensures var s := After([CallEnter(enter)]);
            var t := Tallied(s.trace);
            && s.directory == Held && s.domain == Held && s.processes && !GivenBack(s)
            && t.finished <= 1 && t.stopped == [] == t.spawned
  {
    FirstCall(CallEnter(enter));
    EveryStateKeeps([CallEnter(enter)]);
    EnteredFirstTime(enter);
    LostIsOpen(enter);
    OpenHasNotGivenBack(Entered(NEW, enter).0);
  }

  lemma LostIsOpen(enter: EnterAnswer)
    requires LostInEntry(enter)
    ensures var s := Entered(NEW, enter).0;
            IsOpen(s) && s.children == [] && !s.closed && Entered(NEW, enter).1 == Raises
  {
  }

  lemma OpenHasNotGivenBack(s: State)
    requires Books(s) && IsOpen(s) && FirstTime(s) && s.children == []
    ensures var t := Tallied(s.trace);
            !GivenBack(s) && t.finished <= 1 && t.stopped == [] == t.spawned
  {
  }

  lemma RefusedEntry(enter: EnterAnswer)
    requires Entered(NEW, enter).1 == Raises && !LostInEntry(enter)
    ensures var s := After([CallEnter(enter)]);
            GivenBack(s) && Tallied(s.trace).finished <= 1 && Tallied(s.trace).stopped == [] == Tallied(s.trace).spawned
  {
    FirstCall(CallEnter(enter));
    EveryStateKeeps([CallEnter(enter)]);
    EnteredFirstTime(enter);
    RefusedIsIdle(enter);
    IdleHasGivenBack(Entered(NEW, enter).0);
  }

  lemma IdleHasGivenBack(s: State)
    requires Books(s) && IsIdle(s) && FirstTime(s)
    ensures GivenBack(s) && Tallied(s.trace).finished <= 1 && Tallied(s.trace).stopped == [] == Tallied(s.trace).spawned
  {
  }

  lemma RefusedIsIdle(enter: EnterAnswer)
    requires Entered(NEW, enter).1 == Raises && !LostInEntry(enter)
    ensures IsIdle(Entered(NEW, enter).0)
  {
  }

  lemma ClosedOnce(s: State, incoming: Option<string>, close: CloseAnswer)
    requires Kept(s) && FirstTime(s) && IsOpen(s)
    ensures var s' := Closed(s, incoming, close).0;
            var t := Tallied(s'.trace);
            GivenBack(s') && t.stopped == Reverse(t.spawned) && s'.closed && t.finished == 1
  {
    CloseKeeps(s, incoming, close);
    CloseBeginsNothing(s, incoming, close);
  }

  lemma OpenBlock(enter: EnterAnswer, body: seq<Call>, incoming: Option<string>, close: CloseAnswer)
    requires IsBody(body) && Entered(NEW, enter).1 == Returns
    ensures var s := After([CallEnter(enter)] + body + [CallClose(incoming, close)]);
            var t := Tallied(s.trace);
            GivenBack(s) && t.stopped == Reverse(t.spawned) && s.closed && t.finished == 1
  {
    var calls := [CallEnter(enter)] + body;
    OneMoreCall(calls, CallClose(incoming, close));
    EnteredFirstTime(enter);
    BodyKeepsOpen(enter, body);
    EveryStateKeeps(calls);
    ClosedOnce(After(calls), incoming, close);
  }

  // ----- The manifest's claim, and a session entered twice -----

  /**
   The manifest claims a complete cleanup exactly when the close found nothing wrong: this
   equivalence holds if and only if the process session was running when close was called.
   */
  lemma CleanupClaimIsHonestExactlyWhenOpen(calls: seq<Call>, incoming: Option<string>, a: CloseAnswer)
    requires !After(calls).closed
    ensures (CleanupErrors(After(calls), a) == [] <==> CleanupComplete(Closed(After(calls), incoming, a).0))
       <==> After(calls).processes
  {
    EveryStateKeeps(calls);
    CleanupClaim(After(calls), incoming, a);
  }

  /** Closing a session that was never entered finds nothing wrong and still claims an incomplete cleanup. */
  lemma UnenteredClaimIsWrong(a: CloseAnswer)
    ensures !After([]).closed && !After([]).processes
    ensures CleanupErrors(After([]), a) == [] && !CleanupComplete(Closed(After([]), None, a).0)
  {
    assert Closed(After([]), None, a).0.cleanup.None?;
  }

  lemma CleanupClaim(s: State, incoming: Option<string>, a: CloseAnswer)
    requires !s.closed && BeforeClose(s)
    ensures (CleanupErrors(s, a) == [] <==> CleanupComplete(Closed(s, incoming, a).0)) <==> s.processes
  {
    var n := |s.children|;
    NoErrorsMeansReaped(s.children, a.stops, n);
    StopsInReverse(s.children, a.stops, n);
    var t := Closed(s, incoming, a).0;
    assert t.children == StopFirst(s.children, a.stops, n).children;
    forall i | 0 <= i < n
      ensures t.children[i].stop.Some? && t.children[i].stop.value.Some? <==> Reaped(a.stops(i))
    {
      assert t.children[i] == AfterStop(s.children[i], a.stops(i));
    }
  }

  /** Entering a session again after it was closed succeeds, and closing it again frees nothing. */
  lemma ReenteredSessionLeaks(enter: EnterAnswer, close: CloseAnswer)
    requires enter == EnterAnswer(true, true, true, true, true, true, true, true, true)
    ensures var s := After([CallEnter(enter), CallClose(None, close), CallEnter(enter), CallClose(None, close)]);
            s.directory == Held && s.domain == Held && !GivenBack(s)
  {
    var c1 := [CallEnter(enter)];
    var c2 := c1 + [CallClose(None, close)];
    var c3 := c2 + [CallEnter(enter)];
    OpenedAndClosed(c1, c2, enter, close);
    OneMoreCall(c2, CallEnter(enter));
    ReentryHolds(After(c2), enter);
    OneMoreCall(c3, CallClose(None, close));
    CloseGivesBackExactly(c3, None, close);
    assert [CallEnter(enter), CallClose(None, close), CallEnter(enter), CallClose(None, close)] ==
           c3 + [CallClose(None, close)];
  }

  lemma OpenedAndClosed(c1: seq<Call>, c2: seq<Call>, enter: EnterAnswer, close: CloseAnswer)
    requires c1 == [CallEnter(enter)] && c2 == c1 + [CallClose(None, close)]
    ensures After(c2).closed && After(c2).directory != Held
  {
    EveryStateKeeps(c1);
    OpenedFirst(enter);
    OneMoreCall(c1, CallClose(None, close));
    CloseStep(After(c1), close);
  }

  lemma OpenedFirst(enter: EnterAnswer)
    ensures !After([CallEnter(enter)]).closed
  {
    FirstCall(CallEnter(enter));
    EnteredFirstTime(enter);
  }

  lemma CloseStep(s: State, close: CloseAnswer)
    requires Kept(s) && !s.closed
    ensures var t := Step(s, CallClose(None, close));
            t.closed && t.directory != Held
  {
    CloseKeeps(s, None, close);
  }

  lemma ReentryHolds(s: State, enter: EnterAnswer)
    requires enter == EnterAnswer(true, true, true, true, true, true, true, true, true) && s.directory != Held
    ensures var t := Entered(s, enter).0;
            IsOpen(t) && t.closed == s.closed
  {
  }
}
