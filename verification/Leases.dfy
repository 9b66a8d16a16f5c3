/**
 Exclusive leases on ROS domains and artifact directories, built on `flock`. The kernel keeps one
 table of open files over all processes; a lock belongs to an open file and goes when it is closed.
 Descriptor numbers are reused as soon as they are free.
 */
module Leases {
  import opened Options
  import opened Numerals

  datatype Handle = Handle(pid: nat, descriptor: nat)
  datatype File = File(path: string, locked: bool)
  type Files = map<Handle, File>

  /** Some open file holds the lock of the path. */
  predicate IsLocked(files: Files, path: string) {
    exists h :: h in files && files[h] == File(path, true)
  }

  // ----- Lock file names -----

  const DOMAIN_PREFIX := "domains/ros-domain-"
  const ARTIFACT_PREFIX := "artifacts/artifact-"
  const LOCK_SUFFIX := ".lock"

  function DomainPath(domain: int): string {
    DOMAIN_PREFIX + PrintInt(domain) + LOCK_SUFFIX
  }

  /** The artifact lock is named after a digest of the resolved directory. */
  function ArtifactPath(digest: string -> string, target: string): string {
    ARTIFACT_PREFIX + digest(target) + LOCK_SUFFIX
  }

  lemma MiddleIsUnique(prefix: string, a: string, b: string, suffix: string)
    requires prefix + a + suffix == prefix + b + suffix
    ensures a == b
  {
    var s, t := prefix + a + suffix, prefix + b + suffix;
    assert |a| == |b|;
    assert a == s[|prefix|..|prefix| + |a|] && b == t[|prefix|..|prefix| + |b|];
  }

  /** Different domains have different lock files. */
  lemma DomainPathsDiffer(a: int, b: int)
    requires DomainPath(a) == DomainPath(b)
    ensures a == b
  {
    MiddleIsUnique(DOMAIN_PREFIX, PrintInt(a), PrintInt(b), LOCK_SUFFIX);
    PrintedIntIsParsed(a);
    PrintedIntIsParsed(b);
  }

  // ----- The lease objects of one process -----

  class FileTable {
    var files: Files

    constructor ()
      ensures files == map[]
    {
      files := map[];
    }

    /** Opens a lock file on a free descriptor and tries to lock it; a refused file is closed again. */
    method TryLock(h: Handle, path: string) returns (ok: bool)
      requires h !in files
      modifies this
      ensures ok <==> !IsLocked(old(files), path)
      ensures files == if ok then old(files)[h := File(path, true)] else old(files)
    {
      files := files[h := File(path, false)];
      OpenKeepsLocks(old(files), h, path);
      ok := !IsLocked(files, path);
      if ok {
        files := files[h := File(path, true)];
      } else {
        files := files - {h};
        assert files == old(files);
      }
    }
  }

  lemma OpenKeepsLocks(files: Files, h: Handle, path: string)
    requires h !in files
    ensures IsLocked(files[h := File(path, false)], path) <==> IsLocked(files, path)
  {
    var wider := files[h := File(path, false)];
    if g :| g in files && files[g] == File(path, true) {
      assert wider[g] == File(path, true);
    }
    if g :| g in wider && wider[g] == File(path, true) {
      assert files[g] == File(path, true);
    }
  }

  class Lease {
    const path: string
    const handle: Handle
    var released: bool

    constructor (path: string, handle: Handle)
      ensures this.path == path && this.handle == handle && !released
    {
      this.path, this.handle, released := path, handle, false;
    }

    /** Unlocks and closes once; a repeated release leaves every open file alone. */
    method Release(table: FileTable)
      requires !released ==> handle in table.files && table.files[handle] == File(path, true)
      modifies this, table
      ensures released
      ensures table.files == if old(released) then old(table.files) else old(table.files) - {handle}
    {
      if released {
        return;
      }
      table.files := table.files[handle := File(path, false)];
      table.files := table.files - {handle};
      released := true;
    }
  }

  datatype Acquired =
    | Leased(lease: Lease, domain: int)
    | Unavailable
    | BadRequest

  function Range(first: int, last: int): (domains: seq<int>)
    requires first <= last
    ensures |domains| == last - first + 1
    ensures forall i :: 0 <= i < |domains| ==> domains[i] == first + i
  {
    seq(last - first + 1, i requires 0 <= i < last - first + 1 => first + i)
  }

  function Candidates(first: int, last: int, preferred: Option<int>): seq<int>
    requires first <= last
  {
    match preferred
    case Some(domain) => [domain]
    case None => Range(first, last)
  }

  /** Candidate `i` is free, and every one before it is locked. */
  ghost predicate IsFirstFree(files: Files, paths: seq<string>, i: int) {
    0 <= i < |paths| && !IsLocked(files, paths[i]) && LockedBefore(files, paths, i)
  }

  ghost predicate LockedBefore(files: Files, paths: seq<string>, i: int) {
    forall j :: 0 <= j < i && j < |paths| ==> IsLocked(files, paths[j])
  }

  /** Tries the candidates in order and keeps the first lock it gets. */
  method LockFirst(table: FileTable, h: Handle, paths: seq<string>) returns (index: Option<nat>)
    requires h !in table.files
    modifies table
    ensures index.Some? ==>
              && IsFirstFree(old(table.files), paths, index.value)
              && table.files == old(table.files)[h := File(paths[index.value], true)]
    ensures index.None? ==> table.files == old(table.files) && LockedBefore(old(table.files), paths, |paths|)
  {
    for i := 0 to |paths|
      invariant table.files == old(table.files) && LockedBefore(old(table.files), paths, i)
    {
      var ok := table.TryLock(h, paths[i]);
      if ok {
        return Some(i);
      }
    }
    return None;
  }

  function DomainPaths(domains: seq<int>): (paths: seq<string>)
    ensures |paths| == |domains| && forall i :: 0 <= i < |paths| ==> paths[i] == DomainPath(domains[i])
  {
    seq(|domains|, i requires 0 <= i < |domains| => DomainPath(domains[i]))
  }

  /** The domains an acquisition may give: the preferred one alone, or any of the pool. */
  predicate IsWanted(first: int, last: int, preferred: Option<int>, domain: int) {
    match preferred
    case Some(wanted) => domain == wanted
    case None => first <= domain <= last
  }

  ghost predicate DomainIsLocked(files: Files, domain: int) {
    IsLocked(files, DomainPath(domain))
  }

  /** The candidates are exactly the wanted domains, in ascending order. */
  lemma CandidatesAreWanted(first: int, last: int, preferred: Option<int>)
    requires first <= last
    ensures var domains := Candidates(first, last, preferred);
            && (forall domain :: domain in domains <==> IsWanted(first, last, preferred, domain))
            && forall i, j :: 0 <= i < j < |domains| ==> domains[i] < domains[j]
  {
    var domains := Candidates(first, last, preferred);
    if preferred.None? {
      forall domain | first <= domain <= last
        ensures domain in domains
      {
        assert domains[domain - first] == domain;
      }
    }
  }

  /** The first free candidate is the smallest wanted domain that is not locked. */
  lemma FirstFreeIsSmallest(files: Files, first: int, last: int, preferred: Option<int>, i: nat)
    requires first <= last && IsFirstFree(files, DomainPaths(Candidates(first, last, preferred)), i)
    ensures var domain := Candidates(first, last, preferred)[i];
            && IsWanted(first, last, preferred, domain) && !DomainIsLocked(files, domain)
            && forall d :: IsWanted(first, last, preferred, d) && d < domain ==> DomainIsLocked(files, d)
  {
    var domains := Candidates(first, last, preferred);
    CandidatesAreWanted(first, last, preferred);
    assert domains[i] in domains;
    forall d | IsWanted(first, last, preferred, d) && d < domains[i]
      ensures DomainIsLocked(files, d)
    {
      var j :| 0 <= j < |domains| && domains[j] == d;
      assert j < i;
      assert IsLocked(files, DomainPaths(domains)[j]);
    }
  }

  lemma NoneFreeMeansAllLocked(files: Files, first: int, last: int, preferred: Option<int>)
    requires first <= last
    requires var domains := Candidates(first, last, preferred); LockedBefore(files, DomainPaths(domains), |domains|)
    ensures forall d :: IsWanted(first, last, preferred, d) ==> DomainIsLocked(files, d)
  {
    var domains := Candidates(first, last, preferred);
    CandidatesAreWanted(first, last, preferred);
    forall d | IsWanted(first, last, preferred, d)
      ensures DomainIsLocked(files, d)
    {
      var j :| 0 <= j < |domains| && domains[j] == d;
      assert IsLocked(files, DomainPaths(domains)[j]);
    }
  }

  /**
   The pool as one process sees it when nobody interferes. With a preferred domain, that one or
   nothing; otherwise the smallest free domain of the pool; unavailable only if every wanted domain
   is locked.
   */
  method AcquireDomain(table: FileTable, h: Handle, first: int, last: int, preferred: Option<int>)
    returns (result: Acquired)
    requires 0 <= first <= last <= 232 && h !in table.files
    modifies table
    ensures result.BadRequest? <==> preferred.Some? && !(0 <= preferred.value <= 232)
    ensures result.Leased? ==>
              && fresh(result.lease) && !result.lease.released && result.lease.handle == h
              && result.lease.path == DomainPath(result.domain)
              && table.files == old(table.files)[h := File(DomainPath(result.domain), true)]
    ensures result.Leased? ==>
              && (if preferred.Some? then result.domain == preferred.value else first <= result.domain <= last)
              && !DomainIsLocked(old(table.files), result.domain)
              && forall d :: IsWanted(first, last, preferred, d) && d < result.domain ==>
                   DomainIsLocked(old(table.files), d)
    ensures !result.Leased? ==> table.files == old(table.files)
    ensures !result.BadRequest? ==>
              (result.Unavailable? <==>
               forall d :: IsWanted(first, last, preferred, d) ==> DomainIsLocked(old(table.files), d))
  {
    if preferred.Some? && !(0 <= preferred.value <= 232) {
      return BadRequest;
    }
    var candidates := Candidates(first, last, preferred);
    var index := LockFirst(table, h, DomainPaths(candidates));
    if index.None? {
      NoneFreeMeansAllLocked(old(table.files), first, last, preferred);
      return Unavailable;
    }
    FirstFreeIsSmallest(old(table.files), first, last, preferred, index.value);
    var domain := candidates[index.value];
    var lease := new Lease(DomainPath(domain), h);
    return Leased(lease, domain);
  }

  /** One directory has one lock file: it is leased exactly when nobody holds that. */
  method AcquireDirectory(table: FileTable, h: Handle, digest: string -> string, target: string)
    returns (lease: Option<Lease>)
    requires h !in table.files
    modifies table
    ensures lease.Some? <==> !IsLocked(old(table.files), ArtifactPath(digest, target))
    ensures lease.Some? ==>
              && fresh(lease.value) && !lease.value.released && lease.value.handle == h
              && lease.value.path == ArtifactPath(digest, target)
              && table.files == old(table.files)[h := File(ArtifactPath(digest, target), true)]
    ensures lease.None? ==> table.files == old(table.files)
  {
    var path := ArtifactPath(digest, target);
    var ok := table.TryLock(h, path);
    if !ok {
      return None;
    }
    var held := new Lease(path, h);
    return Some(held);
  }

  // ----- Every interleaving -----

  /** A lease as some process remembers it. */
  datatype Held = Held(handle: Handle, path: string, released: bool)

  /** An acquire in progress: which candidate it tries next. */
  datatype Attempt = Attempt(pid: nat, paths: seq<string>, next: nat)

  datatype System = System(files: Files, leases: seq<Held>, attempts: map<nat, Attempt>)

  datatype Step =
    | Begin(id: nat, pid: nat, paths: seq<string>)
    | Try(id: nat, descriptor: nat)
    | Release(lease: nat)
    | OpenOther(handle: Handle, path: string)
    | CloseOther(handle: Handle)
    | Exit(pid: nat)

  predicate Live(s: System, k: int) {
    0 <= k < |s.leases| && !s.leases[k].released
  }

  ghost predicate IsLeased(s: System, path: string) {
    exists k :: Live(s, k) && s.leases[k].path == path
  }

  ghost predicate Enabled(s: System, step: Step) {
    match step
    case Begin(id, _, _) => id !in s.attempts
    case Try(id, descriptor) =>
      id in s.attempts && s.attempts[id].next < |s.attempts[id].paths| &&
      Handle(s.attempts[id].pid, descriptor) !in s.files
    case Release(k) => k < |s.leases|
    case OpenOther(h, _) => h !in s.files
    case CloseOther(h) => h in s.files && forall k :: Live(s, k) ==> s.leases[k].handle != h
    case Exit(_) => true
  }

  function Drop(leases: seq<Held>, pid: nat): (r: seq<Held>)
    ensures |r| == |leases|
    ensures forall k :: 0 <= k < |leases| ==>
              r[k] == leases[k].(released := leases[k].released || leases[k].handle.pid == pid)
  {
    seq(|leases|, k requires 0 <= k < |leases| =>
      leases[k].(released := leases[k].released || leases[k].handle.pid == pid))
  }

  function Tried(s: System, id: nat, descriptor: nat): System
    requires id in s.attempts && s.attempts[id].next < |s.attempts[id].paths|
  {
    var a := s.attempts[id];
    var h, path := Handle(a.pid, descriptor), a.paths[a.next];
    if IsLocked(s.files, path) then s.(attempts := s.attempts[id := a.(next := a.next + 1)])
    else System(s.files[h := File(path, true)], s.leases + [Held(h, path, false)], s.attempts - {id})
  }

  function Released(s: System, k: nat): System
    requires k < |s.leases|
  {
    var lease := s.leases[k];
    if lease.released then s
    else s.(files := s.files - {lease.handle}, leases := s.leases[k := lease.(released := true)])
  }

  ghost function Apply(s: System, step: Step): System
    requires Enabled(s, step)
  {
    match step
    case Begin(id, pid, paths) => s.(attempts := s.attempts[id := Attempt(pid, paths, 0)])
    case Try(id, descriptor) => Tried(s, id, descriptor)
    case Release(k) => Released(s, k)
    case OpenOther(h, path) => s.(files := s.files[h := File(path, false)])
    case CloseOther(h) => s.(files := s.files - {h})
    case Exit(pid) =>
      System(map h | h in s.files && h.pid != pid :: s.files[h], Drop(s.leases, pid),
             map id | id in s.attempts && s.attempts[id].pid != pid :: s.attempts[id])
  }

  /** Live leases and locked files correspond one to one, and a path is locked at most once. */
  ghost predicate Sound(s: System) {
    && (forall k :: Live(s, k) ==>
        s.leases[k].handle in s.files && s.files[s.leases[k].handle] == File(s.leases[k].path, true))
    && (forall k, l :: Live(s, k) && Live(s, l) && k != l ==> s.leases[k].handle != s.leases[l].handle)
    && (forall h :: h in s.files && s.files[h].locked ==> Owned(s, h))
    && (forall h, i :: h in s.files && i in s.files && s.files[h].locked && s.files[i].locked && h != i ==>
          s.files[h].path != s.files[i].path)
  }

  ghost predicate Owned(s: System, h: Handle) {
    exists k :: Live(s, k) && s.leases[k].handle == h
  }

  const INITIAL := System(map[], [], map[])

  ghost predicate IsRun(states: seq<System>, steps: seq<Step>) {
    && |states| == |steps| + 1 && states[0] == INITIAL
    && forall t :: 0 <= t < |steps| ==> Enabled(states[t], steps[t]) && states[t + 1] == Apply(states[t], steps[t])
  }

  lemma TryKeepsSound(s: System, id: nat, descriptor: nat)
    requires Sound(s) && Enabled(s, Try(id, descriptor))
    ensures Sound(Tried(s, id, descriptor))
  {
    var s' := Tried(s, id, descriptor);
    var a := s.attempts[id];
    var h, path := Handle(a.pid, descriptor), a.paths[a.next];
    if IsLocked(s.files, path) {
      assert forall g :: Owned(s, g) ==> Owned(s', g) by {
        forall g | Owned(s, g)
          ensures Owned(s', g)
        {
          var k :| Live(s, k) && s.leases[k].handle == g;
          assert Live(s', k);
        }
      }
      assert forall k :: Live(s', k) ==> Live(s, k);
    } else {
      assert forall k :: Live(s', k) ==> Live(s, k) || k == |s.leases|;
      forall g | g in s'.files && s'.files[g].locked
        ensures Owned(s', g)
      {
        if g == h {
          assert Live(s', |s.leases|);
        } else {
          var k :| Live(s, k) && s.leases[k].handle == g;
          assert Live(s', k);
        }
      }
    }
  }

  lemma ReleaseKeepsSound(s: System, k: nat)
    requires Sound(s) && k < |s.leases|
    ensures Sound(Released(s, k))
  {
    var s' := Released(s, k);
    if !s.leases[k].released {
      assert Live(s, k);
      assert forall l :: Live(s', l) ==> Live(s, l) && l != k;
      forall g | g in s'.files && s'.files[g].locked
        ensures Owned(s', g)
      {
        var l :| Live(s, l) && s.leases[l].handle == g;
        assert Live(s', l);
      }
    }
  }

  lemma OthersKeepSound(s: System, step: Step)
    requires Sound(s) && Enabled(s, step) && (step.Begin? || step.OpenOther? || step.CloseOther?)
    ensures Sound(Apply(s, step))
  {
    var s' := Apply(s, step);
    assert forall k :: Live(s', k) <==> Live(s, k);
    forall g | g in s'.files && s'.files[g].locked
      ensures Owned(s', g)
    {
      assert g in s.files && s.files[g].locked;
      var k :| Live(s, k) && s.leases[k].handle == g;
      assert Live(s', k);
    }
  }

  lemma ExitKeepsSound(s: System, pid: nat)
    requires Sound(s)
    ensures Sound(Apply(s, Exit(pid)))
  {
    var s' := Apply(s, Exit(pid));
    assert forall k :: Live(s', k) ==> Live(s, k) && s.leases[k].handle.pid != pid;
    forall g | g in s'.files && s'.files[g].locked
      ensures Owned(s', g)
    {
      var k :| Live(s, k) && s.leases[k].handle == g;
      assert Live(s', k);
    }
  }

  lemma StepKeepsSound(s: System, step: Step)
    requires Sound(s) && Enabled(s, step)
    ensures Sound(Apply(s, step))
  {
    match step
    case Try(id, descriptor) => TryKeepsSound(s, id, descriptor);
    case Release(k) => ReleaseKeepsSound(s, k);
    case Exit(pid) => ExitKeepsSound(s, pid);
    case Begin(_, _, _) => OthersKeepSound(s, step);
    case OpenOther(_, _) => OthersKeepSound(s, step);
    case CloseOther(_) => OthersKeepSound(s, step);
  }

  lemma {:induction false} RunIsSound(states: seq<System>, steps: seq<Step>, t: nat)
    requires IsRun(states, steps) && t < |states|
    ensures Sound(states[t])
  {
    if t > 0 {
      RunIsSound(states, steps, t - 1);
      StepKeepsSound(states[t - 1], steps[t - 1]);
    }
  }

  /** At no moment of any run do two live leases hold the same lock file. */
  lemma LeasesNeverShare(states: seq<System>, steps: seq<Step>, t: nat, k: nat, l: nat)
    requires IsRun(states, steps) && t < |states| && k != l && Live(states[t], k) && Live(states[t], l)
    ensures states[t].leases[k].path != states[t].leases[l].path
  {
    RunIsSound(states, steps, t);
  }

  /** So no two live leases share a ROS domain. */
  lemma DomainsNeverShare(states: seq<System>, steps: seq<Step>, t: nat, k: nat, l: nat, a: int, b: int)
    requires IsRun(states, steps) && t < |states| && k != l && Live(states[t], k) && Live(states[t], l)
    requires states[t].leases[k].path == DomainPath(a) && states[t].leases[l].path == DomainPath(b)
    ensures a != b
  {
    LeasesNeverShare(states, steps, t, k, l);
  }

  /** Nor an artifact directory, whatever the digest. */
  lemma DirectoriesNeverShare(
    states: seq<System>, steps: seq<Step>, t: nat, k: nat, l: nat, digest: string -> string, a: string, b: string)
    requires IsRun(states, steps) && t < |states| && k != l && Live(states[t], k) && Live(states[t], l)
    requires states[t].leases[k].path == ArtifactPath(digest, a) && states[t].leases[l].path == ArtifactPath(digest, b)
    ensures a != b
  {
    LeasesNeverShare(states, steps, t, k, l);
  }

  /** A release, first or repeated, leaves every other live lease and its open file as they were. */
  lemma ReleaseTouchesOnlyItsOwn(states: seq<System>, steps: seq<Step>, t: nat, k: nat, l: nat)
    requires IsRun(states, steps) && t < |steps| && steps[t] == Release(k) && l != k && Live(states[t], l)
    ensures Live(states[t + 1], l) && states[t + 1].leases[l] == states[t].leases[l]
    ensures var h := states[t].leases[l].handle;
            h in states[t].files && h in states[t + 1].files && states[t + 1].files[h] == states[t].files[h]
    ensures states[t].leases[k].released ==> states[t + 1] == states[t]
  {
    RunIsSound(states, steps, t);
    if !states[t].leases[k].released {
      assert Live(states[t], k);
    }
  }

  /** Whatever the lock refused was leased at that moment. */
  lemma LockedMeansLeased(s: System, path: string)
    requires Sound(s) && IsLocked(s.files, path)
    ensures IsLeased(s, path)
  {
    var h :| h in s.files && s.files[h] == File(path, true);
    var k :| Live(s, k) && s.leases[k].handle == h;
  }

  /** At moment `u` the attempt tried its candidate `i`, and that was leased. */
  ghost predicate FoundLeased(states: seq<System>, steps: seq<Step>, u: nat, id: nat, i: nat, path: string) {
    && u < |steps| && u < |states| && steps[u].Try? && steps[u].id == id
    && id in states[u].attempts && states[u].attempts[id].next == i
    && i < |states[u].attempts[id].paths| && states[u].attempts[id].paths[i] == path
    && IsLeased(states[u], path)
  }

  /** The attempt that tried its candidate `i` at moment `u` is still the one in progress at `t`. */
  ghost predicate SameAttempt(states: seq<System>, u: nat, t: nat, id: nat, i: nat) {
    forall v :: u < v <= t && v < |states| ==> id in states[v].attempts && states[v].attempts[id].next > i
  }

  /** One step starts an attempt, leaves it alone, or is its try of a candidate that is leased. */
  lemma AttemptMoves(s: System, step: Step, id: nat)
    requires Sound(s) && Enabled(s, step) && id in Apply(s, step).attempts
    ensures var a := Apply(s, step).attempts[id];
            || a.next == 0
            || (id in s.attempts && a == s.attempts[id])
            || (&& step.Try? && step.id == id
                && id in s.attempts && a.paths == s.attempts[id].paths && a.next == s.attempts[id].next + 1
                && s.attempts[id].next < |a.paths| && IsLeased(s, a.paths[s.attempts[id].next]))
  {
    if step.Try? && step.id == id {
      var a := s.attempts[id];
      if IsLocked(s.files, a.paths[a.next]) {
        LockedMeansLeased(s, a.paths[a.next]);
      }
    }
  }

  /** How an attempt that is past some candidate stood one step before. */
  lemma AttemptCameFrom(states: seq<System>, steps: seq<Step>, t: nat, id: nat)
    requires IsRun(states, steps) && 0 < t < |states| && id in states[t].attempts && states[t].attempts[id].next > 0
    ensures id in states[t - 1].attempts && states[t].attempts[id].paths == states[t - 1].attempts[id].paths
    ensures var n := states[t - 1].attempts[id].next;
            || states[t].attempts[id].next == n
            || (&& states[t].attempts[id].next == n + 1 && n < |states[t].attempts[id].paths|
                && FoundLeased(states, steps, t - 1, id, n, states[t].attempts[id].paths[n]))
  {
    RunIsSound(states, steps, t - 1);
    AttemptMoves(states[t - 1], steps[t - 1], id);
  }

  /** An attempt gets past a candidate only at its own try of it, and only if it is leased right then. */
  lemma {:induction false} RefusedCandidatesWereLeased(states: seq<System>, steps: seq<Step>, t: nat, id: nat, i: nat)
    requires IsRun(states, steps) && t < |states| && id in states[t].attempts
    requires i < states[t].attempts[id].next && i < |states[t].attempts[id].paths|
    ensures exists u :: 0 <= u < t && SameAttempt(states, u, t, id, i) &&
                        FoundLeased(states, steps, u, id, i, states[t].attempts[id].paths[i])
  {
    if t > 0 {
      var path := states[t].attempts[id].paths[i];
      AttemptCameFrom(states, steps, t, id);
      if i < states[t - 1].attempts[id].next {
        RefusedCandidatesWereLeased(states, steps, t - 1, id, i);
        var u :| 0 <= u < t - 1 && SameAttempt(states, u, t - 1, id, i) && FoundLeased(states, steps, u, id, i, path);
        StillSameAttempt(states, u, t, id, i);
      } else {
        assert FoundLeased(states, steps, t - 1, id, i, path);
        StillSameAttempt(states, t - 1, t, id, i);
      }
    }
  }

  lemma StillSameAttempt(states: seq<System>, u: nat, t: nat, id: nat, i: nat)
    requires u < t < |states| && SameAttempt(states, u, t - 1, id, i)
    requires id in states[t].attempts && states[t].attempts[id].next > i
    ensures SameAttempt(states, u, t, id, i)
  {
  }

  /** A live lease of this domain, and of no other. */
  ghost predicate HoldsDomain(s: System, k: int, domain: int) {
    Live(s, k) && forall d :: s.leases[k].path == DomainPath(d) <==> d == domain
  }

  /** At moment `u` the attempt tried this domain, and a live lease held it. */
  ghost predicate FoundHeld(states: seq<System>, steps: seq<Step>, u: nat, id: nat, i: nat, domain: int) {
    && FoundLeased(states, steps, u, id, i, DomainPath(domain))
    && exists k :: HoldsDomain(states[u], k, domain)
  }

  lemma LeasedDomainIsHeld(s: System, domain: int)
    requires IsLeased(s, DomainPath(domain))
    ensures exists k :: HoldsDomain(s, k, domain)
  {
    var k :| Live(s, k) && s.leases[k].path == DomainPath(domain);
    forall d | s.leases[k].path == DomainPath(d)
      ensures d == domain
    {
      DomainPathsDiffer(d, domain);
    }
    assert HoldsDomain(s, k, domain);
  }

  /**
   An acquisition that has run out of candidates found each of its domains held, by a live lease of
   that very domain, at the moment it tried it.
   */
  lemma ExhaustedMeansAllHeld(
    states: seq<System>, steps: seq<Step>, t: nat, id: nat, first: int, last: int, preferred: Option<int>, domain: int)
    requires IsRun(states, steps) && t < |states| && id in states[t].attempts && first <= last
    requires states[t].attempts[id].paths == DomainPaths(Candidates(first, last, preferred))
    requires states[t].attempts[id].next == |states[t].attempts[id].paths|
    requires IsWanted(first, last, preferred, domain)
    ensures exists u, i :: 0 <= u < t && SameAttempt(states, u, t, id, i) && FoundHeld(states, steps, u, id, i, domain)
  {
    var domains := Candidates(first, last, preferred);
    CandidatesAreWanted(first, last, preferred);
    var i :| 0 <= i < |domains| && domains[i] == domain;
    RefusedCandidatesWereLeased(states, steps, t, id, i);
    var u :| 0 <= u < t && SameAttempt(states, u, t, id, i) && FoundLeased(states, steps, u, id, i, DomainPath(domain));
    LeasedDomainIsHeld(states[u], domain);
    assert FoundHeld(states, steps, u, id, i, domain);
  }

  // ----- What can happen -----

  /** The steps can be taken one after the other from `s`, and end in `end`. */
  ghost predicate Leads(s: System, steps: seq<Step>, end: System)
    decreases |steps|
  {
    if steps == [] then end == s
    else Enabled(s, steps[0]) && Leads(Apply(s, steps[0]), steps[1..], end)
  }

  /** How an acquisition ends that nobody interferes with: as the first free candidate, or past them all. */
  ghost predicate EndsAlone(s: System, end: System, id: nat, h: Handle, paths: seq<string>) {
    || (exists i :: IsFirstFree(s.files, paths, i) && end.files == s.files[h := File(paths[i], true)]
                    && end.leases == s.leases + [Held(h, paths[i], false)] && end.attempts == s.attempts - {id})
    || (LockedBefore(s.files, paths, |paths|) && end.files == s.files && end.leases == s.leases
        && end.attempts == s.attempts[id := Attempt(h.pid, paths, |paths|)])
  }

  lemma {:induction false} TriesAlone(s: System, id: nat, descriptor: nat) returns (steps: seq<Step>, end: System)
    requires id in s.attempts && Handle(s.attempts[id].pid, descriptor) !in s.files
    requires var a := s.attempts[id]; a.next <= |a.paths| && LockedBefore(s.files, a.paths, a.next)
    ensures Leads(s, steps, end)
    ensures EndsAlone(s, end, id, Handle(s.attempts[id].pid, descriptor), s.attempts[id].paths)
    decreases |s.attempts[id].paths| - s.attempts[id].next
  {
    var a := s.attempts[id];
    if a.next == |a.paths| {
      return [], s;
    }
    var s' := Tried(s, id, descriptor);
    if IsLocked(s.files, a.paths[a.next]) {
      var rest, last := TriesAlone(s', id, descriptor);
      steps, end := [Try(id, descriptor)] + rest, last;
      assert steps[1..] == rest;
    } else {
      assert IsFirstFree(s.files, a.paths, a.next);
      steps, end := [Try(id, descriptor)], s';
      assert Leads(s', [], s');
    }
  }

  /** From every state an acquisition can be begun and tried to its end, which is that of `LockFirst`. */
  lemma AcquisitionCanFinish(s: System, id: nat, h: Handle, paths: seq<string>)
    requires id !in s.attempts && h !in s.files
    ensures exists steps, end :: Leads(s, steps, end) && EndsAlone(s, end, id, h, paths)
  {
    var begun := Apply(s, Begin(id, h.pid, paths));
    var rest, end := TriesAlone(begun, id, h.descriptor);
    var steps := [Begin(id, h.pid, paths)] + rest;
    assert steps[1..] == rest;
    assert Leads(s, steps, end);
    assert begun.attempts - {id} == s.attempts - {id};
  }

  /** A process that ends loses its files, leases and attempts, and nobody else loses anything. */
  lemma ExitTakesOnlyItsOwn(s: System, pid: nat)
    ensures Enabled(s, Exit(pid))
    ensures var s' := Apply(s, Exit(pid));
            && (forall h :: h in s'.files <==> h in s.files && h.pid != pid)
            && (forall h :: h in s'.files ==> s'.files[h] == s.files[h])
            && (forall k :: Live(s', k) <==> Live(s, k) && s.leases[k].handle.pid != pid)
            && (forall k :: Live(s', k) ==> s'.leases[k] == s.leases[k])
            && (forall id :: id in s'.attempts <==> id in s.attempts && s.attempts[id].pid != pid)
            && (forall id :: id in s'.attempts ==> s'.attempts[id] == s.attempts[id])
  {
  }

  /** So what a crashed owner held can be leased again. */
  lemma CrashFreesLease(s: System, k: nat)
    requires Sound(s) && Live(s, k)
    ensures !IsLocked(Apply(s, Exit(s.leases[k].handle.pid)).files, s.leases[k].path)
  {
  }

  /** A released lease leaves its path free, and it was locked before. */
  lemma ReleaseFreesLease(s: System, k: nat)
    requires Sound(s) && Live(s, k)
    ensures Enabled(s, Release(k))
    ensures IsLocked(s.files, s.leases[k].path) && !IsLocked(Apply(s, Release(k)).files, s.leases[k].path)
  {
  }

  /** A foreign file on the same path can be opened and closed again, and takes nothing with it. */
  lemma OtherFileComesAndGoes(s: System, h: Handle, path: string)
    requires Sound(s) && h !in s.files
    ensures Enabled(s, OpenOther(h, path))
    ensures var open := Apply(s, OpenOther(h, path));
            Enabled(open, CloseOther(h)) && Apply(open, CloseOther(h)) == s
  {
    var open := Apply(s, OpenOther(h, path));
    assert forall k :: Live(open, k) <==> Live(s, k);
    assert open.files - {h} == s.files;
  }
}
