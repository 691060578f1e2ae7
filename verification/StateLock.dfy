/**
 The daemon state lock: open-or-create, flock on the inode, re-stat of the path, and
 compare-then-unlink on release, for any number of processes interleaved one system call at a
 time. A crash, or an error return, closes the descriptor and so frees its lock.
 */
module StateLock {
  import opened Wrappers

  type Pid = nat
  type Inode = nat

  const ACQUIRE_ATTEMPTS: nat := 4

  datatype Process =
    | Out                                   // not in the protocol, or ended
    | Opening(attempt: nat)
    | Opened(attempt: nat, inode: Inode)
    | Locked(attempt: nat, inode: Inode)
    | Stale(attempt: nat, inode: Inode)     // locked a file the path no longer names
    | Recording(inode: Inode)               // checked; writing the owner record
    | Owning(inode: Inode)                  // acquire has returned Ok
    | Releasing(inode: Inode)               // drop has begun
    | Unlinking(inode: Inode)               // drop compared the path and is about to remove it
    | Unlocking(inode: Inode)
  {
    predicate HasFile() {
      !Out? && !Opening?
    }

    predicate HoldsLock() {
      HasFile() && !Opened?
    }

    /** From the check of the path to the removal of the file. */
    predicate InCharge() {
      Recording? || Owning? || Releasing? || Unlinking?
    }

    predicate Acquires() {
      Opening? || Opened? || Locked? || Stale?
    }
  }

  /** An unlink: who made it, and what the path named at that moment. */
  datatype Removal = Removal(pid: Pid, file: Option<Inode>)

  /** `removals` lists the unlinks; `since[p]` is how many there were when `p` last began to acquire. */
  datatype System = System(
    path: Option<Inode>,
    lockedBy: map<Inode, Pid>,
    processes: map<Pid, Process>,
    removals: seq<Removal>,
    since: map<Pid, nat>)

  datatype Action =
    | Start(pid: Pid)
    | Open(pid: Pid, inode: Inode)
    | Flock(pid: Pid)
    | Refuse(pid: Pid)
    | Restat(pid: Pid)
    | Close(pid: Pid)
    | GiveUp(pid: Pid)
    | Record(pid: Pid)
    | Drop(pid: Pid)
    | Compare(pid: Pid)
    | Unlink(pid: Pid)
    | UnlinkFails(pid: Pid)
    | Unlock(pid: Pid)
    | Crash(pid: Pid)

  const INITIAL := System(None, map[], map[], [], map[])

  function ProcessOf(sys: System, pid: Pid): Process {
    if pid in sys.processes then sys.processes[pid] else Out
  }

  function Since(sys: System, pid: Pid): nat {
    if pid in sys.since then sys.since[pid] else 0
  }

  /** No descriptor refers to the inode, so the filesystem may hand it out. */
  predicate Unused(sys: System, inode: Inode) {
    forall pid | pid in sys.processes ::
      sys.processes[pid].HasFile() ==> sys.processes[pid].inode != inode
  }

  predicate Enabled(sys: System, action: Action) {
    var p := ProcessOf(sys, action.pid);
    match action
    case Start(_) => p.Out?
    case Open(_, inode) =>
      && p.Opening? && p.attempt < ACQUIRE_ATTEMPTS
      && (sys.path == Some(inode) || (sys.path.None? && Unused(sys, inode)))
    case Flock(_) => p.Opened? && p.inode !in sys.lockedBy
    case Refuse(_) => p.Opened? && p.inode in sys.lockedBy
    case Restat(_) => p.Locked?
    case Close(_) => p.Stale?
    case GiveUp(_) => p.Opening? && p.attempt >= ACQUIRE_ATTEMPTS
    case Record(_) => p.Recording?
    case Drop(_) => p.Owning?
    case Compare(_) => p.Releasing?
    case Unlink(_) => p.Unlinking?
    case UnlinkFails(_) => p.Unlinking?
    case Unlock(_) => p.Unlocking?
    case Crash(_) => !p.Out?
  }

  function WithProcess(sys: System, pid: Pid, process: Process): System {
    sys.(processes := sys.processes[pid := process])
  }

  /** Closing the descriptor of `pid` frees the lock it holds, if any. */
  function Closed(sys: System, pid: Pid, process: Process): System {
    var p := ProcessOf(sys, pid);
    WithProcess(sys, pid, process).(lockedBy := if p.HoldsLock() then sys.lockedBy - {p.inode} else sys.lockedBy)
  }

  function Apply(sys: System, action: Action): System
    requires Enabled(sys, action)
  {
    var pid := action.pid;
    var p := ProcessOf(sys, pid);
    match action
    case Start(_) => WithProcess(sys, pid, Opening(0)).(since := sys.since[pid := |sys.removals|])
    case Open(_, inode) => WithProcess(sys, pid, Opened(p.attempt, inode)).(path := Some(inode))
    case Flock(_) => WithProcess(sys, pid, Locked(p.attempt, p.inode)).(lockedBy := sys.lockedBy[p.inode := pid])
    case Refuse(_) => Closed(sys, pid, Out)
    case Restat(_) =>
      WithProcess(sys, pid, if sys.path == Some(p.inode) then Recording(p.inode) else Stale(p.attempt, p.inode))
    case Close(_) => Closed(sys, pid, Opening(p.attempt + 1))
    case GiveUp(_) => WithProcess(sys, pid, Out)
    case Record(_) => WithProcess(sys, pid, Owning(p.inode))
    case Drop(_) => WithProcess(sys, pid, Releasing(p.inode))
    case Compare(_) =>
      WithProcess(sys, pid, if sys.path == Some(p.inode) then Unlinking(p.inode) else Unlocking(p.inode))
    case Unlink(_) =>
      // remove_file acts on whatever the path names at this moment.
      WithProcess(sys, pid, Unlocking(p.inode)).(path := None, removals := sys.removals + [Removal(pid, sys.path)])
    case UnlinkFails(_) => WithProcess(sys, pid, Unlocking(p.inode))
    case Unlock(_) => Closed(sys, pid, Out)
    case Crash(_) => Closed(sys, pid, Out)
  }

  ghost predicate RunsTo(sys: System, run: seq<Action>, sys': System)
    decreases |run|
  {
    if run == [] then sys == sys'
    else Enabled(sys, run[0]) && RunsTo(Apply(sys, run[0]), run[1..], sys')
  }

  ghost predicate Reachable(sys: System) {
    exists run :: RunsTo(INITIAL, run, sys)
  }

  // ---------------------------------------------------------------- invariant

  ghost predicate LocksMatch(sys: System) {
    && (forall inode | inode in sys.lockedBy ::
          var p := ProcessOf(sys, sys.lockedBy[inode]);
          p.HoldsLock() && p.inode == inode)
    && (forall pid | pid in sys.processes && sys.processes[pid].HoldsLock() ::
          sys.processes[pid].inode in sys.lockedBy && sys.lockedBy[sys.processes[pid].inode] == pid)
  }

  ghost predicate PathMatches(sys: System) {
    forall pid | pid in sys.processes && sys.processes[pid].InCharge() ::
      sys.path == Some(sys.processes[pid].inode)
  }

  /** Every attempt a process has used up is paid for by a removal since it began. */
  predicate Charged(sys: System, pid: Pid, p: Process) {
    p.Acquires() ==>
      && p.attempt <= ACQUIRE_ATTEMPTS
      && Since(sys, pid) + p.attempt <= |sys.removals|
      && ((p.Opened? || p.Locked?) && sys.path != Some(p.inode) ==> Since(sys, pid) + p.attempt < |sys.removals|)
      && (p.Stale? ==> Since(sys, pid) + p.attempt < |sys.removals|)
      && (!p.Opening? ==> p.attempt < ACQUIRE_ATTEMPTS)
  }

  ghost predicate Inv(sys: System) {
    && LocksMatch(sys)
    && PathMatches(sys)
    && (forall pid | pid in sys.processes :: Charged(sys, pid, sys.processes[pid]))
  }

  /** At most one process is in charge, because each holds the lock of the file at the path. */
  lemma OneInCharge(sys: System, p: Pid, q: Pid)
    requires LocksMatch(sys) && PathMatches(sys)
    requires ProcessOf(sys, p).InCharge() && ProcessOf(sys, q).InCharge()
    ensures p == q
  {
  }

  lemma ClosedKeepsLocks(sys: System, pid: Pid, process: Process)
    requires LocksMatch(sys) && !process.HoldsLock()
    ensures LocksMatch(Closed(sys, pid, process))
  {
  }

  lemma SameLockKept(sys: System, sys': System, pid: Pid, process: Process)
    requires LocksMatch(sys) && sys'.lockedBy == sys.lockedBy && sys'.processes == sys.processes[pid := process]
    requires var p := ProcessOf(sys, pid);
      process.HoldsLock() == p.HoldsLock() && (p.HoldsLock() ==> process.inode == p.inode)
    ensures LocksMatch(sys')
  {
  }

  lemma LocksPreserved(sys: System, action: Action)
    requires LocksMatch(sys) && Enabled(sys, action)
    ensures LocksMatch(Apply(sys, action))
  {
    var pid, sys' := action.pid, Apply(sys, action);
    if action.Refuse? || action.Close? || action.Unlock? || action.Crash? {
      ClosedKeepsLocks(sys, pid, ProcessOf(sys', pid));
    } else if !action.Flock? {
      SameLockKept(sys, sys', pid, ProcessOf(sys', pid));
    }
  }

  lemma PathPreserved(sys: System, action: Action)
    requires LocksMatch(sys) && PathMatches(sys) && Enabled(sys, action)
    ensures PathMatches(Apply(sys, action))
  {
    var sys' := Apply(sys, action);
    forall pid | pid in sys'.processes && sys'.processes[pid].InCharge()
      ensures sys'.path == Some(sys'.processes[pid].inode)
    {
      if action.Unlink? { OneInCharge(sys, pid, action.pid); }
    }
  }

  lemma ChargePreserved(sys: System, action: Action, pid: Pid)
    requires Charged(sys, pid, ProcessOf(sys, pid)) && Enabled(sys, action)
    ensures Charged(Apply(sys, action), pid, ProcessOf(Apply(sys, action), pid))
  {
  }

  lemma StepPreservesInv(sys: System, action: Action)
    requires Inv(sys) && Enabled(sys, action)
    ensures Inv(Apply(sys, action))
  {
    LocksPreserved(sys, action);
    PathPreserved(sys, action);
    forall pid | pid in Apply(sys, action).processes { ChargePreserved(sys, action, pid); }
  }

  lemma {:induction false} RunPreservesInv(sys: System, run: seq<Action>, sys': System)
    requires Inv(sys) && RunsTo(sys, run, sys')
    ensures Inv(sys')
    decreases |run|
  {
    if run != [] {
      StepPreservesInv(sys, run[0]);
      RunPreservesInv(Apply(sys, run[0]), run[1..], sys');
    }
  }

  lemma ReachableInv(sys: System)
    requires Reachable(sys)
    ensures Inv(sys)
  {
    var run :| RunsTo(INITIAL, run, sys);
    RunPreservesInv(INITIAL, run, sys);
  }

  // ------------------------------------------------------------------ exclusion

  /** At most one daemon is ever between the check that completes its acquire and the removal of the
      lock file in its drop. */
  lemma DaemonExclusion(sys: System, p: Pid, q: Pid)
    requires Reachable(sys)
    requires ProcessOf(sys, p).InCharge() && ProcessOf(sys, q).InCharge()
    ensures p == q
  {
    ReachableInv(sys);
    OneInCharge(sys, p, q);
  }

  lemma Step(sys: System, action: Action) returns (sys': System)
    requires Reachable(sys) && Enabled(sys, action)
    ensures sys' == Apply(sys, action) && Reachable(sys')
  {
    var run :| RunsTo(INITIAL, run, sys);
    assert RunsTo(sys, [action], Apply(sys, action));
    RunAppend(INITIAL, run, sys, [action], Apply(sys, action));
    sys' := Apply(sys, action);
  }

  lemma Release(sys: System, pid: Pid) returns (sys': System)
    requires Reachable(sys) && ProcessOf(sys, pid).Owning?
    ensures Reachable(sys') && ProcessOf(sys', pid).Unlocking? && sys'.path.None?
    ensures forall other | other != pid :: ProcessOf(sys', other) == ProcessOf(sys, other)
  {
    ReachableInv(sys);
    var s1 := Step(sys, Drop(pid));
    var s2 := Step(s1, Compare(pid));
    assert ProcessOf(s2, pid).Unlinking?;
    sys' := Step(s2, Unlink(pid));
  }

  lemma AcquireAbsent(sys: System, pid: Pid) returns (sys': System)
    requires Reachable(sys) && ProcessOf(sys, pid).Out? && sys.path.None?
    ensures Reachable(sys') && ProcessOf(sys', pid).Owning?
    ensures forall other | other != pid :: ProcessOf(sys', other) == ProcessOf(sys, other)
  {
    var s2, inode := OpenAbsent(sys, pid);
    var s3 := Step(s2, Flock(pid));
    var s4 := Step(s3, Restat(pid));
    assert ProcessOf(s4, pid) == Recording(inode);
    sys' := Step(s4, Record(pid));
  }

  lemma OpenAbsent(sys: System, pid: Pid) returns (sys': System, inode: Inode)
    requires Reachable(sys) && ProcessOf(sys, pid).Out? && sys.path.None?
    ensures Reachable(sys') && ProcessOf(sys', pid) == Opened(0, inode)
    ensures sys'.path == Some(inode) && inode !in sys'.lockedBy
    ensures forall other | other != pid :: ProcessOf(sys', other) == ProcessOf(sys, other)
  {
    ReachableInv(sys);
    inode := PickUnused(sys);
    var s1 := Step(sys, Start(pid));
    sys' := Step(s1, Open(pid, inode));
  }

  /** That is as far as it goes: the next daemon may own the lock while the last still has its
      descriptor to unlock. */
  lemma NextOwnsBeforeUnlock(p: Pid, q: Pid) returns (sys: System)
    requires p != q
    ensures Reachable(sys) && ProcessOf(sys, p).Unlocking? && ProcessOf(sys, q).Owning?
  {
    assert RunsTo(INITIAL, [], INITIAL);
    var first := AcquireAbsent(INITIAL, p);
    var released := Release(first, p);
    sys := AcquireAbsent(released, q);
  }

  /** A release removes only the file this daemon locked, and never while another is in charge. */
  lemma ReleaseRemovesOwnFile(sys: System, pid: Pid)
    requires Reachable(sys) && Enabled(sys, Unlink(pid))
    ensures var inode := ProcessOf(sys, pid).inode;
            && sys.path == Some(inode)
            && inode in sys.lockedBy && sys.lockedBy[inode] == pid
    ensures forall other | ProcessOf(sys, other).InCharge() :: other == pid
  {
    ReachableInv(sys);
    forall other | ProcessOf(sys, other).InCharge() ensures other == pid { OneInCharge(sys, other, pid); }
  }

  /** A daemon in charge stays in charge, on the same file, whatever the others do. */
  lemma {:induction false} InChargeIsStable(sys: System, run: seq<Action>, sys': System, pid: Pid)
    requires Inv(sys) && RunsTo(sys, run, sys') && ProcessOf(sys, pid).InCharge()
    requires forall k | 0 <= k < |run| :: run[k].pid != pid
    ensures ProcessOf(sys', pid) == ProcessOf(sys, pid)
    ensures sys'.path == Some(ProcessOf(sys, pid).inode)
    ensures forall other | ProcessOf(sys', other).InCharge() :: other == pid
    decreases |run|
  {
    if run == [] {
      forall other | ProcessOf(sys, other).InCharge() ensures other == pid { OneInCharge(sys, other, pid); }
    } else {
      StepPreservesInv(sys, run[0]);
      InChargeIsStable(Apply(sys, run[0]), run[1..], sys', pid);
    }
  }

  /** Running out of attempts means that as many lock files were removed during the call. */
  lemma GivingUpNeedsRemovals(sys: System, pid: Pid)
    requires Reachable(sys) && Enabled(sys, GiveUp(pid))
    ensures |sys.removals| - Since(sys, pid) >= ACQUIRE_ATTEMPTS
  {
    ReachableInv(sys);
    assert Charged(sys, pid, sys.processes[pid]);
  }

  /** A refusal means another process has this very file locked. */
  lemma RefusalNamesALocker(sys: System, pid: Pid)
    requires Reachable(sys) && Enabled(sys, Refuse(pid))
    ensures exists other | other != pid && other in sys.processes ::
      ProcessOf(sys, other).HoldsLock() && ProcessOf(sys, other).inode == ProcessOf(sys, pid).inode
  {
    ReachableInv(sys);
    var other := sys.lockedBy[ProcessOf(sys, pid).inode];
    assert ProcessOf(sys, other).HoldsLock();
  }

  // ---------------------------------------------------------------- termination

  /** System calls a process still makes before its acquire returns. */
  function CallsLeft(p: Process): int {
    match p
    case Opening(attempt) => 4 * (ACQUIRE_ATTEMPTS - attempt) + 1
    case Opened(attempt, _) => 4 * (ACQUIRE_ATTEMPTS - attempt)
    case Locked(attempt, _) => 4 * (ACQUIRE_ATTEMPTS - attempt) - 1
    case Stale(attempt, _) => 4 * (ACQUIRE_ATTEMPTS - attempt) - 2
    case Recording(_) => 1
    case _ => 0
  }

  predicate InCall(p: Process) {
    p.Acquires() || p.Recording?
  }

  lemma PickUnused(sys: System) returns (inode: Inode)
    ensures Unused(sys, inode)
  {
    var used := set pid | pid in sys.processes && sys.processes[pid].HasFile() :: sys.processes[pid].inode;
    inode := Above(used);
    forall pid | pid in sys.processes && sys.processes[pid].HasFile() ensures sys.processes[pid].inode < inode {
      assert sys.processes[pid].inode in used;
    }
  }

  lemma Above(used: set<nat>) returns (bound: nat)
    ensures forall n | n in used :: n < bound
  {
    if used == {} {
      bound := 0;
    } else {
      var n :| n in used;
      var rest := Above(used - {n});
      assert forall m | m in used :: m == n || m in used - {n};
      bound := if rest > n then rest else n + 1;
    }
  }

  lemma CallsShrink(sys: System, pid: Pid, action: Action)
    requires Inv(sys) && InCall(ProcessOf(sys, pid)) && action.pid == pid && Enabled(sys, action)
    ensures 0 <= CallsLeft(ProcessOf(Apply(sys, action), pid)) < CallsLeft(ProcessOf(sys, pid))
  {
    assert Charged(sys, pid, ProcessOf(sys, pid));
  }

  lemma CallsBounded(sys: System, pid: Pid)
    requires Inv(sys) && InCall(ProcessOf(sys, pid))
    ensures CallsLeft(ProcessOf(sys, pid)) <= 4 * ACQUIRE_ATTEMPTS + 1
  {
    assert Charged(sys, pid, ProcessOf(sys, pid));
  }

  lemma NextCall(sys: System, pid: Pid) returns (action: Action)
    requires Inv(sys) && InCall(ProcessOf(sys, pid))
    ensures action.pid == pid && !action.Crash? && Enabled(sys, action)
  {
    var p := ProcessOf(sys, pid);
    assert Charged(sys, pid, p);
    match p {
      case Opening(attempt) =>
        if attempt >= ACQUIRE_ATTEMPTS {
          action := GiveUp(pid);
        } else if sys.path.Some? {
          action := Open(pid, sys.path.value);
        } else {
          var inode := PickUnused(sys);
          action := Open(pid, inode);
        }
      case Opened(_, inode) => action := if inode in sys.lockedBy then Refuse(pid) else Flock(pid);
      case Locked(_, _) => action := Restat(pid);
      case Stale(_, _) => action := Close(pid);
      case Recording(_) => action := Record(pid);
    }
  }

  /** Acquire never blocks on another process: it always has a next call, and each one brings it
      closer to returning, so it returns within a fixed number of calls. */
  lemma AcquireIsWaitFree(sys: System, pid: Pid) returns (action: Action)
    requires Reachable(sys) && InCall(ProcessOf(sys, pid))
    ensures action.pid == pid && !action.Crash? && Enabled(sys, action)
    ensures forall a: Action | a.pid == pid && Enabled(sys, a) ::
      0 <= CallsLeft(ProcessOf(Apply(sys, a), pid)) < CallsLeft(ProcessOf(sys, pid)) <= 4 * ACQUIRE_ATTEMPTS + 1
  {
    ReachableInv(sys);
    action := NextCall(sys, pid);
    CallsBounded(sys, pid);
    forall a: Action | a.pid == pid && Enabled(sys, a)
      ensures 0 <= CallsLeft(ProcessOf(Apply(sys, a), pid)) < CallsLeft(ProcessOf(sys, pid))
    {
      CallsShrink(sys, pid, a);
    }
  }

  /** Whatever crashes left behind, a daemon started alone owns the lock at the first attempt. */
  lemma AloneAcquires(sys: System, pid: Pid) returns (run: seq<Action>, sys': System)
    requires Reachable(sys) && forall other :: ProcessOf(sys, other).Out?
    ensures RunsTo(sys, run, sys') && ProcessOf(sys', pid).Owning? && |run| == 5
  {
    ReachableInv(sys);
    var inode;
    if sys.path.Some? { inode := sys.path.value; } else { inode := PickUnused(sys); }
    assert inode !in sys.lockedBy;
    var s1 := Apply(sys, Start(pid));
    assert Enabled(s1, Open(pid, inode));
    var s2 := Apply(s1, Open(pid, inode));
    var s3 := Apply(s2, Flock(pid));
    var s4 := Apply(s3, Restat(pid));
    sys' := Apply(s4, Record(pid));
    run := [Start(pid), Open(pid, inode), Flock(pid), Restat(pid), Record(pid)];
    assert RunsTo(s4, [Record(pid)], sys');
    assert RunsTo(s3, [Restat(pid), Record(pid)], sys');
    assert RunsTo(s2, [Flock(pid), Restat(pid), Record(pid)], sys');
    assert RunsTo(s1, [Open(pid, inode), Flock(pid), Restat(pid), Record(pid)], sys');
  }

  // ------------------------------------------------- acquire and drop, as code

  lemma {:induction false} RunAppend(sys: System, first: seq<Action>, mid: System, second: seq<Action>, end: System)
    requires RunsTo(sys, first, mid) && RunsTo(mid, second, end)
    ensures RunsTo(sys, first + second, end)
    decreases |first|
  {
    if first == [] {
      assert first + second == second;
    } else {
      var run := first + second;
      RunAppend(Apply(sys, first[0]), first[1..], mid, second, end);
      assert run[0] == first[0] && run[1..] == first[1..] + second;
    }
  }

  lemma {:induction false} OthersKeepProcess(sys: System, run: seq<Action>, sys': System, pid: Pid)
    requires RunsTo(sys, run, sys') && forall k | 0 <= k < |run| :: run[k].pid != pid
    ensures ProcessOf(sys', pid) == ProcessOf(sys, pid)
    decreases |run|
  {
    if run != [] {
      OthersKeepProcess(Apply(sys, run[0]), run[1..], sys', pid);
    }
  }

  /** The filesystem and lock table, used by one process while others run between its calls. */
  class Kernel {
    var sys: System

    constructor ()
      ensures sys == INITIAL && Reachable(sys)
    {
      sys := INITIAL;
      new;
      assert RunsTo(INITIAL, [], sys);
    }

    /** Between two system calls of `pid`, other processes may run for any number of steps. */
    method Preempt(pid: Pid)
      requires Reachable(sys)
      modifies this
      ensures Reachable(sys) && ProcessOf(sys, pid) == old(ProcessOf(sys, pid))
      ensures exists run: seq<Action> ::
        RunsTo(old(sys), run, sys) && forall k | 0 <= k < |run| :: run[k].pid != pid
    {
      assert RunsTo(sys, [], sys);
    }

    /** One system call. */
    method Call(action: Action)
      requires Reachable(sys) && Enabled(sys, action)
      modifies this
      ensures sys == Apply(old(sys), action) && Reachable(sys)
    {
      ghost var run :| RunsTo(INITIAL, run, sys);
      assert RunsTo(sys, [action], Apply(sys, action));
      RunAppend(INITIAL, run, sys, [action], Apply(sys, action));
      sys := Apply(sys, action);
    }

    /** `acquire_state_lock`: the bounded retry loop. */
    method AcquireStateLock(pid: Pid) returns (owned: bool)
      requires Reachable(sys) && ProcessOf(sys, pid).Out?
      modifies this
      ensures Reachable(sys)
      ensures if owned then ProcessOf(sys, pid).Owning? else ProcessOf(sys, pid).Out?
      ensures owned ==> forall other | ProcessOf(sys, other).InCharge() :: other == pid
    {
      Call(Start(pid));
      var attempt := 0;
      while attempt < ACQUIRE_ATTEMPTS
        invariant attempt <= ACQUIRE_ATTEMPTS
        invariant Reachable(sys) && ProcessOf(sys, pid) == Opening(attempt)
      {
        OpenLockFile(pid);
        LockAndCheck(pid);
        if ProcessOf(sys, pid).Recording? {
          Preempt(pid);
          Call(Record(pid));
          forall other | ProcessOf(sys, other).InCharge() ensures other == pid { DaemonExclusion(sys, other, pid); }
          return true;
        } else if ProcessOf(sys, pid).Out? {
          return false;
        }
        Call(Close(pid));
        attempt := attempt + 1;
      }
      Call(GiveUp(pid));
      return false;
    }

    /** Open the file at the path, creating it when there is none. */
    method OpenLockFile(pid: Pid)
      requires Reachable(sys) && ProcessOf(sys, pid).Opening? && ProcessOf(sys, pid).attempt < ACQUIRE_ATTEMPTS
      modifies this
      ensures Reachable(sys) && ProcessOf(sys, pid).Opened?
      ensures ProcessOf(sys, pid).attempt == old(ProcessOf(sys, pid).attempt)
      ensures sys.path == Some(ProcessOf(sys, pid).inode)
    {
      Preempt(pid);
      var inode;
      if sys.path.Some? { inode := sys.path.value; } else { inode := FreshInode(); }
      Call(Open(pid, inode));
    }

    /** Lock the opened file without blocking, then compare it with what the path names now. */
    method LockAndCheck(pid: Pid)
      requires Reachable(sys) && ProcessOf(sys, pid).Opened?
      modifies this
      ensures Reachable(sys)
      ensures var p := ProcessOf(sys, pid);
              var inode := old(ProcessOf(sys, pid).inode);
              || p.Out?
              || (p == Recording(inode) && sys.path == Some(inode))
              || (p == Stale(old(ProcessOf(sys, pid).attempt), inode) && sys.path != Some(inode))
    {
      Preempt(pid);
      if ProcessOf(sys, pid).inode in sys.lockedBy {
        Call(Refuse(pid));
        return;
      }
      Call(Flock(pid));
      Preempt(pid);
      Call(Restat(pid));
    }

    /** An inode number no open descriptor uses. */
    method FreshInode() returns (inode: Inode)
      ensures Unused(sys, inode)
    {
      inode := 0;
      var pending := sys.processes.Keys;
      while pending != {}
        invariant pending <= sys.processes.Keys
        invariant forall pid | pid in sys.processes.Keys - pending && sys.processes[pid].HasFile() ::
          sys.processes[pid].inode < inode
      {
        var pid :| pid in pending;
        pending := pending - {pid};
        if sys.processes[pid].HasFile() && inode <= sys.processes[pid].inode {
          inode := sys.processes[pid].inode + 1;
        }
      }
    }

    /** Dropping the lock: compare, remove, unlock. Unless the removal fails, this call is the one that
        removed the file it owned. */
    method DropStateLock(pid: Pid, removeFails: bool)
      requires Reachable(sys) && ProcessOf(sys, pid).Owning?
      modifies this
      ensures Reachable(sys) && ProcessOf(sys, pid).Out?
      ensures old(sys.removals) <= sys.removals
      ensures !removeFails ==>
        Removal(pid, Some(old(ProcessOf(sys, pid).inode))) in sys.removals[|old(sys.removals)|..]
      ensures forall inode | inode in sys.lockedBy :: sys.lockedBy[inode] != pid
    {
      Call(Drop(pid));
      Yield(pid);
      ReachableInv(sys);
      Call(Compare(pid));
      assert ProcessOf(sys, pid).Unlinking?;
      Yield(pid);
      ReleaseRemovesOwnFile(sys, pid);
      ghost var made := |sys.removals|;
      if removeFails {
        Call(UnlinkFails(pid));
      } else {
        Call(Unlink(pid));
        assert sys.removals[made] == Removal(pid, Some(old(ProcessOf(sys, pid).inode)));
      }
      Yield(pid);
      Call(Unlock(pid));
      ReachableInv(sys);
      assert !removeFails ==> sys.removals[|old(sys.removals)|..][made - |old(sys.removals)|] == sys.removals[made];
    }

    /** What others do never takes a removal back. */
    method Yield(pid: Pid)
      requires Reachable(sys)
      modifies this
      ensures Reachable(sys) && ProcessOf(sys, pid) == old(ProcessOf(sys, pid))
      ensures old(sys.removals) <= sys.removals
    {
      Preempt(pid);
      ghost var run: seq<Action> :| RunsTo(old(sys), run, sys);
      RemovalsGrow(old(sys), run, sys);
    }
  }

  lemma {:induction false} RemovalsGrow(sys: System, run: seq<Action>, sys': System)
    requires RunsTo(sys, run, sys')
    ensures sys.removals <= sys'.removals
    decreases |run|
  {
    if run != [] { RemovalsGrow(Apply(sys, run[0]), run[1..], sys'); }
  }
}
