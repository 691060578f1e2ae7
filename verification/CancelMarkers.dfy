/** The identity a command marker records, as text. */
module MarkerIdentity {
  import opened Decimal
  import opened Text
  import opened Words
  import opened Wrappers

  datatype Helper = Helper(pid: nat, start: nat)

  function WordLength(s: string): (n: nat)
    ensures n <= |s|
    ensures s != [] && !IsWhitespace(s[0]) ==> n > 0
  {
    if s == [] || IsWhitespace(s[0]) then 0 else 1 + WordLength(s[1..])
  }

  function SplitWhitespace(s: string): seq<string>
    decreases |s|
  {
    if s == [] then []
    else if IsWhitespace(s[0]) then SplitWhitespace(s[1..])
    else [s[..WordLength(s)]] + SplitWhitespace(s[WordLength(s)..])
  }

  function FormatIdentity(helper: Helper): string {
    ToDecimal(helper.pid) + " " + ToDecimal(helper.start) + "\n"
  }

  /** Exactly two fields: a process id and a start time. */
  function ParseIdentity(raw: string): Option<Helper> {
    var fields := SplitWhitespace(raw);
    if |fields| != 2 then None
    else
      match (ParseUnsigned(fields[0], U32_MAX), ParseUnsigned(fields[1], U64_MAX))
      case (Some(pid), Some(start)) => Some(Helper(pid, start))
      case _ => None
  }

  lemma {:induction false} WordThenSpace(word: string, rest: string)
    requires AllDigits(word) && rest != [] && IsWhitespace(rest[0])
    ensures WordLength(word + rest) == |word|
  {
    var s := word + rest;
    if word != [] {
      assert s[1..] == word[1..] + rest;
      WordThenSpace(word[1..], rest);
    }
  }

  lemma SplitFirst(word: string, rest: string)
    requires word != [] && AllDigits(word) && rest != [] && IsWhitespace(rest[0])
    ensures SplitWhitespace(word + rest) == [word] + SplitWhitespace(rest[1..])
  {
    var s := word + rest;
    WordThenSpace(word, rest);
    assert IsDigit(s[0]) && s[..|word|] == word && s[|word|..] == rest;
  }

  /** What publish writes, cancel reads back. */
  lemma ParseFormatted(helper: Helper)
    requires helper.pid <= U32_MAX && helper.start <= U64_MAX
    ensures ParseIdentity(FormatIdentity(helper)) == Some(helper)
  {
    var pid, start := ToDecimal(helper.pid), ToDecimal(helper.start);
    assert FormatIdentity(helper) == pid + (" " + (start + "\n"));
    SplitFirst(pid, " " + (start + "\n"));
    SplitFirst(start, "\n");
    assert (" " + (start + "\n"))[1..] == start + "\n";
    assert SplitWhitespace("\n"[1..]) == [];
    ParsePrinted(helper.pid, U32_MAX);
    ParsePrinted(helper.start, U64_MAX);
  }
}

/**
 Publishing, finishing and cancelling commands, for any number of commands and cancels of one
 daemon, interleaved step by step with the processes of the host. Marker ids are never reused,
 and neither is a pair of process id and start time.
 */
module CancelMarkers {
  import opened MarkerIdentity
  import opened Words
  import opened Wrappers

  type MarkerId = nat

  datatype Process = Process(start: nat, exited: bool, leader: bool)

  /** What finishing a marker answers: Ok(true), Ok(false) or an error. */
  datatype Finish = Retired | Cancelled | Failed

  datatype CommandState =
    | Claimed(helper: Helper)
    | Publishing(helper: Helper)                        // inside the cancel lock
    | Published(helper: Helper, marker: MarkerId)       // inside the cancel lock
    | PublishFailed(helper: Helper)                     // inside the cancel lock
    | Running(helper: Helper, published: Option<MarkerId>)
    | Finishing(helper: Helper, marker: MarkerId)       // inside the cancel lock
    | Settled(helper: Helper, marker: MarkerId, finish: Finish) // inside the cancel lock
    | Releasing(helper: Helper, reusable: bool)
  {
    predicate InsideLock() {
      Publishing? || Published? || PublishFailed? || Finishing? || Settled?
    }

    /** The command can be the one that published the marker and has not retired it. */
    predicate MayOwn(id: MarkerId) {
      match this
      case Published(_, m) => m == id
      case Running(_, p) => p == Some(id)
      case Finishing(_, m) => m == id
      case Settled(_, m, f) => m == id && !f.Retired?
      case Releasing(_, reusable) => !reusable
      case _ => false
    }
  }

  datatype LockedMarker = LockedMarker(id: MarkerId, raw: string, helper: Helper, live: bool)

  datatype Verdict = Ok | Invalid | Unfinished

  datatype CancelState =
    | Wanting
    | Checking(pending: seq<MarkerId>, locked: seq<LockedMarker>)
    | Signalling(locked: seq<LockedMarker>, next: nat)
    | Aiming(locked: seq<LockedMarker>, next: nat, whole: bool) // the identity was checked again, the kill is next
    | Confirming(locked: seq<LockedMarker>)
    | Removing(locked: seq<LockedMarker>, next: nat)
    | Leaving(locked: seq<LockedMarker>, verdict: Verdict)
    | Returned(signalled: set<MarkerId>, verdict: Verdict)
  {
    predicate InsideLock() {
      !Wanting? && !Returned?
    }
  }

  datatype Owner = ByCommand(command: nat) | ByCancel(cancel: nat)

  /** A signal sent: to the whole group or to what is left of it without its leader, whether the pool had
      the helper at that moment, and which group leader it reached. */
  datatype Signal = Signal(
    cancel: nat, marker: MarkerId, helper: Helper, whole: bool, held: bool, hit: Option<Helper>)

  datatype System = System(
    processes: map<nat, Process>,
    markers: map<MarkerId, string>,
    lock: Option<Owner>,
    idle: set<Helper>,                 // helpers in the pool, free for reuse
    commands: map<nat, CommandState>,
    cancels: map<nat, CancelState>,
    signals: seq<Signal>,              // every signal sent so far
    issued: set<MarkerId>,             // every marker id ever used
    begun: set<nat>,                   // every cancel ever begun
    stuck: set<MarkerId>,              // markers a cancel failed to remove
    late: set<MarkerId>,               // markers in place although their publish reported failure
    retired: set<MarkerId>,            // markers whose finish found and removed them
    written: map<MarkerId, Helper>,    // the helper each marker was written for
    spawned: set<Helper>,              // processes the pool made
    foreign: set<Helper>)              // all other processes

  const INITIAL := System(map[], map[], None, {}, map[], map[], [], {}, {}, {}, {}, {}, map[], {}, {})

  datatype HostStep =
    | Exit(pid: nat)
    | Reap(pid: nat)
    | Appear(pid: nat, start: nat, leader: bool)
    | Plant(id: MarkerId, raw: string)             // a file that is not a marker of this daemon
    | Crash                                        // of the daemon

  /** Helpers coming from and going back to the pool. */
  datatype PoolStep =
    | Spawn(command: nat, helper: Helper)
    | Claim(command: nat, helper: Helper)
    | Discard(helper: Helper)                      // an idle helper killed and reaped
    | Release(command: nat, keep: bool)

  datatype CommandStep =
    | LockForPublish
    | WriteMarker(id: MarkerId)
    | WriteFails
    | WriteFailsLate(id: MarkerId)                 // the rename happened, the directory sync failed
    | LockForFinish
    | FinishMarker
    | FinishFails
    | LockTimesOut
    | Unlock
    | UnlockFails                                  // closing the file frees the lock all the same
    | EndUnpublished(reusable: bool)

  datatype CancelStep =
    | ListMarkers(order: seq<MarkerId>)
    | CheckMarker(groupLive: bool)
    | Recheck
    | Kill(delivered: bool)
    | Confirm
    | ConfirmTimesOut
    | RemoveMarker(removes: bool)
    | Return(unlockFails: bool)

  datatype Action =
    | Host(host: HostStep)
    | Pool(pool: PoolStep)
    | Command(command: nat, step: CommandStep)
    | BeginCancel(cancel: nat)
    | Cancel(cancel: nat, action: CancelStep)

  predicate Matches(processes: map<nat, Process>, helper: Helper) {
    && helper.pid in processes && !processes[helper.pid].exited
    && processes[helper.pid].start == helper.start
  }

  /** The process is there, running or waiting to be reaped, and leads its group. */
  predicate Present(processes: map<nat, Process>, helper: Helper) {
    helper.pid in processes && processes[helper.pid].start == helper.start && processes[helper.pid].leader
  }

  predicate ChangedIdentity(processes: map<nat, Process>, helper: Helper) {
    helper.pid in processes && processes[helper.pid].start != helper.start
  }

  /** `validate_identity`. */
  predicate Signallable(processes: map<nat, Process>, helper: Helper) {
    && helper.pid > 1
    && !ChangedIdentity(processes, helper)
    && (Matches(processes, helper) ==> processes[helper.pid].leader)
  }

  function Exited(processes: map<nat, Process>, pid: nat): map<nat, Process> {
    if pid in processes then processes[pid := processes[pid].(exited := true)] else processes
  }

  /** The pool has the helper: it is idle, or a command is using it. It is then the daemon's child, and
      only the daemon reaps it. */
  predicate Held(sys: System, helper: Helper) {
    helper in sys.idle || exists c | c in sys.commands :: sys.commands[c].helper == helper
  }

  // ------------------------------------------------------------------- the host

  predicate HostEnabled(sys: System, step: HostStep) {
    match step
    case Exit(pid) => pid in sys.processes
    case Reap(pid) =>
      pid in sys.processes && sys.processes[pid].exited && !Held(sys, Helper(pid, sys.processes[pid].start))
    case Appear(pid, start, _) => pid !in sys.processes && Helper(pid, start) !in sys.spawned + sys.foreign
    case Plant(id, raw) => id !in sys.issued && ParseIdentity(raw).None?
    case Crash => true
  }

  function HostApply(sys: System, step: HostStep): System
    requires HostEnabled(sys, step)
  {
    match step
    case Exit(pid) => sys.(processes := Exited(sys.processes, pid))
    case Reap(pid) => sys.(processes := sys.processes - {pid})
    case Appear(pid, start, leader) =>
      sys.(processes := sys.processes[pid := Process(start, false, leader)],
           foreign := sys.foreign + {Helper(pid, start)})
    case Plant(id, raw) => sys.(markers := sys.markers[id := raw], issued := sys.issued + {id})
    case Crash => sys.(lock := None, idle := {}, commands := map[], cancels := map[])
  }

  // ------------------------------------------------------------------- the pool

  predicate PoolEnabled(sys: System, step: PoolStep) {
    match step
    case Spawn(c, h) =>
      && c !in sys.commands && h.pid !in sys.processes && h !in sys.spawned + sys.foreign
      && 1 < h.pid <= U32_MAX && h.start <= U64_MAX
    case Claim(c, h) => c !in sys.commands && h in sys.idle && Matches(sys.processes, h)
    case Discard(h) => h in sys.idle
    case Release(c, _) => c in sys.commands && sys.commands[c].Releasing?
  }

  /** A released helper goes back to the pool if it may and still runs; otherwise it is killed and reaped. */
  predicate Keeps(sys: System, c: nat, keep: bool)
    requires PoolEnabled(sys, Release(c, keep))
  {
    keep && sys.commands[c].reusable && Matches(sys.processes, sys.commands[c].helper)
  }

  function PoolApply(sys: System, step: PoolStep): System
    requires PoolEnabled(sys, step)
  {
    match step
    case Spawn(c, h) =>
      sys.(commands := sys.commands[c := Claimed(h)], spawned := sys.spawned + {h},
           processes := sys.processes[h.pid := Process(h.start, false, true)])
    case Claim(c, h) => sys.(commands := sys.commands[c := Claimed(h)], idle := sys.idle - {h})
    case Discard(h) => sys.(idle := sys.idle - {h}, processes := sys.processes - {h.pid})
    case Release(c, keep) =>
      var h := sys.commands[c].helper;
      if Keeps(sys, c, keep) then sys.(commands := sys.commands - {c}, idle := sys.idle + {h})
      else sys.(commands := sys.commands - {c}, processes := sys.processes - {h.pid})
  }

  // ------------------------------------------------------------------ a command

  predicate CommandEnabled(sys: System, c: nat, step: CommandStep) {
    && c in sys.commands
    && var command := sys.commands[c];
    match step
    case LockForPublish => command.Claimed? && sys.lock.None?
    case WriteMarker(id) => command.Publishing? && id !in sys.issued
    case WriteFails => command.Publishing?
    case WriteFailsLate(id) => command.Publishing? && id !in sys.issued
    case LockForFinish => command.Running? && command.published.Some? && sys.lock.None?
    case FinishMarker => command.Finishing?
    case FinishFails => command.Finishing?
    case LockTimesOut => command.Claimed? || (command.Running? && command.published.Some?)
    case Unlock => command.Published? || command.PublishFailed? || command.Settled?
    case UnlockFails => command.Published? || command.PublishFailed? || command.Settled?
    case EndUnpublished(_) => command.Running? && command.published.None?
  }

  /** What `finish_command_marker` answers under the cancel lock. */
  function FinishAnswer(sys: System, helper: Helper, marker: MarkerId): Finish {
    if marker !in sys.markers then Cancelled
    else if sys.markers[marker] != FormatIdentity(helper) then Failed
    else Retired
  }

  function NextCommand(sys: System, c: nat, step: CommandStep): (next: CommandState)
    requires CommandEnabled(sys, c, step)
    ensures next.helper == sys.commands[c].helper
  {
    var command := sys.commands[c];
    var h := command.helper;
    match step
    case LockForPublish => Publishing(h)
    case WriteMarker(id) => Published(h, id)
    case WriteFails => PublishFailed(h)
    case WriteFailsLate(_) => PublishFailed(h)
    case LockForFinish => Finishing(h, command.published.value)
    case FinishMarker => Settled(h, command.marker, FinishAnswer(sys, h, command.marker))
    case FinishFails => Settled(h, command.marker, Failed)
    case LockTimesOut => if command.Claimed? then Running(h, None) else Releasing(h, false)
    case Unlock =>
      if command.Published? then Running(h, Some(command.marker))
      else if command.PublishFailed? then Running(h, None)
      else Releasing(h, command.finish.Retired?)
    case UnlockFails => if command.Settled? then Releasing(h, false) else Running(h, None)
    case EndUnpublished(reusable) => Releasing(h, reusable)
  }

  /** The step finds its marker unchanged and removes it. */
  predicate Retires(sys: System, c: nat, step: CommandStep) {
    && step.FinishMarker? && CommandEnabled(sys, c, step)
    && FinishAnswer(sys, sys.commands[c].helper, sys.commands[c].marker).Retired?
  }

  predicate Writes(step: CommandStep) {
    step.WriteMarker? || step.WriteFailsLate?
  }

  /** The marker that is left in place by a publish that reports failure in this step. */
  function LeftLate(sys: System, c: nat, step: CommandStep): set<MarkerId>
    requires CommandEnabled(sys, c, step)
  {
    if step.WriteFailsLate? then {step.id}
    else if step.UnlockFails? && sys.commands[c].Published? then {sys.commands[c].marker}
    else {}
  }

  function CommandApply(sys: System, c: nat, step: CommandStep): System
    requires CommandEnabled(sys, c, step)
  {
    var command := sys.commands[c];
    sys.(commands := sys.commands[c := NextCommand(sys, c, step)],
         markers := if Writes(step) then sys.markers[step.id := FormatIdentity(command.helper)]
                    else if Retires(sys, c, step) then sys.markers - {command.marker}
                    else sys.markers,
         issued := if Writes(step) then sys.issued + {step.id} else sys.issued,
         written := if Writes(step) then sys.written[step.id := command.helper] else sys.written,
         retired := if Retires(sys, c, step) then sys.retired + {command.marker} else sys.retired,
         lock := if step.LockForPublish? || step.LockForFinish? then Some(ByCommand(c))
                 else if step.Unlock? || step.UnlockFails? then None else sys.lock,
         late := sys.late + LeftLate(sys, c, step))
  }

  // ------------------------------------------------------------------- a cancel

  predicate AnyLive(locked: seq<LockedMarker>) {
    exists i | 0 <= i < |locked| :: locked[i].live
  }

  function LiveIds(locked: seq<LockedMarker>): set<MarkerId> {
    set i | 0 <= i < |locked| && locked[i].live :: locked[i].id
  }

  predicate Listing(sys: System, order: seq<MarkerId>) {
    && (forall id | id in order :: id in sys.markers) && (forall id | id in sys.markers :: id in order)
    && (forall i, j | 0 <= i < j < |order| :: order[i] != order[j])
  }

  predicate CancelEnabled(sys: System, k: nat, step: CancelStep) {
    && k in sys.cancels
    && var cancel := sys.cancels[k];
    match step
    case ListMarkers(order) => cancel.Wanting? && sys.lock.None? && Listing(sys, order)
    case CheckMarker(_) => cancel.Checking?
    case Recheck => cancel.Signalling?
    case Kill(_) => cancel.Aiming? && cancel.next < |cancel.locked|
    case Confirm =>
      && cancel.Confirming?
      && (forall i | 0 <= i < |cancel.locked| ::
            cancel.locked[i].live ==> !Matches(sys.processes, cancel.locked[i].helper))
    case ConfirmTimesOut => cancel.Confirming?
    case RemoveMarker(_) => cancel.Removing?
    case Return(_) => cancel.Leaving?
  }

  /** One round of the loop in `lock_command_markers`, or the step that ends it. */
  function Checked(sys: System, pending: seq<MarkerId>, locked: seq<LockedMarker>, groupLive: bool): CancelState {
    if pending == [] then
      if locked == [] then Leaving(locked, Verdict.Ok)
      else if AnyLive(locked) then Signalling(locked, 0)
      else Removing(locked, 0)
    else
      var id := pending[0];
      if id !in sys.markers then Checking(pending[1..], locked)
      else
        match ParseIdentity(sys.markers[id])
        case None => Leaving(locked, Invalid)
        case Some(h) =>
          if !Signallable(sys.processes, h) then Leaving(locked, Invalid)
          else
            var live := Matches(sys.processes, h) || groupLive;
            Checking(pending[1..], locked + [LockedMarker(id, sys.markers[id], h, live)])
  }

  /** One round of the signalling loop up to the kill: groups that were not live are passed over, and a
      leader whose process id changed hands is refused. The whole group is signalled if its leader still
      runs, and the other members one by one if it has exited. */
  function Rechecked(sys: System, locked: seq<LockedMarker>, next: nat): CancelState {
    if next >= |locked| then Confirming(locked)
    else if !locked[next].live then Signalling(locked, next + 1)
    else if ChangedIdentity(sys.processes, locked[next].helper) then Leaving(locked, Unfinished)
    else Aiming(locked, next, Matches(sys.processes, locked[next].helper))
  }

  /** The step removes the next locked marker; a failed removal is ignored. */
  predicate Removes(sys: System, k: nat, step: CancelStep) {
    && k in sys.cancels && sys.cancels[k].Removing? && step.RemoveMarker? && step.removes
    && var Removing(locked, next) := sys.cancels[k];
    next < |locked| && locked[next].id in sys.markers && sys.markers[locked[next].id] == locked[next].raw
  }

  function NextCancel(sys: System, k: nat, step: CancelStep): CancelState
    requires CancelEnabled(sys, k, step)
  {
    var cancel := sys.cancels[k];
    match step
    case ListMarkers(order) => Checking(order, [])
    case CheckMarker(groupLive) => Checked(sys, cancel.pending, cancel.locked, groupLive)
    case Recheck => Rechecked(sys, cancel.locked, cancel.next)
    case Kill(delivered) =>
      if delivered then Signalling(cancel.locked, cancel.next + 1) else Leaving(cancel.locked, Unfinished)
    case Confirm => Removing(cancel.locked, 0)
    case ConfirmTimesOut => Leaving(cancel.locked, Unfinished)
    case RemoveMarker(_) =>
      if cancel.next >= |cancel.locked| then Leaving(cancel.locked, Verdict.Ok)
      else Removing(cancel.locked, cancel.next + 1)
    case Return(unlockFails) =>
      Returned(LiveIds(cancel.locked),
               if unlockFails && cancel.verdict.Ok? then Unfinished else cancel.verdict)
  }

  /** The process a kill of the group reaches: the one that leads it now. */
  function HitBy(processes: map<nat, Process>, pid: nat): Option<Helper> {
    if pid in processes && processes[pid].leader then Some(Helper(pid, processes[pid].start)) else None
  }

  function SignalTo(sys: System, k: nat, marker: LockedMarker, whole: bool): Signal {
    Signal(k, marker.id, marker.helper, whole, Held(sys, marker.helper),
           if whole then HitBy(sys.processes, marker.helper.pid) else None)
  }

  predicate Signals(sys: System, k: nat, step: CancelStep) {
    step.Kill? && step.delivered && CancelEnabled(sys, k, step)
  }

  function CancelApply(sys: System, k: nat, step: CancelStep): System
    requires CancelEnabled(sys, k, step)
  {
    var cancel := sys.cancels[k];
    sys.(cancels := sys.cancels[k := NextCancel(sys, k, step)],
         lock := if step.ListMarkers? then Some(ByCancel(k)) else if step.Return? then None else sys.lock,
         signals := if Signals(sys, k, step)
                    then sys.signals + [SignalTo(sys, k, cancel.locked[cancel.next], cancel.whole)] else sys.signals,
         processes := if Signals(sys, k, step) && SignalTo(sys, k, cancel.locked[cancel.next], cancel.whole).hit.Some?
                      then Exited(sys.processes, cancel.locked[cancel.next].helper.pid) else sys.processes,
         markers := if Removes(sys, k, step) then sys.markers - {cancel.locked[cancel.next].id} else sys.markers,
         stuck := if step.RemoveMarker? && !Removes(sys, k, step) && cancel.next < |cancel.locked|
                  then sys.stuck + {cancel.locked[cancel.next].id} else sys.stuck)
  }

  // ------------------------------------------------------------------------ runs

  predicate Enabled(sys: System, action: Action) {
    match action
    case Host(step) => HostEnabled(sys, step)
    case Pool(step) => PoolEnabled(sys, step)
    case Command(c, step) => CommandEnabled(sys, c, step)
    case BeginCancel(k) => k !in sys.begun
    case Cancel(k, step) => CancelEnabled(sys, k, step)
  }

  function Begun(sys: System, k: nat): System {
    sys.(cancels := sys.cancels[k := Wanting], begun := sys.begun + {k})
  }

  function Apply(sys: System, action: Action): System
    requires Enabled(sys, action)
  {
    match action
    case Host(step) => HostApply(sys, step)
    case Pool(step) => PoolApply(sys, step)
    case Command(c, step) => CommandApply(sys, c, step)
    case BeginCancel(k) => Begun(sys, k)
    case Cancel(k, step) => CancelApply(sys, k, step)
  }

  ghost predicate RunsTo(sys: System, run: seq<Action>, sys': System)
    decreases |run|
  {
    if run == [] then sys == sys'
    else Enabled(sys, run[0]) && RunsTo(Apply(sys, run[0]), run[1..], sys')
  }

  ghost predicate Reachable(sys: System) {
    exists run :: RunsTo(INITIAL, run, sys)
  }


  // ---------------------------------------------------------------- invariant

  /** Helpers are used by one command at a time, and not while they are idle; they are there as long as
      the pool has them. */
  ghost predicate HelpersInv(sys: System) {
    && (forall c | c in sys.commands :: sys.commands[c].helper in sys.spawned && sys.commands[c].helper !in sys.idle)
    && (forall c, d | c in sys.commands && d in sys.commands && c != d ::
          sys.commands[c].helper != sys.commands[d].helper)
    && sys.idle <= sys.spawned
    && (forall h | h in sys.spawned :: h.pid <= U32_MAX && h.start <= U64_MAX)
    && sys.spawned !! sys.foreign
    && (forall h | Held(sys, h) :: Present(sys.processes, h))
  }

  ghost predicate LockInv(sys: System) {
    && (forall c | c in sys.commands :: sys.commands[c].InsideLock() ==> sys.lock == Some(ByCommand(c)))
    && (forall k | k in sys.cancels :: sys.cancels[k].InsideLock() ==> sys.lock == Some(ByCancel(k)))
  }

  /** A marker that can be read says which helper it was written for, and a retired one is gone. */
  ghost predicate WrittenInv(sys: System) {
    && sys.markers.Keys <= sys.issued && sys.written.Keys <= sys.issued
    && sys.late <= sys.written.Keys && sys.retired <= sys.written.Keys && sys.markers.Keys !! sys.retired
    && (forall id | id in sys.written :: sys.written[id] in sys.spawned)
    && (forall id | id in sys.markers ::
          if id in sys.written then sys.markers[id] == FormatIdentity(sys.written[id])
          else ParseIdentity(sys.markers[id]).None?)
  }

  /** The marker a command has published. */
  function MarkerOf(command: CommandState): Option<MarkerId> {
    match command
    case Published(_, marker) => Some(marker)
    case Running(_, published) => published
    case Finishing(_, marker) => Some(marker)
    case Settled(_, marker, _) => Some(marker)
    case _ => None
  }

  /** Until a marker is retired, its helper is not idle and no command uses it but the marker's own. */
  ghost predicate NamesOnlyItsOwn(sys: System, id: MarkerId) {
    id in sys.written && id !in sys.late && id !in sys.retired ==>
      && sys.written[id] !in sys.idle
      && forall c | c in sys.commands && sys.commands[c].helper == sys.written[id] :: sys.commands[c].MayOwn(id)
  }

  /** A command's marker was written for the command's helper, and its publish succeeded. */
  ghost predicate OwnsItsMarker(sys: System, command: CommandState) {
    MarkerOf(command).Some? ==>
      && MarkerOf(command).value in sys.written && MarkerOf(command).value !in sys.late
      && sys.written[MarkerOf(command).value] == command.helper
  }

  ghost predicate OwnersInv(sys: System) {
    && (forall c | c in sys.commands :: OwnsItsMarker(sys, sys.commands[c]))
    && (forall id | id in sys.written :: NamesOnlyItsOwn(sys, id))
  }

  ghost predicate Holds(sys: System, locked: LockedMarker) {
    && locked.id in sys.markers && sys.markers[locked.id] == locked.raw
    && ParseIdentity(locked.raw) == Some(locked.helper)
  }

  ghost predicate DistinctIds(locked: seq<LockedMarker>) {
    forall i, j | 0 <= i < j < |locked| :: locked[i].id != locked[j].id
  }

  /** The marker was removed by a cancel: no finish found it. */
  ghost predicate Gone(sys: System, id: MarkerId) {
    id in sys.written && (id in sys.stuck || (id !in sys.markers && id !in sys.retired))
  }

  /** What a cancel knows at each stage, because it holds the lock throughout. */
  ghost predicate CancelInv(sys: System, cancel: CancelState) {
    match cancel
    case Wanting => true
    case Checking(pending, locked) =>
      && DistinctIds(locked)
      && (forall i, j | 0 <= i < j < |pending| :: pending[i] != pending[j])
      && (forall i, j | 0 <= i < |locked| && 0 <= j < |pending| :: locked[i].id != pending[j])
      && (forall i | 0 <= i < |locked| :: Holds(sys, locked[i]))
    case Signalling(locked, _) => DistinctIds(locked) && forall i | 0 <= i < |locked| :: Holds(sys, locked[i])
    case Aiming(locked, _, _) => DistinctIds(locked) && forall i | 0 <= i < |locked| :: Holds(sys, locked[i])
    case Confirming(locked) => DistinctIds(locked) && forall i | 0 <= i < |locked| :: Holds(sys, locked[i])
    case Removing(locked, next) =>
      && DistinctIds(locked)
      && (forall i | next <= i < |locked| :: Holds(sys, locked[i]))
      && (forall i | 0 <= i < next && i < |locked| :: Gone(sys, locked[i].id))
    case Leaving(locked, verdict) => verdict.Ok? ==> forall i | 0 <= i < |locked| :: Gone(sys, locked[i].id)
    case Returned(signalled, verdict) => verdict.Ok? ==> forall id | id in signalled :: Gone(sys, id)
  }

  /** A cancel that has not finished checking, or that refused a marker, has sent nothing. */
  ghost predicate SilentInv(sys: System) {
    && (forall k | k in sys.cancels :: k in sys.begun)
    && (forall i | 0 <= i < |sys.signals| :: sys.signals[i].cancel in sys.begun)
    && (forall k, i | k in sys.cancels && Silent(sys.cancels[k]) && 0 <= i < |sys.signals| ::
          sys.signals[i].cancel != k)
  }

  predicate Silent(cancel: CancelState) {
    || cancel.Wanting? || cancel.Checking?
    || (cancel.Leaving? && cancel.verdict.Invalid?) || (cancel.Returned? && cancel.verdict.Invalid?)
  }

  ghost predicate SentInv(sys: System) {
    forall i | 0 <= i < |sys.signals| :: OnTarget(sys, sys.signals[i])
  }

  /** The signal was meant for the helper the marker was written for, and a signal to the whole group
      reached that process while the pool had it. */
  ghost predicate OnTarget(sys: System, signal: Signal) {
    && signal.marker in sys.written && signal.helper == sys.written[signal.marker]
    && signal.helper in sys.spawned
    && (signal.whole && signal.held ==> signal.hit == Some(signal.helper))
    && (!signal.whole ==> signal.hit.None?)
  }

  ghost predicate Inv(sys: System) {
    && HelpersInv(sys) && LockInv(sys) && WrittenInv(sys) && OwnersInv(sys)
    && (forall k | k in sys.cancels :: CancelInv(sys, sys.cancels[k]))
    && SilentInv(sys) && SentInv(sys)
  }

  // ---------------------------------------------------------------------- frames

  /** A cancel's knowledge survives as long as no known marker comes back, only a marker in place is
      retired and, while the cancel holds the lock, none goes away. */
  lemma CancelKeeps(sys: System, sys': System, cancel: CancelState)
    requires CancelInv(sys, cancel) && sys.written.Keys <= sys'.written.Keys && sys.stuck <= sys'.stuck
    requires forall id | id in sys.written && id in sys'.markers :: id in sys.markers
    requires forall id | id in sys'.retired :: id in sys.retired || id in sys.markers
    requires cancel.InsideLock() ==>
      && sys'.retired == sys.retired
      && forall id | id in sys.markers :: id in sys'.markers && sys'.markers[id] == sys.markers[id]
    ensures CancelInv(sys', cancel)
  {
    if cancel.Removing? {
      forall i | cancel.next <= i < |cancel.locked| ensures Holds(sys', cancel.locked[i]) {
        assert Holds(sys, cancel.locked[i]);
      }
      forall i | 0 <= i < cancel.next && i < |cancel.locked| ensures Gone(sys', cancel.locked[i].id) {
        assert Gone(sys, cancel.locked[i].id);
      }
    }
  }

  /** Histories only grow, so what was on target stays so. */
  lemma TargetKept(sys: System, sys': System, signal: Signal)
    requires OnTarget(sys, signal) && sys.spawned <= sys'.spawned
    requires forall id | id in sys.written :: id in sys'.written && sys'.written[id] == sys.written[id]
    ensures OnTarget(sys', signal)
  {
  }

  lemma SentKept(sys: System, sys': System)
    requires SentInv(sys) && sys'.signals == sys.signals && sys.spawned <= sys'.spawned
    requires forall id | id in sys.written :: id in sys'.written && sys'.written[id] == sys.written[id]
    ensures SentInv(sys')
  {
    forall i | 0 <= i < |sys'.signals| ensures OnTarget(sys', sys'.signals[i]) {
      TargetKept(sys, sys', sys.signals[i]);
    }
  }

  /** The pool and the host touch helpers and processes, and no marker of a command. */
  predicate SameMarkers(sys: System, sys': System) {
    && sys'.written == sys.written && sys'.stuck == sys.stuck && sys'.late == sys.late && sys'.retired == sys.retired
    && sys'.cancels == sys.cancels && sys'.signals == sys.signals && sys.spawned <= sys'.spawned
    && (forall id | id in sys.markers :: id in sys'.markers && sys'.markers[id] == sys.markers[id])
    && (forall id | id in sys.written && id in sys'.markers :: id in sys.markers)
  }

  lemma SameMarkersKeepInv(sys: System, sys': System)
    requires Inv(sys) && SameMarkers(sys, sys')
    requires HelpersInv(sys') && LockInv(sys') && WrittenInv(sys') && OwnersInv(sys') && SilentInv(sys')
    ensures Inv(sys')
  {
    SentKept(sys, sys');
    forall k | k in sys'.cancels ensures CancelInv(sys', sys'.cancels[k]) {
      CancelKeeps(sys, sys', sys.cancels[k]);
    }
  }

  // ------------------------------------------------------------------- the host

  lemma HostHelpers(sys: System, step: HostStep)
    requires HelpersInv(sys) && HostEnabled(sys, step)
    ensures HelpersInv(HostApply(sys, step))
  {
    var sys' := HostApply(sys, step);
    forall h | Held(sys', h) ensures Present(sys'.processes, h) {
      assert Held(sys, h);
      assert Present(sys.processes, h);
    }
  }

  lemma HostMarkers(sys: System, step: HostStep)
    requires LockInv(sys) && WrittenInv(sys) && OwnersInv(sys) && SilentInv(sys) && HostEnabled(sys, step)
    ensures var sys' := HostApply(sys, step);
            LockInv(sys') && WrittenInv(sys') && OwnersInv(sys') && SilentInv(sys')
  {
    var sys' := HostApply(sys, step);
    forall id | id in sys'.written ensures NamesOnlyItsOwn(sys', id) { assert NamesOnlyItsOwn(sys, id); }
  }

  lemma HostPreserves(sys: System, step: HostStep)
    requires Inv(sys) && HostEnabled(sys, step)
    ensures Inv(HostApply(sys, step))
  {
    var sys' := HostApply(sys, step);
    HostHelpers(sys, step);
    HostMarkers(sys, step);
    if step.Crash? {
      SentKept(sys, sys');
    } else {
      SameMarkersKeepInv(sys, sys');
    }
  }

  // ------------------------------------------------------------------- the pool

  lemma SpawnHelpers(sys: System, c: nat, h: Helper)
    requires HelpersInv(sys) && PoolEnabled(sys, Spawn(c, h))
    ensures HelpersInv(PoolApply(sys, Spawn(c, h)))
  {
    var sys' := PoolApply(sys, Spawn(c, h));
    forall g | Held(sys', g) ensures Present(sys'.processes, g) {
      if g != h {
        assert Held(sys, g) by { HeldUnlessTaken(sys, sys', c, g); }
        assert Present(sys.processes, g);
      }
    }
  }

  lemma HeldUnlessTaken(sys: System, sys': System, c: nat, g: Helper)
    requires c in sys'.commands && sys'.commands[c].helper != g && Held(sys', g) && sys'.idle <= sys.idle
    requires forall d | d in sys'.commands && d != c :: d in sys.commands && sys'.commands[d] == sys.commands[d]
    ensures Held(sys, g)
  {
    if g !in sys'.idle {
      var d :| d in sys'.commands && sys'.commands[d].helper == g;
      assert d in sys.commands && sys.commands[d].helper == g;
    }
  }

  lemma ClaimHelpers(sys: System, c: nat, h: Helper)
    requires HelpersInv(sys) && PoolEnabled(sys, Claim(c, h))
    ensures HelpersInv(PoolApply(sys, Claim(c, h)))
  {
    var sys' := PoolApply(sys, Claim(c, h));
    forall g | Held(sys', g) ensures Present(sys'.processes, g) {
      if g != h { HeldUnlessTaken(sys, sys', c, g); } else { assert Held(sys, h); }
    }
  }

  /** Two helpers the pool has never share a process id. */
  lemma HeldPidsDiffer(sys: System, g: Helper, h: Helper)
    requires HelpersInv(sys) && Held(sys, g) && Held(sys, h) && g != h
    ensures g.pid != h.pid
  {
    assert Present(sys.processes, g) && Present(sys.processes, h);
  }

  lemma DiscardHelpers(sys: System, h: Helper)
    requires HelpersInv(sys) && PoolEnabled(sys, Discard(h))
    ensures HelpersInv(PoolApply(sys, Discard(h)))
  {
    var sys' := PoolApply(sys, Discard(h));
    forall g | Held(sys', g) ensures Present(sys'.processes, g) {
      assert Held(sys, g) && Held(sys, h) && g != h;
      HeldPidsDiffer(sys, g, h);
      assert Present(sys.processes, g);
    }
  }

  lemma ReleaseHelpers(sys: System, c: nat, keep: bool)
    requires HelpersInv(sys) && PoolEnabled(sys, Release(c, keep))
    ensures HelpersInv(PoolApply(sys, Release(c, keep)))
  {
    var sys', h := PoolApply(sys, Release(c, keep)), sys.commands[c].helper;
    assert Held(sys, h);
    forall g | Held(sys', g) ensures Present(sys'.processes, g) {
      assert Held(sys, g);
      assert Present(sys.processes, g);
      if !Keeps(sys, c, keep) { HeldPidsDiffer(sys, g, h); }
    }
  }

  lemma PoolHelpers(sys: System, step: PoolStep)
    requires HelpersInv(sys) && PoolEnabled(sys, step)
    ensures HelpersInv(PoolApply(sys, step))
  {
    match step
    case Spawn(c, h) => SpawnHelpers(sys, c, h);
    case Claim(c, h) => ClaimHelpers(sys, c, h);
    case Discard(h) => DiscardHelpers(sys, h);
    case Release(c, keep) => ReleaseHelpers(sys, c, keep);
  }

  lemma PoolNames(sys: System, step: PoolStep, id: MarkerId)
    requires NamesOnlyItsOwn(sys, id) && WrittenInv(sys) && PoolEnabled(sys, step)
    ensures NamesOnlyItsOwn(PoolApply(sys, step), id)
  {
  }

  lemma PoolMarkers(sys: System, step: PoolStep)
    requires LockInv(sys) && WrittenInv(sys) && OwnersInv(sys) && SilentInv(sys) && PoolEnabled(sys, step)
    ensures var sys' := PoolApply(sys, step);
            LockInv(sys') && WrittenInv(sys') && OwnersInv(sys') && SilentInv(sys')
  {
    var sys' := PoolApply(sys, step);
    forall id | id in sys'.written ensures NamesOnlyItsOwn(sys', id) { PoolNames(sys, step, id); }
  }

  lemma PoolPreserves(sys: System, step: PoolStep)
    requires Inv(sys) && PoolEnabled(sys, step)
    ensures Inv(PoolApply(sys, step))
  {
    PoolHelpers(sys, step);
    PoolMarkers(sys, step);
    PoolKeepsMarkers(sys, step);
    SameMarkersKeepInv(sys, PoolApply(sys, step));
  }

  lemma PoolKeepsMarkers(sys: System, step: PoolStep)
    requires PoolEnabled(sys, step)
    ensures SameMarkers(sys, PoolApply(sys, step))
  {
  }

  // ----------------------------------------------------------------- a command

  lemma CommandHelpers(sys: System, c: nat, step: CommandStep)
    requires HelpersInv(sys) && CommandEnabled(sys, c, step)
    ensures HelpersInv(CommandApply(sys, c, step))
  {
    var sys' := CommandApply(sys, c, step);
    forall h | Held(sys', h) ensures Present(sys'.processes, h) {
      HeldByCommands(sys, sys', h);
    }
  }

  lemma HeldByCommands(sys: System, sys': System, h: Helper)
    requires sys'.idle == sys.idle && sys'.commands.Keys == sys.commands.Keys
    requires forall c | c in sys.commands :: sys'.commands[c].helper == sys.commands[c].helper
    ensures Held(sys', h) <==> Held(sys, h)
  {
  }

  lemma CommandLocks(sys: System, c: nat, step: CommandStep)
    requires LockInv(sys) && SilentInv(sys) && CommandEnabled(sys, c, step)
    ensures LockInv(CommandApply(sys, c, step)) && SilentInv(CommandApply(sys, c, step))
  {
  }

  lemma CommandWrites(sys: System, c: nat, step: CommandStep)
    requires HelpersInv(sys) && WrittenInv(sys) && OwnersInv(sys) && CommandEnabled(sys, c, step)
    ensures WrittenInv(CommandApply(sys, c, step))
  {
  }

  lemma CommandNames(sys: System, c: nat, step: CommandStep, id: MarkerId)
    requires HelpersInv(sys) && WrittenInv(sys) && NamesOnlyItsOwn(sys, id) && CommandEnabled(sys, c, step)
    requires !(Writes(step) && step.id == id)
    ensures NamesOnlyItsOwn(CommandApply(sys, c, step), id)
  {
  }

  lemma NewMarkerNames(sys: System, c: nat, step: CommandStep)
    requires HelpersInv(sys) && CommandEnabled(sys, c, step) && Writes(step)
    ensures NamesOnlyItsOwn(CommandApply(sys, c, step), step.id)
  {
  }

  lemma OwnMarker(sys: System, c: nat, step: CommandStep)
    requires WrittenInv(sys) && CommandEnabled(sys, c, step) && OwnsItsMarker(sys, sys.commands[c])
    ensures OwnsItsMarker(CommandApply(sys, c, step), NextCommand(sys, c, step))
  {
  }

  lemma OtherMarker(sys: System, c: nat, step: CommandStep, command: CommandState)
    requires WrittenInv(sys) && CommandEnabled(sys, c, step) && OwnsItsMarker(sys, sys.commands[c])
    requires OwnsItsMarker(sys, command) && command.helper != sys.commands[c].helper
    ensures OwnsItsMarker(CommandApply(sys, c, step), command)
  {
  }

  lemma CommandOwners(sys: System, c: nat, step: CommandStep)
    requires HelpersInv(sys) && WrittenInv(sys) && OwnersInv(sys) && CommandEnabled(sys, c, step)
    ensures OwnersInv(CommandApply(sys, c, step))
  {
    var sys' := CommandApply(sys, c, step);
    forall id | id in sys'.written ensures NamesOnlyItsOwn(sys', id) {
      if Writes(step) && step.id == id {
        NewMarkerNames(sys, c, step);
      } else {
        assert NamesOnlyItsOwn(sys, id);
        CommandNames(sys, c, step, id);
      }
    }
    OwnMarker(sys, c, step);
    forall d | d in sys'.commands && d != c ensures OwnsItsMarker(sys', sys'.commands[d]) {
      OtherMarker(sys, c, step, sys.commands[d]);
    }
  }

  lemma CommandCancels(sys: System, c: nat, step: CommandStep, k: nat)
    requires LockInv(sys) && WrittenInv(sys) && CommandEnabled(sys, c, step)
    requires k in sys.cancels && CancelInv(sys, sys.cancels[k])
    ensures CancelInv(CommandApply(sys, c, step), sys.cancels[k])
  {
    CancelKeeps(sys, CommandApply(sys, c, step), sys.cancels[k]);
  }

  lemma CommandPreserves(sys: System, c: nat, step: CommandStep)
    requires Inv(sys) && CommandEnabled(sys, c, step)
    ensures Inv(CommandApply(sys, c, step))
  {
    var sys' := CommandApply(sys, c, step);
    CommandHelpers(sys, c, step);
    CommandLocks(sys, c, step);
    CommandWrites(sys, c, step);
    CommandOwners(sys, c, step);
    SentKept(sys, sys');
    forall k | k in sys'.cancels { CommandCancels(sys, c, step, k); }
  }

  // ------------------------------------------------------------------ a cancel

  lemma CheckOwn(sys: System, pending: seq<MarkerId>, locked: seq<LockedMarker>, groupLive: bool)
    requires CancelInv(sys, Checking(pending, locked))
    ensures CancelInv(sys, Checked(sys, pending, locked, groupLive))
  {
  }

  /** One marker is removed, or left because its removal failed. */
  predicate Drops(sys: System, sys': System, id: MarkerId) {
    && sys'.written == sys.written && sys'.retired == sys.retired
    && ((sys'.markers == sys.markers - {id} && sys'.stuck == sys.stuck)
        || (sys'.markers == sys.markers && sys'.stuck == sys.stuck + {id}))
  }

  lemma DropLeavesOthers(sys: System, sys': System, id: MarkerId, m: LockedMarker)
    requires Drops(sys, sys', id) && m.id != id && Holds(sys, m)
    ensures Holds(sys', m)
  {
  }

  lemma DropRemoves(sys: System, sys': System, id: MarkerId, gone: MarkerId)
    requires Drops(sys, sys', id)
    requires Gone(sys, gone) || (gone == id && id in sys.written && id !in sys.retired)
    ensures Gone(sys', gone)
  {
  }

  lemma RemoveOwn(sys: System, sys': System, locked: seq<LockedMarker>, next: nat)
    requires CancelInv(sys, Removing(locked, next)) && next < |locked|
    requires Drops(sys, sys', locked[next].id) && locked[next].id in sys.written && locked[next].id !in sys.retired
    ensures CancelInv(sys', Removing(locked, next + 1))
  {
    forall i | next + 1 <= i < |locked| ensures Holds(sys', locked[i]) {
      DropLeavesOthers(sys, sys', locked[next].id, locked[i]);
    }
    forall i | 0 <= i < next + 1 ensures Gone(sys', locked[i].id) {
      assert i < next ==> Gone(sys, locked[i].id);
      DropRemoves(sys, sys', locked[next].id, locked[i].id);
    }
  }

  lemma RemoveStep(sys: System, k: nat, removes: bool)
    requires WrittenInv(sys) && CancelEnabled(sys, k, RemoveMarker(removes)) && CancelInv(sys, sys.cancels[k])
    ensures CancelInv(CancelApply(sys, k, RemoveMarker(removes)), NextCancel(sys, k, RemoveMarker(removes)))
  {
    var Removing(locked, next) := sys.cancels[k];
    if next < |locked| {
      assert Holds(sys, locked[next]);
      RemoveOwn(sys, CancelApply(sys, k, RemoveMarker(removes)), locked, next);
    }
  }

  /** All other steps of a cancel leave the markers alone. */
  lemma KeepsOwn(sys: System, k: nat, step: CancelStep)
    requires CancelEnabled(sys, k, step) && CancelInv(sys, sys.cancels[k])
    requires !step.RemoveMarker?
    ensures CancelInv(sys, NextCancel(sys, k, step))
  {
    if step.CheckMarker? {
      CheckOwn(sys, sys.cancels[k].pending, sys.cancels[k].locked, step.groupLive);
    }
  }

  lemma CancelOwn(sys: System, k: nat, step: CancelStep)
    requires WrittenInv(sys) && CancelEnabled(sys, k, step) && CancelInv(sys, sys.cancels[k])
    ensures CancelInv(CancelApply(sys, k, step), NextCancel(sys, k, step))
  {
    if step.RemoveMarker? {
      RemoveStep(sys, k, step.removes);
    } else {
      KeepsOwn(sys, k, step);
      CancelKeeps(sys, CancelApply(sys, k, step), NextCancel(sys, k, step));
    }
  }

  lemma CancelLock(sys: System, k: nat, step: CancelStep)
    requires LockInv(sys) && CancelEnabled(sys, k, step)
    ensures LockInv(CancelApply(sys, k, step))
  {
  }

  lemma CancelSilent(sys: System, k: nat, step: CancelStep)
    requires SilentInv(sys) && CancelEnabled(sys, k, step)
    ensures SilentInv(CancelApply(sys, k, step))
  {
  }

  lemma CancelHelpers(sys: System, k: nat, step: CancelStep)
    requires HelpersInv(sys) && CancelEnabled(sys, k, step)
    ensures HelpersInv(CancelApply(sys, k, step))
  {
    var sys' := CancelApply(sys, k, step);
    forall h | Held(sys', h) ensures Present(sys'.processes, h) {
      assert Held(sys, h);
      assert Present(sys.processes, h);
    }
  }

  lemma CancelMarkers(sys: System, k: nat, step: CancelStep)
    requires WrittenInv(sys) && OwnersInv(sys) && CancelEnabled(sys, k, step)
    ensures WrittenInv(CancelApply(sys, k, step)) && OwnersInv(CancelApply(sys, k, step))
  {
    var sys' := CancelApply(sys, k, step);
    forall id | id in sys'.written ensures NamesOnlyItsOwn(sys', id) { assert NamesOnlyItsOwn(sys, id); }
  }

  /** The marker is still there when the signal is sent, because the cancel holds the lock; and a helper
      the pool has still has its process id. */
  lemma SentOnTarget(sys: System, k: nat, step: CancelStep)
    requires HelpersInv(sys) && WrittenInv(sys) && Signals(sys, k, step) && CancelInv(sys, sys.cancels[k])
    ensures var cancel := sys.cancels[k]; OnTarget(sys, SignalTo(sys, k, cancel.locked[cancel.next], cancel.whole))
  {
    var Aiming(locked, next, whole) := sys.cancels[k];
    assert Holds(sys, locked[next]);
    ParseFormatted(sys.written[locked[next].id]);
    if Held(sys, locked[next].helper) { assert Present(sys.processes, locked[next].helper); }
  }

  lemma CancelSent(sys: System, k: nat, step: CancelStep)
    requires HelpersInv(sys) && WrittenInv(sys) && SentInv(sys) && CancelEnabled(sys, k, step)
    requires CancelInv(sys, sys.cancels[k])
    ensures SentInv(CancelApply(sys, k, step))
  {
    var sys' := CancelApply(sys, k, step);
    forall i | 0 <= i < |sys'.signals| ensures OnTarget(sys', sys'.signals[i]) {
      if i < |sys.signals| {
        assert sys'.signals[i] == sys.signals[i];
      } else {
        SentOnTarget(sys, k, step);
      }
      TargetKept(sys, sys', sys'.signals[i]);
    }
  }

  lemma CancelOthers(sys: System, k: nat, step: CancelStep, other: nat)
    requires LockInv(sys) && WrittenInv(sys) && CancelEnabled(sys, k, step)
    requires other in sys.cancels && other != k && CancelInv(sys, sys.cancels[other])
    ensures CancelInv(CancelApply(sys, k, step), sys.cancels[other])
  {
    CancelKeeps(sys, CancelApply(sys, k, step), sys.cancels[other]);
  }

  lemma CancelPreserves(sys: System, k: nat, step: CancelStep)
    requires Inv(sys) && CancelEnabled(sys, k, step)
    ensures Inv(CancelApply(sys, k, step))
  {
    var sys' := CancelApply(sys, k, step);
    CancelHelpers(sys, k, step);
    CancelLock(sys, k, step);
    CancelSilent(sys, k, step);
    CancelMarkers(sys, k, step);
    CancelSent(sys, k, step);
    CancelOwn(sys, k, step);
    forall other | other in sys'.cancels && other != k { CancelOthers(sys, k, step, other); }
  }

  lemma BeginLocks(sys: System, k: nat)
    requires LockInv(sys) && SilentInv(sys) && k !in sys.begun
    ensures LockInv(Begun(sys, k)) && SilentInv(Begun(sys, k))
  {
  }

  lemma BeginMarkers(sys: System, k: nat)
    requires HelpersInv(sys) && WrittenInv(sys) && OwnersInv(sys)
    ensures var sys' := Begun(sys, k); HelpersInv(sys') && WrittenInv(sys') && OwnersInv(sys')
  {
    var sys' := Begun(sys, k);
    forall h | Held(sys', h) ensures Present(sys'.processes, h) { assert Held(sys, h); }
    forall id | id in sys'.written ensures NamesOnlyItsOwn(sys', id) { assert NamesOnlyItsOwn(sys, id); }
  }

  lemma BeginPreserves(sys: System, k: nat)
    requires Inv(sys) && k !in sys.begun
    ensures Inv(Begun(sys, k))
  {
    var sys' := Begun(sys, k);
    BeginLocks(sys, k);
    BeginMarkers(sys, k);
    SentKept(sys, sys');
    forall other | other in sys'.cancels && other != k ensures CancelInv(sys', sys'.cancels[other]) {
      CancelKeeps(sys, sys', sys.cancels[other]);
    }
  }

  lemma StepPreservesInv(sys: System, action: Action)
    requires Inv(sys) && Enabled(sys, action)
    ensures Inv(Apply(sys, action))
  {
    match action
    case Host(step) => HostPreserves(sys, step);
    case Pool(step) => PoolPreserves(sys, step);
    case Command(c, step) => CommandPreserves(sys, c, step);
    case Cancel(k, step) => CancelPreserves(sys, k, step);
    case BeginCancel(k) => BeginPreserves(sys, k);
  }

  lemma {:induction false} RunPreservesInv(sys: System, run: seq<Action>, sys': System)
    requires Inv(sys) && RunsTo(sys, run, sys')
    ensures Inv(sys')
    decreases |run|
  {
    if run != [] {
      StepPreservesInv(sys, run[0]);
      RunPreservesInv(Apply(sys, run[0]), run[1..], sys');
    }
  }

  lemma InitialInv()
    ensures Inv(INITIAL)
  {
  }

  lemma ReachableInv(sys: System)
    requires Reachable(sys)
    ensures Inv(sys)
  {
    InitialInv();
    var run :| RunsTo(INITIAL, run, sys);
    RunPreservesInv(INITIAL, run, sys);
  }

  // -------------------------------------------------------------------- theorems

  /** The marker and helper whose group a cancel is about to signal: the identity was checked, the kill
      comes next. */
  ghost predicate AboutToKill(sys: System, k: nat, id: MarkerId, helper: Helper) {
    && CancelEnabled(sys, k, Kill(true))
    && var Aiming(locked, next, whole) := sys.cancels[k];
    whole && locked[next].id == id && locked[next].helper == helper
  }

  /** Every signal aimed through a marker is meant for a helper that has not been returned for reuse:
      the marker is still in place, the helper is not idle, and the only command that can be using it is
      the one that published the marker, still running or about to discard the helper. The exception
      is a marker in place although its publish reported failure. */
  lemma SignalsTargetPublishedCommands(sys: System, k: nat, id: MarkerId, helper: Helper)
    requires Reachable(sys) && id !in sys.late && AboutToKill(sys, k, id, helper)
    ensures id in sys.markers && ParseIdentity(sys.markers[id]) == Some(helper)
    ensures helper !in sys.idle
    ensures forall c | c in sys.commands && sys.commands[c].helper == helper ::
      sys.commands[c] == Running(helper, Some(id)) || sys.commands[c] == Releasing(helper, false)
  {
    ReachableInv(sys);
    AimedAtWritten(sys, k, id, helper);
    assert NamesOnlyItsOwn(sys, id);
  }

  lemma AimedAtWritten(sys: System, k: nat, id: MarkerId, helper: Helper)
    requires Inv(sys) && AboutToKill(sys, k, id, helper)
    ensures id in sys.markers && ParseIdentity(sys.markers[id]) == Some(helper)
    ensures id in sys.written && sys.written[id] == helper && id !in sys.retired
  {
    var Aiming(locked, next, whole) := sys.cancels[k];
    assert CancelInv(sys, sys.cancels[k]);
    assert Holds(sys, locked[next]);
    ParseFormatted(sys.written[id]);
  }

  /** Over every run: each signal ever sent was meant for the helper its marker was written for, and if
      the pool still had that helper at that moment, then whatever happened since the identity was
      checked, the signal reached that very process and no other. */
  lemma SignalsHitTheirHelper(sys: System, i: nat)
    requires Reachable(sys) && i < |sys.signals|
    ensures var signal := sys.signals[i];
            && signal.marker in sys.written && signal.helper == sys.written[signal.marker]
            && signal.helper in sys.spawned && signal.helper !in sys.foreign
            && (signal.whole && signal.held ==> signal.hit == Some(signal.helper))
            && (!signal.whole ==> signal.hit.None?)
  {
    ReachableInv(sys);
    assert OnTarget(sys, sys.signals[i]);
  }

  /** The pool lets go of the helper: its command releases it, it is discarded, or the daemon goes down. */
  predicate LetsGo(sys: System, action: Action, helper: Helper) {
    match action
    case Host(step) => step.Crash?
    case Pool(Release(c, _)) => c in sys.commands && sys.commands[c].helper == helper
    case Pool(Discard(h)) => h == helper
    case _ => false
  }

  /** Steps of anyone but the cancel, in none of which the pool lets go of the helper or the daemon goes
      down. */
  ghost predicate Meanwhile(sys: System, run: seq<Action>, k: nat, helper: Helper, sys': System)
    decreases |run|
  {
    if run == [] then sys' == sys
    else
      && Enabled(sys, run[0]) && !LetsGo(sys, run[0], helper)
      && !(run[0].Cancel? && run[0].cancel == k)
      && Meanwhile(Apply(sys, run[0]), run[1..], k, helper, sys')
  }

  /** A kill sent now would reach a process that is not the helper. */
  predicate HitsStranger(sys: System, helper: Helper) {
    var hit := HitBy(sys.processes, helper.pid);
    hit.Some? && hit.value != helper
  }

  lemma StillHeld(sys: System, action: Action, helper: Helper)
    requires Held(sys, helper) && Enabled(sys, action) && !LetsGo(sys, action, helper)
    ensures Held(Apply(sys, action), helper)
  {
    var sys' := Apply(sys, action);
    if helper !in sys.idle {
      var c :| c in sys.commands && sys.commands[c].helper == helper;
      assert c in sys'.commands && sys'.commands[c].helper == helper;
    } else if action.Pool? && action.pool.Claim? && action.pool.helper == helper {
      assert sys'.commands[action.pool.command].helper == helper;
    }
  }

  lemma StillAiming(sys: System, action: Action, k: nat)
    requires SilentInv(sys) && k in sys.cancels && Enabled(sys, action) && action != Host(Crash)
    requires !(action.Cancel? && action.cancel == k)
    ensures var sys' := Apply(sys, action); k in sys'.cancels && sys'.cancels[k] == sys.cancels[k]
  {
    match action
    case Host(step) => assert !step.Crash?;
    case Pool(step) =>
    case Command(c, step) =>
    case BeginCancel(other) =>
    case Cancel(other, step) =>
  }

  /** A helper the pool has stays there, and the cancel stays about to kill, until the pool lets go. */
  lemma {:induction false} MeanwhileKeeps(sys: System, run: seq<Action>, k: nat, helper: Helper, sys': System)
    requires Inv(sys) && k in sys.cancels && Meanwhile(sys, run, k, helper, sys')
    ensures Inv(sys') && (Held(sys, helper) ==> Held(sys', helper))
    ensures k in sys'.cancels && sys'.cancels[k] == sys.cancels[k]
    decreases |run|
  {
    if run != [] {
      StepPreservesInv(sys, run[0]);
      StillAiming(sys, run[0], k);
      if Held(sys, helper) { StillHeld(sys, run[0], helper); }
      MeanwhileKeeps(Apply(sys, run[0]), run[1..], k, helper, sys');
    }
  }

  /** A start time the process id has not had yet. */
  lemma {:induction false} UnusedStart(used: set<Helper>, pid: nat) returns (start: nat)
    ensures forall h | h in used && h.pid == pid :: h.start < start
    decreases |used|
  {
    if used == {} {
      start := 0;
    } else {
      var h :| h in used;
      var rest := UnusedStart(used - {h}, pid);
      start := if rest <= h.start then h.start + 1 else rest;
      forall g | g in used && g.pid == pid ensures g.start < start {
        assert g == h || g in used - {h};
      }
    }
  }

  lemma Then(sys: System, action: Action, run: seq<Action>, k: nat, helper: Helper, sys': System)
    requires Enabled(sys, action) && !LetsGo(sys, action, helper) && !(action.Cancel? && action.cancel == k)
    requires Meanwhile(Apply(sys, action), run, k, helper, sys')
    ensures Meanwhile(sys, [action] + run, k, helper, sys')
  {
    assert ([action] + run)[0] == action && ([action] + run)[1..] == run;
  }

  /** A free process id can be taken by a stranger. */
  lemma StrangerAppears(sys: System, k: nat, helper: Helper) returns (run: seq<Action>, sys': System)
    requires helper.pid !in sys.processes && helper in sys.spawned
    ensures Meanwhile(sys, run, k, helper, sys') && HitsStranger(sys', helper)
  {
    var start := UnusedStart(sys.spawned + sys.foreign, helper.pid);
    var appear := Host(Appear(helper.pid, start, true));
    sys' := Apply(sys, appear);
    assert Meanwhile(sys', [], k, helper, sys');
    Then(sys, appear, [], k, helper, sys');
    run := [appear] + [];
  }

  /** A process the pool does not have can exit and be reaped, after which its id is free. */
  lemma IdIsFreed(sys: System, k: nat, helper: Helper) returns (run: seq<Action>, sys': System)
    requires helper.pid in sys.processes && helper in sys.spawned
    requires !Held(sys, Helper(helper.pid, sys.processes[helper.pid].start))
    ensures Meanwhile(sys, run, k, helper, sys') && HitsStranger(sys', helper)
  {
    var exit, reap := Host(Exit(helper.pid)), Host(Reap(helper.pid));
    var exited := Apply(sys, exit);
    var process := Helper(helper.pid, sys.processes[helper.pid].start);
    assert !Held(exited, process) by { HeldByCommands(sys, exited, process); }
    var freed := Apply(exited, reap);
    var rest, end := StrangerAppears(freed, k, helper);
    sys' := end;
    Then(exited, reap, rest, k, helper, sys');
    Then(sys, exit, [reap] + rest, k, helper, sys');
    run := [exit] + ([reap] + rest);
  }

  /** A helper the pool no longer has can be replaced behind the cancel's back. */
  lemma UnheldIsMissed(sys: System, k: nat, helper: Helper) returns (run: seq<Action>, sys': System)
    requires HelpersInv(sys) && helper in sys.spawned && !Held(sys, helper)
    ensures Meanwhile(sys, run, k, helper, sys') && HitsStranger(sys', helper)
  {
    if helper.pid !in sys.processes {
      run, sys' := StrangerAppears(sys, k, helper);
    } else if Held(sys, Helper(helper.pid, sys.processes[helper.pid].start)) {
      run, sys' := [], sys;
    } else {
      run, sys' := IdIsFreed(sys, k, helper);
    }
  }

  /** When the kill after the check is safe. If the pool has the helper when the cancel is about to kill,
      any steps of others that keep it so leave the kill aimed at that very process. If the pool has let
      it go, the steps of others can put a stranger under its process id, and the kill reaches that.
      For a marker whose publish succeeded, the pool has the helper exactly while the command that
      published it is running or has yet to release it. */
  lemma KillIsSafeIffHeld(sys: System, k: nat, id: MarkerId, helper: Helper)
    requires Reachable(sys) && AboutToKill(sys, k, id, helper)
    ensures forall run, sys' | Meanwhile(sys, run, k, helper, sys') :: AboutToKill(sys', k, id, helper)
    ensures Held(sys, helper) ==>
      forall run, sys' | Meanwhile(sys, run, k, helper, sys') :: HitBy(sys'.processes, helper.pid) == Some(helper)
    ensures !Held(sys, helper) ==>
      exists run, sys' :: Meanwhile(sys, run, k, helper, sys') && HitsStranger(sys', helper)
    ensures id !in sys.late ==>
      (Held(sys, helper) <==>
       exists c :: c in sys.commands &&
         (sys.commands[c] == Running(helper, Some(id)) || sys.commands[c] == Releasing(helper, false)))
  {
    ReachableInv(sys);
    AimedAtWritten(sys, k, id, helper);
    forall run, sys' | Meanwhile(sys, run, k, helper, sys')
      ensures AboutToKill(sys', k, id, helper)
      ensures Held(sys, helper) ==> HitBy(sys'.processes, helper.pid) == Some(helper)
    {
      MeanwhileKeeps(sys, run, k, helper, sys');
      assert Held(sys', helper) ==> Present(sys'.processes, helper);
    }
    if !Held(sys, helper) {
      var run, sys' := UnheldIsMissed(sys, k, helper);
    }
    if id !in sys.late { SignalsTargetPublishedCommands(sys, k, id, helper); }
  }

  /** A marker in place although its publish reported failure is no command's: retiring it is nobody's
      task, and no command is running under it. */
  lemma LateMarkersAreNobodys(sys: System, c: nat, id: MarkerId)
    requires Reachable(sys) && c in sys.commands && id in sys.late
    ensures MarkerOf(sys.commands[c]) != Some(id)
  {
    ReachableInv(sys);
    assert OwnsItsMarker(sys, sys.commands[c]);
  }

  /** Once a cancel has returned Ok, a marker it signalled is gone and was never found by a finish, unless
      its removal failed. Its helper is not idle and, unless its publish had reported failure, stays in the
      hands of its own command at most: finishing finds no marker and answers false, and releasing the
      helper discards it. */
  lemma CancelledCommandsAreNotReused(sys: System, k: nat, id: MarkerId)
    requires Reachable(sys) && k in sys.cancels && sys.cancels[k].Returned? && sys.cancels[k].verdict.Ok?
    requires id in sys.cancels[k].signalled && id !in sys.stuck
    ensures id in sys.written && id !in sys.markers && id !in sys.retired
    ensures id !in sys.late ==>
      && sys.written[id] !in sys.idle
      && forall c | c in sys.commands && sys.commands[c].helper == sys.written[id] :: sys.commands[c].MayOwn(id)
    ensures forall c | c in sys.commands && sys.commands[c].Finishing? && sys.commands[c].marker == id ::
      FinishAnswer(sys, sys.commands[c].helper, id).Cancelled?
    ensures forall c, keep | PoolEnabled(sys, Release(c, keep)) && id !in sys.late
      && sys.commands[c].helper == sys.written[id] :: !Keeps(sys, c, keep)
  {
    ReachableInv(sys);
    assert CancelInv(sys, sys.cancels[k]);
    assert Gone(sys, id);
    assert NamesOnlyItsOwn(sys, id);
  }

  lemma FinishStep(sys: System, c: nat, fails: bool)
    requires WrittenInv(sys) && c in sys.commands && sys.commands[c].Finishing? && OwnsItsMarker(sys, sys.commands[c])
    ensures var id := sys.commands[c].marker;
            var finished := CommandApply(sys, c, if fails then FinishFails else FinishMarker);
            && finished.commands[c].Settled? && finished.commands[c].helper == sys.commands[c].helper
            && (finished.commands[c].finish.Cancelled? <==> !fails && id !in sys.markers)
            && (finished.commands[c].finish.Retired? <==> !fails && id in sys.markers)
            && (id in finished.markers <==> fails && id in sys.markers)
  {
  }

  lemma LeaveStep(sys: System, c: nat, fails: bool)
    requires c in sys.commands && sys.commands[c].Settled?
    ensures var left := CommandApply(sys, c, if fails then UnlockFails else Unlock);
            && left.markers == sys.markers
            && left.commands[c] == Releasing(sys.commands[c].helper, !fails && sys.commands[c].finish.Retired?)
  {
  }

  /** Finishing answers false exactly when the marker is not there, unless reading or removing it fails;
      and the helper is released for reuse exactly when the marker was found, removed and the lock given
      back without error. */
  lemma FinishTells(sys: System, c: nat, finishFails: bool, unlockFails: bool)
    requires Reachable(sys) && c in sys.commands && sys.commands[c].Finishing?
    ensures var finished := CommandApply(sys, c, if finishFails then FinishFails else FinishMarker);
            var left := CommandApply(finished, c, if unlockFails then UnlockFails else Unlock);
            var id := sys.commands[c].marker;
            && (finished.commands[c].finish.Cancelled? <==> !finishFails && id !in sys.markers)
            && (id in left.markers <==> finishFails && id in sys.markers)
            && left.commands[c] == Releasing(sys.commands[c].helper, !finishFails && !unlockFails && id in sys.markers)
  {
    ReachableInv(sys);
    FinishStep(sys, c, finishFails);
    LeaveStep(CommandApply(sys, c, if finishFails then FinishFails else FinishMarker), c, unlockFails);
  }

  /** A cancel that met a malformed marker, or one whose identity did not check, sent no signal. */
  lemma RefusedCancelSendsNothing(sys: System, k: nat)
    requires Reachable(sys) && k in sys.cancels
    requires sys.cancels[k].Returned? && sys.cancels[k].verdict.Invalid?
    ensures forall i | 0 <= i < |sys.signals| :: sys.signals[i].cancel != k
  {
    ReachableInv(sys);
  }

  /** A helper put back in the pool has no marker left that a later cancel could signal through. */
  lemma IdleHelpersHaveNoMarker(sys: System, helper: Helper, id: MarkerId)
    requires Reachable(sys) && helper in sys.idle && id in sys.markers && id !in sys.late
    ensures ParseIdentity(sys.markers[id]) != Some(helper)
  {
    ReachableInv(sys);
    if id in sys.written {
      assert NamesOnlyItsOwn(sys, id);
      ParseFormatted(sys.written[id]);
    }
  }

  // ------------------------------------------------------------ the exceptions happen

  lemma {:induction false} RunExtend(sys: System, run: seq<Action>, mid: System, action: Action)
    requires RunsTo(sys, run, mid) && Enabled(mid, action)
    ensures RunsTo(sys, run + [action], Apply(mid, action))
    decreases |run|
  {
    if run != [] {
      RunExtend(Apply(sys, run[0]), run[1..], mid, action);
      assert (run + [action])[1..] == run[1..] + [action];
    }
  }

  lemma Step(sys: System, action: Action) returns (sys': System)
    requires Reachable(sys) && Enabled(sys, action)
    ensures sys' == Apply(sys, action) && Reachable(sys')
  {
    var run :| RunsTo(INITIAL, run, sys);
    RunExtend(INITIAL, run, sys, action);
    sys' := Apply(sys, action);
  }

  /** The host with one helper, one marker for it, and nothing else. */
  ghost predicate OneMarker(sys: System, helper: Helper) {
    && Reachable(sys)
    && 1 < helper.pid <= U32_MAX && helper.start <= U64_MAX
    && sys.processes == map[helper.pid := Process(helper.start, false, true)]
    && sys.markers == map[0 := FormatIdentity(helper)]
    && sys.signals == [] && sys.spawned == {helper} && sys.foreign == {}
  }

  lemma LockedForPublish(helper: Helper) returns (sys: System)
    requires 1 < helper.pid <= U32_MAX && helper.start <= U64_MAX
    ensures Reachable(sys)
    ensures sys == INITIAL.(processes := map[helper.pid := Process(helper.start, false, true)], spawned := {helper},
                            commands := map[0 := Publishing(helper)], lock := Some(ByCommand(0)))
  {
    assert RunsTo(INITIAL, [], INITIAL);
    var s1 := Step(INITIAL, Pool(Spawn(0, helper)));
    assert s1.commands == map[0 := Claimed(helper)];
    sys := Step(s1, Command(0, LockForPublish));
    assert sys.commands == map[0 := Publishing(helper)];
  }

  lemma RunningWithMarker(helper: Helper) returns (sys: System)
    requires 1 < helper.pid <= U32_MAX && helper.start <= U64_MAX
    ensures OneMarker(sys, helper) && sys.cancels == map[] && sys.begun == {} && sys.lock.None?
    ensures sys.commands == map[0 := Running(helper, Some(0))] && sys.late == {} && sys.idle == {}
  {
    var s1 := LockedForPublish(helper);
    var s2 := Step(s1, Command(0, WriteMarker(0)));
    assert s2.commands == map[0 := Published(helper, 0)];
    sys := Step(s2, Command(0, Unlock));
  }

  /** The host after a publish that left its marker and reported failure. */
  ghost predicate PublishedLate(sys: System, helper: Helper) {
    && OneMarker(sys, helper) && sys.cancels == map[] && sys.begun == {} && sys.lock.None?
    && sys.commands == map[0 := Running(helper, None)] && sys.late == {0} && sys.idle == {}
  }

  lemma UnlockFailsLate(helper: Helper) returns (sys: System)
    requires 1 < helper.pid <= U32_MAX && helper.start <= U64_MAX
    ensures PublishedLate(sys, helper)
  {
    var s1 := LockedForPublish(helper);
    var s2 := Step(s1, Command(0, WriteMarker(0)));
    assert s2.commands == map[0 := Published(helper, 0)];
    sys := Step(s2, Command(0, UnlockFails));
  }

  lemma SyncFailsLate(helper: Helper) returns (sys: System)
    requires 1 < helper.pid <= U32_MAX && helper.start <= U64_MAX
    ensures PublishedLate(sys, helper)
  {
    var s1 := LockedForPublish(helper);
    var s2 := Step(s1, Command(0, WriteFailsLate(0)));
    assert s2.commands == map[0 := PublishFailed(helper)];
    sys := Step(s2, Command(0, Unlock));
  }

  lemma IdleWithMarker(sys: System, helper: Helper) returns (sys': System)
    requires PublishedLate(sys, helper)
    ensures OneMarker(sys', helper) && sys'.cancels == map[] && sys'.begun == {} && sys'.lock.None?
    ensures sys'.late == {0} && sys'.idle == {helper}
  {
    var s1 := Step(sys, Command(0, EndUnpublished(true)));
    assert s1.commands == map[0 := Releasing(helper, true)];
    sys' := Step(s1, Pool(Release(0, true)));
  }

  function LiveMarker(helper: Helper): LockedMarker {
    LockedMarker(0, FormatIdentity(helper), helper, true)
  }

  lemma ListTheOnlyMarker(sys: System, helper: Helper) returns (sys': System)
    requires OneMarker(sys, helper) && sys.cancels == map[] && sys.begun == {} && sys.lock.None?
    ensures Reachable(sys')
    ensures sys' == sys.(cancels := map[0 := Checking([0], [])], begun := {0}, lock := Some(ByCancel(0)))
  {
    var s1 := Step(sys, BeginCancel(0));
    sys' := Step(s1, Cancel(0, ListMarkers([0])));
    assert sys'.cancels == map[0 := Checking([0], [])];
  }

  /** A check that moves the only cancel on changes nothing else. */
  lemma CheckStep(sys: System, from: CancelState, next: CancelState) returns (sys': System)
    requires Reachable(sys) && sys.cancels == map[0 := from] && from.Checking?
    requires Checked(sys, from.pending, from.locked, false) == next
    ensures Reachable(sys') && sys' == sys.(cancels := map[0 := next])
  {
    sys' := Step(sys, Cancel(0, CheckMarker(false)));
    assert sys'.cancels == map[0 := next];
  }

  lemma CheckTheOnlyMarker(sys: System, helper: Helper) returns (sys': System)
    requires OneMarker(sys, helper) && sys.cancels == map[0 := Checking([0], [])]
    ensures Reachable(sys') && sys' == sys.(cancels := map[0 := Signalling([LiveMarker(helper)], 0)])
  {
    CheckedLive(sys, helper);
    var checked := CheckStep(sys, Checking([0], []), Checking([], [LiveMarker(helper)]));
    AllChecked(checked, helper);
    sys' := CheckStep(checked, Checking([], [LiveMarker(helper)]), Signalling([LiveMarker(helper)], 0));
  }

  lemma CheckedLive(sys: System, helper: Helper)
    requires OneMarker(sys, helper)
    ensures Checked(sys, [0], [], false) == Checking([], [LiveMarker(helper)])
  {
    ParseFormatted(helper);
  }

  lemma AllChecked(sys: System, helper: Helper)
    ensures Checked(sys, [], [LiveMarker(helper)], false) == Signalling([LiveMarker(helper)], 0)
  {
    assert [LiveMarker(helper)][0].live;
  }

  /** A cancel that starts with one live marker gets as far as the kill. */
  lemma AimThroughMarker(sys: System, helper: Helper) returns (sys': System)
    requires OneMarker(sys, helper) && sys.cancels == map[] && sys.begun == {} && sys.lock.None?
    ensures Reachable(sys') && AboutToKill(sys', 0, 0, helper)
    ensures sys' == sys.(cancels := map[0 := Aiming([LiveMarker(helper)], 0, true)], begun := {0},
                         lock := Some(ByCancel(0)))
  {
    var s1 := ListTheOnlyMarker(sys, helper);
    var s2 := CheckTheOnlyMarker(s1, helper);
    sys' := Step(s2, Cancel(0, Recheck));
    assert sys'.cancels == map[0 := Aiming([LiveMarker(helper)], 0, true)];
  }

  /** The exception is needed: a publish that reports failure after putting its marker in place, be it
      the directory sync or the unlock that failed, leaves a marker nobody retires, and a later cancel
      signals a helper that is idle in the pool. */
  lemma LatePublishFailureSignalsIdleHelper(helper: Helper, unlockFails: bool) returns (sys: System)
    requires 1 < helper.pid <= U32_MAX && helper.start <= U64_MAX
    ensures Reachable(sys) && sys.late == {0}
    ensures AboutToKill(sys, 0, 0, helper) && helper in sys.idle
  {
    if unlockFails { sys := UnlockFailsLate(helper); } else { sys := SyncFailsLate(helper); }
    sys := IdleWithMarker(sys, helper);
    sys := AimThroughMarker(sys, helper);
  }

  /** So is the condition that the pool has the helper: a command whose finish cannot take the lock
      releases its helper between the cancel's check and its kill, and the kill reaches the process that
      has taken over the process id. */
  lemma ReleasedHelperIsMissed(helper: Helper, start: nat) returns (sys: System)
    requires 1 < helper.pid <= U32_MAX && helper.start <= U64_MAX && start != helper.start
    ensures Reachable(sys)
    ensures sys.signals == [Signal(0, 0, helper, true, false, Some(Helper(helper.pid, start)))]
    ensures sys.late == {} && Helper(helper.pid, start) in sys.foreign
  {
    var s1 := RunningWithMarker(helper);
    var s2 := AimThroughMarker(s1, helper);
    var s3 := ReleasedWhileAiming(s2, helper);
    var s4 := IdTakenOver(s3, helper, start);
    sys := KillThroughMarker(s4, helper);
  }

  lemma IdTakenOver(sys: System, helper: Helper, start: nat) returns (sys': System)
    requires Reachable(sys) && sys.processes == map[] && sys.spawned == {helper} && sys.foreign == {}
    requires start != helper.start
    ensures Reachable(sys')
    ensures sys' == sys.(processes := map[helper.pid := Process(start, false, true)],
                         foreign := {Helper(helper.pid, start)})
  {
    sys' := Step(sys, Host(Appear(helper.pid, start, true)));
  }

  lemma ReleasedWhileAiming(sys: System, helper: Helper) returns (sys': System)
    requires Reachable(sys) && sys.commands == map[0 := Running(helper, Some(0))]
    requires sys.processes == map[helper.pid := Process(helper.start, false, true)]
    ensures Reachable(sys') && sys' == sys.(commands := map[], processes := map[])
  {
    var s1 := Step(sys, Command(0, LockTimesOut));
    assert s1.commands == map[0 := Releasing(helper, false)];
    sys' := Step(s1, Pool(Release(0, true)));
  }

  lemma KillThroughMarker(sys: System, helper: Helper) returns (sys': System)
    requires Reachable(sys) && sys.cancels == map[0 := Aiming([LiveMarker(helper)], 0, true)] && sys.signals == []
    requires helper.pid in sys.processes && sys.processes[helper.pid].leader
    ensures Reachable(sys')
    ensures sys' == sys.(cancels := map[0 := Signalling([LiveMarker(helper)], 1)],
                         processes := Exited(sys.processes, helper.pid),
                         signals := [SignalTo(sys, 0, LiveMarker(helper), true)])
  {
    sys' := Step(sys, Cancel(0, Kill(true)));
    assert sys'.cancels == map[0 := Signalling([LiveMarker(helper)], 1)];
  }

  /** The exception for a failed removal is needed as well: a cancel can return Ok, and the command it
      signalled then finds its marker and finishes as if it had not been cancelled. */
  lemma StuckMarkerIsRetiredAgain(helper: Helper) returns (sys: System)
    requires 1 < helper.pid <= U32_MAX && helper.start <= U64_MAX
    ensures Reachable(sys) && sys.cancels == map[0 := Returned({0}, Verdict.Ok)]
    ensures sys.commands == map[0 := Finishing(helper, 0)] && FinishAnswer(sys, helper, 0).Retired?
  {
    var s1 := RunningWithMarker(helper);
    var s2 := AimThroughMarker(s1, helper);
    var s3 := KillThroughMarker(s2, helper);
    var s4 := ConfirmTheOnlyMarker(s3, helper);
    var s5 := RemovalFails(s4, helper);
    sys := Step(s5, Command(0, LockForFinish));
  }

  lemma ConfirmTheOnlyMarker(sys: System, helper: Helper) returns (sys': System)
    requires Reachable(sys) && sys.cancels == map[0 := Signalling([LiveMarker(helper)], 1)]
    requires !Matches(sys.processes, helper)
    ensures Reachable(sys') && sys' == sys.(cancels := map[0 := Removing([LiveMarker(helper)], 0)])
  {
    var s1 := Step(sys, Cancel(0, Recheck));
    assert s1.cancels == map[0 := Confirming([LiveMarker(helper)])];
    sys' := Step(s1, Cancel(0, Confirm));
    assert sys'.cancels == map[0 := Removing([LiveMarker(helper)], 0)];
  }

  lemma RemovalFails(sys: System, helper: Helper) returns (sys': System)
    requires Reachable(sys) && sys.cancels == map[0 := Removing([LiveMarker(helper)], 0)]
    ensures Reachable(sys') && sys'.cancels == map[0 := Returned({0}, Verdict.Ok)] && sys'.lock.None?
    ensures sys'.commands == sys.commands && sys'.markers == sys.markers
  {
    var locked := [LiveMarker(helper)];
    var s1 := Step(sys, Cancel(0, RemoveMarker(false)));
    var s2 := Step(s1, Cancel(0, RemoveMarker(false)));
    assert s2.cancels[0] == Leaving(locked, Verdict.Ok);
    sys' := Step(s2, Cancel(0, Return(false)));
    assert LiveIds(locked) == {0} by { assert locked[0].live; }
  }

  // --------------------------------------------------------------- cancel, as code

  function RoundsLeft(cancel: CancelState): nat {
    if (cancel.Signalling? || cancel.Aiming? || cancel.Removing?) && cancel.next <= |cancel.locked|
    then |cancel.locked| - cancel.next else 0
  }

  lemma AimsInRange(sys: System, k: nat)
    requires CancelEnabled(sys, k, Recheck) && NextCancel(sys, k, Recheck).Aiming?
    ensures var cancel := NextCancel(sys, k, Recheck);
            cancel.next < |cancel.locked| && RoundsLeft(cancel) == RoundsLeft(sys.cancels[k])
  {
  }

  lemma ReturnedKnows(sys: System, k: nat)
    requires Reachable(sys) && k in sys.cancels && sys.cancels[k].Returned?
    ensures sys.cancels[k].verdict.Invalid? ==> forall i | 0 <= i < |sys.signals| :: sys.signals[i].cancel != k
    ensures sys.cancels[k].verdict.Ok? ==>
      forall id | id in sys.cancels[k].signalled :: (id !in sys.markers && id !in sys.retired) || id in sys.stuck
  {
    ReachableInv(sys);
    assert CancelInv(sys, sys.cancels[k]);
  }

  /** One workspace, cancelled by one thread while commands, other cancels and the host's processes
      go on between its steps. */
  class Workspace {
    var sys: System

    /** Anything else that can happen, short of the daemon itself going away. */
    method Preempt(k: nat)
      requires Reachable(sys) && k in sys.cancels
      modifies this
      ensures Reachable(sys) && k in sys.cancels && sys.cancels[k] == old(sys.cancels[k])
    {
    }

    method Do(action: Action)
      requires Reachable(sys) && Enabled(sys, action)
      modifies this
      ensures Reachable(sys) && sys == Apply(old(sys), action)
    {
      ghost var run :| RunsTo(INITIAL, run, sys);
      RunExtend(INITIAL, run, sys, action);
      sys := Apply(sys, action);
    }

    /** Reading the marker directory. */
    method ReadDirectory() returns (order: seq<MarkerId>)
      ensures Listing(sys, order)
    {
      order := [];
      var rest := sys.markers.Keys;
      ghost var listed: set<MarkerId> := {};
      while rest != {}
        invariant listed + rest == sys.markers.Keys && listed !! rest
        invariant forall id :: id in order <==> id in listed
        invariant forall i, j | 0 <= i < j < |order| :: order[i] != order[j]
      {
        var id :| id in rest;
        rest := rest - {id};
        order := order + [id];
        listed := listed + {id};
      }
    }

    /** `lock_command_markers`: every marker is read and checked before anything else happens. */
    method CheckAll(k: nat)
      requires Reachable(sys) && k in sys.cancels && sys.cancels[k].Checking?
      modifies this
      ensures Reachable(sys) && k in sys.cancels
      ensures sys.cancels[k].Signalling? || sys.cancels[k].Removing? || sys.cancels[k].Leaving?
    {
      while sys.cancels[k].Checking?
        invariant Reachable(sys) && k in sys.cancels
        invariant var c := sys.cancels[k]; c.Checking? || c.Signalling? || c.Removing? || c.Leaving?
        decreases if sys.cancels[k].Checking? then 1 + |sys.cancels[k].pending| else 0
      {
        Preempt(k);
        var groupLive: bool := *;
        Do(Cancel(k, CheckMarker(groupLive)));
      }
    }

    /** Signal every live group, each after checking its identity once more, then poll until none is left
        or patience runs out. */
    method SignalAll(k: nat, patience: nat)
      requires Reachable(sys) && k in sys.cancels && sys.cancels[k].Signalling?
      modifies this
      ensures Reachable(sys) && k in sys.cancels && (sys.cancels[k].Removing? || sys.cancels[k].Leaving?)
    {
      while sys.cancels[k].Signalling?
        invariant Reachable(sys) && k in sys.cancels
        invariant var c := sys.cancels[k]; c.Signalling? || c.Confirming? || c.Leaving?
        decreases sys.cancels[k].Signalling?, RoundsLeft(sys.cancels[k])
      {
        Preempt(k);
        if CancelEnabled(sys, k, Recheck) && NextCancel(sys, k, Recheck).Aiming? { AimsInRange(sys, k); }
        Do(Cancel(k, Recheck));
        if sys.cancels[k].Aiming? {
          Preempt(k);
          var delivered: bool := *;
          Do(Cancel(k, Kill(delivered)));
        }
      }
      var left := patience;
      while sys.cancels[k].Confirming?
        invariant Reachable(sys) && k in sys.cancels
        invariant var c := sys.cancels[k]; c.Confirming? || c.Removing? || c.Leaving?
        decreases sys.cancels[k].Confirming?, left
      {
        Preempt(k);
        if CancelEnabled(sys, k, Confirm) {
          Do(Cancel(k, Confirm));
        } else if left == 0 {
          Do(Cancel(k, ConfirmTimesOut));
        } else {
          left := left - 1;
        }
      }
    }

    /** Remove every locked marker that is still unchanged. */
    method RemoveAll(k: nat)
      requires Reachable(sys) && k in sys.cancels && (sys.cancels[k].Removing? || sys.cancels[k].Leaving?)
      modifies this
      ensures Reachable(sys) && k in sys.cancels && sys.cancels[k].Leaving?
    {
      while sys.cancels[k].Removing?
        invariant Reachable(sys) && k in sys.cancels && (sys.cancels[k].Removing? || sys.cancels[k].Leaving?)
        decreases sys.cancels[k].Removing?, RoundsLeft(sys.cancels[k])
      {
        Preempt(k);
        var removes: bool := *;
        Do(Cancel(k, RemoveMarker(removes)));
      }
    }

    /** `cancel_locked`, from taking the cancel lock to returning. */
    method CancelLocked(k: nat, patience: nat, unlockFails: bool)
      requires Reachable(sys) && k in sys.cancels && sys.cancels[k].Wanting? && sys.lock.None?
      modifies this
      ensures Reachable(sys) && k in sys.cancels && sys.cancels[k].Returned?
      ensures sys.cancels[k].verdict.Invalid? ==> forall i | 0 <= i < |sys.signals| :: sys.signals[i].cancel != k
      ensures sys.cancels[k].verdict.Ok? ==>
        && !unlockFails
        && forall id | id in sys.cancels[k].signalled :: (id !in sys.markers && id !in sys.retired) || id in sys.stuck
    {
      var order := ReadDirectory();
      Do(Cancel(k, ListMarkers(order)));
      CheckAll(k);
      if sys.cancels[k].Signalling? {
        SignalAll(k, patience);
      }
      RemoveAll(k);
      Do(Cancel(k, Return(unlockFails)));
      ReturnedKnows(sys, k);
    }
  }
}
