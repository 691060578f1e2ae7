/** Shared/exclusive gates with writer preference. */
module Gates {

  datatype Mode = Shared | Exclusive

  datatype GateState = GateState(shared: nat, exclusive: bool, waitingExclusive: nat)

  const FRESH_GATE := GateState(0, false, 0)

  /** The test a thread makes each time round the wait loop. */
  predicate Admits(gate: GateState, mode: Mode) {
    match mode
    case Shared => !gate.exclusive && gate.waitingExclusive == 0
    case Exclusive => !gate.exclusive && gate.shared == 0
  }

  function Decrement(n: nat): nat {
    if n == 0 then 0 else n - 1
  }

  /** Joining the wait loop: an exclusive waiter announces itself. */
  function Enter(gate: GateState, mode: Mode): GateState {
    if mode.Exclusive? then gate.(waitingExclusive := gate.waitingExclusive + 1) else gate
  }

  /** Leaving the wait loop without a guard. */
  function Leave(gate: GateState, mode: Mode): GateState {
    if mode.Exclusive? then gate.(waitingExclusive := Decrement(gate.waitingExclusive)) else gate
  }

  /** Leaving the wait loop with a guard. */
  function Take(gate: GateState, mode: Mode): GateState {
    var left := Leave(gate, mode);
    if mode.Exclusive? then left.(exclusive := true) else left.(shared := left.shared + 1)
  }

  /** Dropping a guard. */
  function Release(gate: GateState, mode: Mode): GateState {
    if mode.Exclusive? then gate.(exclusive := false) else gate.(shared := Decrement(gate.shared))
  }
}

/**
 The lifecycle lease hierarchy as a step system: any number of threads, each somewhere in the
 gate sequence of a request, and possibly in a second request nested under a held global lease.
 */
module Leases {
  import opened Gates

  datatype Scope =
    | Global
    | Sandbox(sandbox: string)
    | Workspace(sandbox: string, workspace: string)

  datatype GateId =
    | GlobalGate
    | WorkspaceGate(sandbox: string, workspace: string)
    | SandboxGate(sandbox: string)

  datatype Claim = Claim(gate: GateId, mode: Mode)

  /** A request: the one a thread makes directly, or the one it nests under its global lease. */
  datatype RequestId = RequestId(thread: nat, nested: bool)

  datatype Phase = Acquiring | Waiting | Granted | Dropping

  /** A request holds the guards of `plan[lo..hi]`. */
  datatype Request = Idle | Active(scope: Scope, lo: nat, hi: nat, phase: Phase)

  datatype System = System(gates: map<GateId, GateState>, requests: map<RequestId, Request>)

  datatype Action =
    | Begin(id: RequestId, scope: Scope)
    | EnterGate(id: RequestId)
    | Admit(id: RequestId)
    | TimeOut(id: RequestId)
    | Finish(id: RequestId)
    | DropGuard(id: RequestId)
    | End(id: RequestId)

  /** The gates `acquire` takes for a scope, in order. */
  function Plan(scope: Scope): seq<Claim> {
    match scope
    case Global => [Claim(GlobalGate, Exclusive)]
    case Sandbox(s) => [Claim(GlobalGate, Shared), Claim(SandboxGate(s), Exclusive)]
    case Workspace(s, w) =>
      [Claim(GlobalGate, Shared), Claim(WorkspaceGate(s, w), Exclusive), Claim(SandboxGate(s), Shared)]
  }

  /** The gates of a request; a nested one skips the global gate (`acquire_workspace_only`). */
  function PlanOf(id: RequestId, scope: Scope): seq<Claim> {
    if id.nested && scope.Workspace? then Plan(scope)[1..] else Plan(scope)
  }

  function Rank(gate: GateId): nat {
    match gate
    case GlobalGate => 0
    case WorkspaceGate(_, _) => 1
    case SandboxGate(_) => 2
  }

  function GateOf(sys: System, gate: GateId): GateState {
    if gate in sys.gates then sys.gates[gate] else FRESH_GATE
  }

  function RequestOf(sys: System, id: RequestId): Request {
    if id in sys.requests then sys.requests[id] else Idle
  }

  const INITIAL := System(map[], map[])

  predicate Holds(id: RequestId, request: Request, claim: Claim) {
    && request.Active?
    && exists k | 0 <= k < |PlanOf(id, request.scope)| ::
      request.lo <= k < request.hi && PlanOf(id, request.scope)[k] == claim
  }

  predicate WaitsFor(id: RequestId, request: Request, claim: Claim) {
    && request.Active? && request.phase.Waiting?
    && request.hi < |PlanOf(id, request.scope)|
    && PlanOf(id, request.scope)[request.hi] == claim
  }

  function Holders(requests: map<RequestId, Request>, claim: Claim): set<RequestId> {
    set id | id in requests && Holds(id, requests[id], claim)
  }

  function Waiters(requests: map<RequestId, Request>, claim: Claim): set<RequestId> {
    set id | id in requests && WaitsFor(id, requests[id], claim)
  }

  /** The request a nested one runs under. */
  function Outer(id: RequestId): RequestId {
    RequestId(id.thread, false)
  }

  function Inner(id: RequestId): RequestId {
    RequestId(id.thread, true)
  }

  predicate Enabled(sys: System, action: Action) {
    var request := RequestOf(sys, action.id);
    match action
    case Begin(id, scope) =>
      && request.Idle?
      && (id.nested ==> scope.Workspace? && RequestOf(sys, Outer(id)) == Active(Global, 0, 1, Granted))
    case EnterGate(id) =>
      request.Active? && request.phase.Acquiring? && request.hi < |PlanOf(id, request.scope)|
    case Admit(id) =>
      && request.Active? && request.phase.Waiting? && request.hi < |PlanOf(id, request.scope)|
      && var claim := PlanOf(id, request.scope)[request.hi];
      Admits(GateOf(sys, claim.gate), claim.mode)
    case TimeOut(id) =>
      && request.Active? && request.phase.Waiting? && request.hi < |PlanOf(id, request.scope)|
      && var claim := PlanOf(id, request.scope)[request.hi];
      !Admits(GateOf(sys, claim.gate), claim.mode)
    case Finish(id) =>
      request.Active? && request.phase.Granted? && (!id.nested ==> RequestOf(sys, Inner(id)).Idle?)
    case DropGuard(id) =>
      && request.Active? && request.phase.Dropping?
      && request.lo < request.hi && request.lo < |PlanOf(id, request.scope)|
    case End(id) =>
      request.Active? && request.phase.Dropping? && request.lo == request.hi
  }

  function Update(sys: System, claim: Claim, gate: GateState, id: RequestId, request: Request): System {
    System(sys.gates[claim.gate := gate], sys.requests[id := request])
  }

  function Apply(sys: System, action: Action): System
    requires Enabled(sys, action)
  {
    var request := RequestOf(sys, action.id);
    match action
    case Begin(id, scope) =>
      sys.(requests := sys.requests[id := Active(scope, 0, 0, Acquiring)])
    case EnterGate(id) =>
      var claim := PlanOf(id, request.scope)[request.hi];
      Update(sys, claim, Enter(GateOf(sys, claim.gate), claim.mode), id, request.(phase := Waiting))
    case Admit(id) =>
      var plan := PlanOf(id, request.scope);
      var claim := plan[request.hi];
      var phase := if request.hi + 1 == |plan| then Granted else Acquiring;
      Update(sys, claim, Take(GateOf(sys, claim.gate), claim.mode), id,
             request.(hi := request.hi + 1, phase := phase))
    case TimeOut(id) =>
      var claim := PlanOf(id, request.scope)[request.hi];
      Update(sys, claim, Leave(GateOf(sys, claim.gate), claim.mode), id, request.(phase := Dropping))
    case Finish(id) =>
      sys.(requests := sys.requests[id := request.(phase := Dropping)])
    case DropGuard(id) =>
      var claim := PlanOf(id, request.scope)[request.lo];
      Update(sys, claim, Release(GateOf(sys, claim.gate), claim.mode), id, request.(lo := request.lo + 1))
    case End(id) =>
      sys.(requests := sys.requests[id := Idle])
  }

  ghost predicate RunsTo(sys: System, run: seq<Action>, sys': System)
    decreases |run|
  {
    if run == [] then sys == sys'
    else Enabled(sys, run[0]) && RunsTo(Apply(sys, run[0]), run[1..], sys')
  }

  ghost predicate Reachable(sys: System) {
    exists run :: RunsTo(INITIAL, run, sys)
  }

  /** Two scopes that must not be held together. */
  predicate Conflicts(a: Scope, b: Scope) {
    match (a, b)
    case (Global, _) => true
    case (_, Global) => true
    case (Sandbox(s), Sandbox(t)) => s == t
    case (Sandbox(s), Workspace(t, _)) => s == t
    case (Workspace(s, _), Sandbox(t)) => s == t
    case (Workspace(s, v), Workspace(t, w)) => s == t && v == w
  }

  // ---------------------------------------------------------------- invariant

  predicate RequestInv(sys: System, id: RequestId, request: Request) {
    request.Active? ==>
      && request.lo <= request.hi <= |PlanOf(id, request.scope)|
      && (request.phase.Acquiring? || request.phase.Waiting? ==>
            request.lo == 0 && request.hi < |PlanOf(id, request.scope)|)
      && (request.phase.Granted? ==> request.lo == 0 && request.hi == |PlanOf(id, request.scope)|)
      && (id.nested ==> request.scope.Workspace? && RequestOf(sys, Outer(id)) == Active(Global, 0, 1, Granted))
  }

  ghost predicate GateInv(gate: GateState, requests: map<RequestId, Request>, id: GateId) {
    && gate.shared == |Holders(requests, Claim(id, Shared))|
    && gate.waitingExclusive == |Waiters(requests, Claim(id, Exclusive))|
    && |Holders(requests, Claim(id, Exclusive))| == (if gate.exclusive then 1 else 0)
    && (gate.exclusive ==> gate.shared == 0)
  }

  ghost predicate Inv(sys: System) {
    && (forall id | id in sys.requests :: RequestInv(sys, id, sys.requests[id]))
    && (forall gate: GateId :: GateInv(GateOf(sys, gate), sys.requests, gate))
  }

  lemma PlanDistinct(id: RequestId, scope: Scope)
    ensures forall i, j | 0 <= i < j < |PlanOf(id, scope)| ::
      Rank(PlanOf(id, scope)[i].gate) < Rank(PlanOf(id, scope)[j].gate)
    ensures 1 <= |PlanOf(id, scope)| <= 3
  {
  }

  /** The size of a set whose membership changes for one request only. */
  lemma SizeChanges(before: set<RequestId>, after: set<RequestId>, id: RequestId)
    requires forall other | other != id :: other in after <==> other in before
    ensures |after| == |before| + (if id in after then 1 else 0) - (if id in before then 1 else 0)
  {
    assert before - {id} == after - {id};
    assert before == before - {id} || before == (before - {id}) + {id};
    assert after == after - {id} || after == (after - {id}) + {id};
  }

  /** How replacing one request changes the number holding a claim. */
  lemma HoldersUpdate(requests: map<RequestId, Request>, id: RequestId, request: Request, claim: Claim)
    ensures var before := id in requests && Holds(id, requests[id], claim);
            |Holders(requests[id := request], claim)| ==
            |Holders(requests, claim)|
              + (if Holds(id, request, claim) then 1 else 0) - (if before then 1 else 0)
  {
    SizeChanges(Holders(requests, claim), Holders(requests[id := request], claim), id);
  }

  lemma WaitersUpdate(requests: map<RequestId, Request>, id: RequestId, request: Request, claim: Claim)
    ensures var before := id in requests && WaitsFor(id, requests[id], claim);
            |Waiters(requests[id := request], claim)| ==
            |Waiters(requests, claim)|
              + (if WaitsFor(id, request, claim) then 1 else 0) - (if before then 1 else 0)
  {
    SizeChanges(Waiters(requests, claim), Waiters(requests[id := request], claim), id);
  }

  /** What a request holds after it takes its next gate or drops its first. */
  lemma HoldsShift(id: RequestId, r: Request, r': Request, claim: Claim)
    requires r.Active? && r'.Active? && r.scope == r'.scope
    requires r.lo <= r.hi <= |PlanOf(id, r.scope)|
    requires r'.lo <= r'.hi <= |PlanOf(id, r.scope)|
    requires (r'.lo == r.lo && r.hi <= r'.hi <= r.hi + 1) || (r.lo <= r'.lo <= r.lo + 1 && r'.hi == r.hi)
    ensures r'.lo == r.lo && r'.hi == r.hi ==> Holds(id, r', claim) == Holds(id, r, claim)
    ensures r'.hi == r.hi + 1 ==>
      (Holds(id, r', claim) <==> Holds(id, r, claim) || PlanOf(id, r.scope)[r.hi] == claim)
    ensures r'.hi == r.hi + 1 && PlanOf(id, r.scope)[r.hi] == claim ==> !Holds(id, r, claim)
    ensures r'.lo == r.lo + 1 ==>
      (Holds(id, r, claim) <==> Holds(id, r', claim) || PlanOf(id, r.scope)[r.lo] == claim)
    ensures r'.lo == r.lo + 1 && PlanOf(id, r.scope)[r.lo] == claim ==> !Holds(id, r', claim)
  {
    PlanDistinct(id, r.scope);
  }

  /** How the counts that a gate stands for change when one request becomes another. */
  ghost predicate CountsChange(sys: System, sys': System, id: RequestId, gate: GateId) {
    var r, r' := RequestOf(sys, id), RequestOf(sys', id);
    && (forall mode ::
          |Holders(sys'.requests, Claim(gate, mode))| ==
          |Holders(sys.requests, Claim(gate, mode))|
            + (if Holds(id, r', Claim(gate, mode)) then 1 else 0) - (if Holds(id, r, Claim(gate, mode)) then 1 else 0))
    && |Waiters(sys'.requests, Claim(gate, Exclusive))| ==
       |Waiters(sys.requests, Claim(gate, Exclusive))|
         + (if WaitsFor(id, r', Claim(gate, Exclusive)) then 1 else 0)
         - (if WaitsFor(id, r, Claim(gate, Exclusive)) then 1 else 0)
  }

  lemma CountsFollow(sys: System, sys': System, id: RequestId, gate: GateId)
    requires sys'.requests == sys.requests[id := RequestOf(sys', id)]
    ensures CountsChange(sys, sys', id, gate)
  {
    forall mode { HoldersUpdate(sys.requests, id, RequestOf(sys', id), Claim(gate, mode)); }
    WaitersUpdate(sys.requests, id, RequestOf(sys', id), Claim(gate, Exclusive));
  }

  /** Taking a gate and dropping a guard change what a request holds. */
  lemma ShiftKeepsGate(sys: System, action: Action, gate: GateId)
    requires Inv(sys) && Enabled(sys, action) && (action.Admit? || action.DropGuard?)
    requires CountsChange(sys, Apply(sys, action), action.id, gate)
    ensures GateInv(GateOf(Apply(sys, action), gate), Apply(sys, action).requests, gate)
  {
    var sys', id := Apply(sys, action), action.id;
    var r, r' := RequestOf(sys, id), RequestOf(sys', id);
    assert GateInv(GateOf(sys, gate), sys.requests, gate);
    assert RequestInv(sys, id, r);
    HoldsShift(id, r, r', Claim(gate, Shared));
    HoldsShift(id, r, r', Claim(gate, Exclusive));
  }

  lemma OtherKeepsGate(sys: System, action: Action, gate: GateId)
    requires Inv(sys) && Enabled(sys, action) && !action.Admit? && !action.DropGuard?
    requires CountsChange(sys, Apply(sys, action), action.id, gate)
    ensures GateInv(GateOf(Apply(sys, action), gate), Apply(sys, action).requests, gate)
  {
    var sys', id := Apply(sys, action), action.id;
    var r, r' := RequestOf(sys, id), RequestOf(sys', id);
    assert GateInv(GateOf(sys, gate), sys.requests, gate);
    if r.Active? && r'.Active? {
      assert RequestInv(sys, id, r);
      HoldsShift(id, r, r', Claim(gate, Shared));
      HoldsShift(id, r, r', Claim(gate, Exclusive));
    }
  }

  lemma GatesPreserved(sys: System, action: Action, gate: GateId)
    requires Inv(sys) && Enabled(sys, action)
    ensures GateInv(GateOf(Apply(sys, action), gate), Apply(sys, action).requests, gate)
  {
    CountsFollow(sys, Apply(sys, action), action.id, gate);
    if action.Admit? || action.DropGuard? {
      ShiftKeepsGate(sys, action, gate);
    } else {
      OtherKeepsGate(sys, action, gate);
    }
  }

  lemma RequestsPreserved(sys: System, action: Action, id: RequestId)
    requires Inv(sys) && Enabled(sys, action) && id in Apply(sys, action).requests
    ensures RequestInv(Apply(sys, action), id, Apply(sys, action).requests[id])
  {
    var scope := if action.Begin? then action.scope else RequestOf(sys, action.id).scope;
    PlanDistinct(action.id, scope);
  }

  lemma StepPreservesInv(sys: System, action: Action)
    requires Inv(sys) && Enabled(sys, action)
    ensures Inv(Apply(sys, action))
  {
    forall gate: GateId { GatesPreserved(sys, action, gate); }
    forall id | id in Apply(sys, action).requests { RequestsPreserved(sys, action, id); }
  }

  lemma {:induction false} RunPreservesInv(sys: System, run: seq<Action>, sys': System)
    requires Inv(sys) && RunsTo(sys, run, sys')
    ensures Inv(sys')
    decreases |run|
  {
    if run != [] {
      StepPreservesInv(sys, run[0]);
      RunPreservesInv(Apply(sys, run[0]), run[1..], sys');
    }
  }

  lemma ReachableInv(sys: System)
    requires Reachable(sys)
    ensures Inv(sys)
  {
    var run :| RunsTo(INITIAL, run, sys);
    forall gate: GateId ensures GateInv(GateOf(INITIAL, gate), INITIAL.requests, gate) {
      assert Holders(INITIAL.requests, Claim(gate, Shared)) == {};
      assert Holders(INITIAL.requests, Claim(gate, Exclusive)) == {};
      assert Waiters(INITIAL.requests, Claim(gate, Exclusive)) == {};
    }
    RunPreservesInv(INITIAL, run, sys);
  }

  // ------------------------------------------------------------ gate accounting

  /** A gate's counters say exactly who is at it, and no decrement starts from zero. */
  lemma GateAccounting(sys: System, gate: GateId)
    requires Reachable(sys)
    ensures GateOf(sys, gate).shared == |Holders(sys.requests, Claim(gate, Shared))|
    ensures GateOf(sys, gate).waitingExclusive == |Waiters(sys.requests, Claim(gate, Exclusive))|
    ensures GateOf(sys, gate).exclusive <==> |Holders(sys.requests, Claim(gate, Exclusive))| == 1
    ensures Holders(sys.requests, Claim(gate, Exclusive)) == {} || Holders(sys.requests, Claim(gate, Shared)) == {}
    ensures forall id | id in Waiters(sys.requests, Claim(gate, Exclusive)) ::
      GateOf(sys, gate).waitingExclusive > 0
    ensures forall id | id in Holders(sys.requests, Claim(gate, Shared)) :: GateOf(sys, gate).shared > 0
    ensures forall id | id in Holders(sys.requests, Claim(gate, Exclusive)) ::
      GateOf(sys, gate).exclusive && Holders(sys.requests, Claim(gate, Exclusive)) == {id}
  {
    ReachableInv(sys);
    assert GateInv(GateOf(sys, gate), sys.requests, gate);
    forall id | id in Waiters(sys.requests, Claim(gate, Exclusive))
      ensures GateOf(sys, gate).waitingExclusive > 0
    {
      Member(id, Waiters(sys.requests, Claim(gate, Exclusive)));
    }
    forall id | id in Holders(sys.requests, Claim(gate, Shared)) ensures GateOf(sys, gate).shared > 0 {
      Member(id, Holders(sys.requests, Claim(gate, Shared)));
    }
    forall id | id in Holders(sys.requests, Claim(gate, Exclusive))
      ensures GateOf(sys, gate).exclusive && Holders(sys.requests, Claim(gate, Exclusive)) == {id}
    {
      Member(id, Holders(sys.requests, Claim(gate, Exclusive)));
    }
  }

  lemma Member(id: RequestId, ids: set<RequestId>)
    requires id in ids
    ensures |ids| == |ids - {id}| + 1
    ensures |ids| == 1 ==> ids == {id}
  {
    assert ids == (ids - {id}) + {id};
  }

  /** Writer preference: no shared guard is added at a gate an exclusive request waits for. */
  lemma SharedHoldersShrinkWhileExclusiveWaits(sys: System, action: Action, gate: GateId)
    requires Inv(sys) && Enabled(sys, action)
    requires Waiters(sys.requests, Claim(gate, Exclusive)) != {}
    ensures Holders(Apply(sys, action).requests, Claim(gate, Shared)) <= Holders(sys.requests, Claim(gate, Shared))
  {
    var sys' := Apply(sys, action);
    var id := action.id;
    var r, r' := RequestOf(sys, id), RequestOf(sys', id);
    assert sys'.requests == sys.requests[id := r'];
    assert GateInv(GateOf(sys, gate), sys.requests, gate);
    if r.Active? && r'.Active? {
      assert RequestInv(sys, id, r);
      HoldsShift(id, r, r', Claim(gate, Shared));
    }
  }

  ghost predicate WaitsThroughout(sys: System, run: seq<Action>, id: RequestId, claim: Claim)
    decreases |run|
  {
    && id in Waiters(sys.requests, claim)
    && (run != [] ==> Enabled(sys, run[0]) && WaitsThroughout(Apply(sys, run[0]), run[1..], id, claim))
  }

  /** Over any stretch during which an exclusive request stays in the wait loop of a gate, the
      shared guards of that gate only go away, so a stream of sharers cannot starve it. */
  lemma {:induction false} NoStarvationByShared(
    sys: System, run: seq<Action>, sys': System, id: RequestId, gate: GateId)
    requires Inv(sys) && RunsTo(sys, run, sys')
    requires WaitsThroughout(sys, run, id, Claim(gate, Exclusive))
    ensures Holders(sys'.requests, Claim(gate, Shared)) <= Holders(sys.requests, Claim(gate, Shared))
    decreases |run|
  {
    if run != [] {
      SharedHoldersShrinkWhileExclusiveWaits(sys, run[0], gate);
      StepPreservesInv(sys, run[0]);
      NoStarvationByShared(Apply(sys, run[0]), run[1..], sys', id, gate);
    }
  }

  // ------------------------------------------------------------------ exclusion

  predicate Clash(a: Claim, b: Claim) {
    a.gate == b.gate && (a.mode.Exclusive? || b.mode.Exclusive?)
  }

  predicate PlansClash(p: seq<Claim>, q: seq<Claim>) {
    exists i, j | 0 <= i < |p| && 0 <= j < |q| :: Clash(p[i], q[j])
  }

  /** The gates of two scopes collide exactly when the scopes must exclude each other. */
  lemma PlansClashIffConflict(a: Scope, b: Scope)
    ensures PlansClash(Plan(a), Plan(b)) <==> Conflicts(a, b)
  {
    var p, q := Plan(a), Plan(b);
    if Conflicts(a, b) {
      match (a, b)
      case (Global, _) => assert Clash(p[0], q[0]);
      case (_, Global) => assert Clash(p[0], q[0]);
      case (Sandbox(_), Sandbox(_)) => assert Clash(p[1], q[1]);
      case (Sandbox(_), Workspace(_, _)) => assert Clash(p[1], q[2]);
      case (Workspace(_, _), Sandbox(_)) => assert Clash(p[2], q[1]);
      case (Workspace(_, _), Workspace(_, _)) => assert Clash(p[1], q[1]);
    }
  }

  lemma PlanOfScope(id: RequestId, scope: Scope)
    ensures forall k | 0 <= k < |PlanOf(id, scope)| :: PlanOf(id, scope)[k] in Plan(scope)
  {
  }

  lemma ExclusiveIsAlone(sys: System, gate: GateId)
    requires Inv(sys)
    ensures forall id | id in Holders(sys.requests, Claim(gate, Exclusive)) ::
      Holders(sys.requests, Claim(gate, Exclusive)) == {id} && Holders(sys.requests, Claim(gate, Shared)) == {}
  {
    assert GateInv(GateOf(sys, gate), sys.requests, gate);
    forall id | id in Holders(sys.requests, Claim(gate, Exclusive))
      ensures Holders(sys.requests, Claim(gate, Exclusive)) == {id} && Holders(sys.requests, Claim(gate, Shared)) == {}
    {
      Member(id, Holders(sys.requests, Claim(gate, Exclusive)));
    }
  }

  lemma ClashExcludes(sys: System, a: RequestId, c: Claim, b: RequestId, d: Claim)
    requires Inv(sys) && a in Holders(sys.requests, c) && b in Holders(sys.requests, d)
    requires Clash(c, d)
    ensures a == b
  {
    ExclusiveIsAlone(sys, c.gate);
    assert c == Claim(c.gate, c.mode) && d == Claim(c.gate, d.mode);
  }

  lemma GrantedHoldsPlan(sys: System, id: RequestId, k: nat)
    requires Inv(sys) && RequestOf(sys, id).Active? && RequestOf(sys, id).phase.Granted?
    requires k < |PlanOf(id, RequestOf(sys, id).scope)|
    ensures id in Holders(sys.requests, PlanOf(id, RequestOf(sys, id).scope)[k])
  {
    assert RequestInv(sys, id, sys.requests[id]);
  }

  predicate IsGranted(sys: System, id: RequestId) {
    RequestOf(sys, id).Active? && RequestOf(sys, id).phase.Granted?
  }

  /** Two threads never hold conflicting leases at the same time, in any reachable state. */
  lemma LeaseExclusion(sys: System, a: RequestId, b: RequestId)
    requires Reachable(sys) && a.thread != b.thread
    requires IsGranted(sys, a) && IsGranted(sys, b)
    ensures !Conflicts(RequestOf(sys, a).scope, RequestOf(sys, b).scope)
  {
    ReachableInv(sys);
    var a' := GlobalOwner(sys, a);
    var b' := GlobalOwner(sys, b);
    if a.nested || RequestOf(sys, a).scope.Global? || b.nested || RequestOf(sys, b).scope.Global? {
      // One thread holds the global gate exclusively, and the other holds it too.
      ClashExcludes(sys, a', PlanOf(a', RequestOf(sys, a').scope)[0], b', PlanOf(b', RequestOf(sys, b').scope)[0]);
    } else if Conflicts(RequestOf(sys, a).scope, RequestOf(sys, b).scope) {
      PlansClashIffConflict(RequestOf(sys, a).scope, RequestOf(sys, b).scope);
      var p, q := Plan(RequestOf(sys, a).scope), Plan(RequestOf(sys, b).scope);
      var i, j :| 0 <= i < |p| && 0 <= j < |q| && Clash(p[i], q[j]);
      GrantedHoldsPlan(sys, a, i);
      GrantedHoldsPlan(sys, b, j);
      ClashExcludes(sys, a, p[i], b, q[j]);
    }
  }

  /** The request by which the thread of a granted request holds the global gate. */
  lemma GlobalOwner(sys: System, id: RequestId) returns (owner: RequestId)
    requires Inv(sys) && IsGranted(sys, id)
    ensures owner == Outer(id) && IsGranted(sys, owner)
    ensures owner in Holders(sys.requests, PlanOf(owner, RequestOf(sys, owner).scope)[0])
    ensures PlanOf(owner, RequestOf(sys, owner).scope)[0].gate == GlobalGate
    ensures id.nested ==> RequestOf(sys, owner).scope.Global?
    ensures !id.nested ==> owner == id
  {
    owner := Outer(id);
    assert RequestInv(sys, id, sys.requests[id]);
    GrantedHoldsPlan(sys, owner, 0);
  }

  // ---------------------------------------------------------- deadlock freedom

  predicate IsWaiting(sys: System, id: RequestId) {
    RequestOf(sys, id).Active? && RequestOf(sys, id).phase.Waiting?
  }

  function Awaited(sys: System, id: RequestId): Claim
    requires RequestOf(sys, id).Active?
    requires RequestOf(sys, id).hi < |PlanOf(id, RequestOf(sys, id).scope)|
  {
    PlanOf(id, RequestOf(sys, id).scope)[RequestOf(sys, id).hi]
  }

  /** Every request is waiting, or is a global lease whose nested request is waiting. */
  predicate AllStalled(sys: System) {
    forall id | id in sys.requests && sys.requests[id].Active? ::
      || sys.requests[id].phase.Waiting?
      || (sys.requests[id].phase.Granted? && !id.nested && IsWaiting(sys, Inner(id)))
  }

  predicate WaitsAtRank(sys: System, id: RequestId, rank: nat) {
    && IsWaiting(sys, id) && RequestOf(sys, id).hi < |PlanOf(id, RequestOf(sys, id).scope)|
    && Rank(Awaited(sys, id).gate) == rank
  }

  /** A holder of a gate is itself waiting for a gate of higher rank when nothing can be released. */
  lemma HolderWaitsHigher(sys: System, holder: RequestId, claim: Claim) returns (waiter: RequestId)
    requires Inv(sys) && AllStalled(sys) && holder in Holders(sys.requests, claim)
    ensures exists rank | Rank(claim.gate) < rank <= 2 :: WaitsAtRank(sys, waiter, rank)
  {
    var r := sys.requests[holder];
    assert RequestInv(sys, holder, r);
    PlanDistinct(holder, r.scope);
    waiter := if r.phase.Waiting? then holder else Inner(holder);
    var w := RequestOf(sys, waiter);
    assert RequestInv(sys, waiter, w);
    PlanDistinct(waiter, w.scope);
    assert WaitsAtRank(sys, waiter, Rank(Awaited(sys, waiter).gate));
  }

  /** The waiters at the highest rank in use face a gate nobody holds, so one is admissible. */
  lemma TopRankAdmits(sys: System, top: RequestId, rank: nat) returns (id: RequestId)
    requires Inv(sys) && AllStalled(sys) && WaitsAtRank(sys, top, rank)
    requires forall other, higher | rank < higher <= 2 :: !WaitsAtRank(sys, other, higher)
    ensures Enabled(sys, Admit(id))
  {
    var gate := Awaited(sys, top).gate;
    assert GateInv(GateOf(sys, gate), sys.requests, gate);
    forall mode: Mode ensures Holders(sys.requests, Claim(gate, mode)) == {} {
      if holder :| holder in Holders(sys.requests, Claim(gate, mode)) {
        var waiter := HolderWaitsHigher(sys, holder, Claim(gate, mode));
        assert false;
      }
    }
    if writer :| writer in Waiters(sys.requests, Claim(gate, Exclusive)) {
      id := writer;
    } else {
      assert top in Waiters(sys.requests, Awaited(sys, top));
      assert Awaited(sys, top) == Claim(gate, Shared);
      id := top;
    }
  }

  predicate Advances(action: Action) {
    !action.Begin? && !action.TimeOut?
  }

  /** Deadlock freedom: while any request is in flight, some request can be admitted, released or
      torn down, without a timeout and without a new request. */
  lemma Progress(sys: System) returns (action: Action)
    requires Inv(sys)
    requires exists id | id in sys.requests :: sys.requests[id].Active?
    ensures Enabled(sys, action) && Advances(action)
  {
    var busy :| busy in sys.requests && sys.requests[busy].Active?;
    if id :| id in sys.requests && sys.requests[id].Active? && sys.requests[id].phase.Acquiring? {
      assert RequestInv(sys, id, sys.requests[id]);
      action := EnterGate(id);
    } else if id :| id in sys.requests && sys.requests[id].Active? && sys.requests[id].phase.Dropping? {
      assert RequestInv(sys, id, sys.requests[id]);
      action := if sys.requests[id].lo < sys.requests[id].hi then DropGuard(id) else End(id);
    } else if id :| id in sys.requests && Enabled(sys, Finish(id)) {
      action := Finish(id);
    } else {
      NobodyCanStep(sys);
      var id := StalledAdmits(sys, busy);
      action := Admit(id);
    }
  }

  /** With nobody to acquire, drop or finish, everybody waits or has a nested request that waits. */
  lemma NobodyCanStep(sys: System)
    requires Inv(sys)
    requires forall id | id in sys.requests && sys.requests[id].Active? ::
      !sys.requests[id].phase.Acquiring? && !sys.requests[id].phase.Dropping?
    requires forall id | id in sys.requests :: !Enabled(sys, Finish(id))
    ensures AllStalled(sys)
  {
    forall id | id in sys.requests && sys.requests[id].Active? && !sys.requests[id].phase.Waiting?
      ensures sys.requests[id].phase.Granted? && !id.nested && IsWaiting(sys, Inner(id))
    {
      assert !Enabled(sys, Finish(id));
      var inner := RequestOf(sys, Inner(id));
      assert Inner(id) in sys.requests;
      assert !Enabled(sys, Finish(Inner(id)));
    }
  }

  lemma StalledAdmits(sys: System, busy: RequestId) returns (id: RequestId)
    requires Inv(sys) && AllStalled(sys) && busy in sys.requests && sys.requests[busy].Active?
    ensures Enabled(sys, Admit(id))
  {
    var waiting := if sys.requests[busy].phase.Waiting? then busy else Inner(busy);
    assert RequestInv(sys, waiting, sys.requests[waiting]);
    assert WaitsAtRank(sys, waiting, Rank(Awaited(sys, waiting).gate));
    if top :| WaitsAtRank(sys, top, 2) {
      id := TopRankAdmits(sys, top, 2);
    } else if top :| WaitsAtRank(sys, top, 1) {
      id := TopRankAdmits(sys, top, 1);
    } else {
      id := TopRankAdmits(sys, waiting, 0);
    }
  }

  // ------------------------------------------------------------------ draining

  /** Steps a request still takes before it is idle again. */
  function Weight(id: RequestId, r: Request): nat {
    if r.Idle? || r.hi > |PlanOf(id, r.scope)| || r.lo > r.hi then 0
    else
      var n := |PlanOf(id, r.scope)|;
      match r.phase
      case Acquiring => 3 * n - 2 * r.hi + 2
      case Waiting => 3 * n - 2 * r.hi + 1
      case Granted => n + 2
      case Dropping => r.hi - r.lo + 1
  }

  ghost function PickId(requests: map<RequestId, Request>): RequestId
    requires requests != map[]
    ensures PickId(requests) in requests
  {
    var id :| id in requests; id
  }

  ghost function TotalWeight(requests: map<RequestId, Request>): nat {
    if requests == map[] then 0
    else
      var id := PickId(requests);
      Weight(id, requests[id]) + TotalWeight(requests - {id})
  }

  lemma {:induction false} TotalWeightSplit(requests: map<RequestId, Request>, id: RequestId)
    requires id in requests
    ensures TotalWeight(requests) == Weight(id, requests[id]) + TotalWeight(requests - {id})
  {
    var first := PickId(requests);
    if first != id {
      TotalWeightSplit(requests - {first}, id);
      TotalWeightSplit(requests - {id}, first);
      assert requests - {first} - {id} == requests - {id} - {first};
    }
  }

  lemma ReplacedWeight(requests: map<RequestId, Request>, id: RequestId, r: Request)
    requires id in requests
    ensures TotalWeight(requests[id := r]) == TotalWeight(requests) - Weight(id, requests[id]) + Weight(id, r)
  {
    TotalWeightSplit(requests, id);
    TotalWeightSplit(requests[id := r], id);
    assert requests[id := r] - {id} == requests - {id};
  }

  lemma StepsShrinkOwnWeight(sys: System, action: Action)
    requires Enabled(sys, action) && !action.Begin? && RequestInv(sys, action.id, RequestOf(sys, action.id))
    ensures var id, sys' := action.id, Apply(sys, action);
            && id in sys.requests && sys'.requests == sys.requests[id := RequestOf(sys', id)]
            && Weight(id, RequestOf(sys', id)) < Weight(id, sys.requests[id])
  {
  }

  lemma StepsShrinkWeight(sys: System, action: Action)
    requires Inv(sys) && Enabled(sys, action) && !action.Begin?
    ensures TotalWeight(Apply(sys, action).requests) < TotalWeight(sys.requests)
  {
    var id, sys' := action.id, Apply(sys, action);
    assert RequestInv(sys, id, RequestOf(sys, id));
    StepsShrinkOwnWeight(sys, action);
    ReplacedWeight(sys.requests, id, RequestOf(sys', id));
  }

  lemma {:induction false} RunAppend(sys: System, first: seq<Action>, mid: System, second: seq<Action>, end: System)
    requires RunsTo(sys, first, mid) && RunsTo(mid, second, end)
    ensures RunsTo(sys, first + second, end)
    decreases |first|
  {
    if first == [] {
      assert first + second == second;
    } else {
      RunAppend(Apply(sys, first[0]), first[1..], mid, second, end);
      assert (first + second)[1..] == first[1..] + second;
    }
  }

  predicate AllIdle(sys: System) {
    forall id | id in sys.requests :: sys.requests[id].Idle?
  }

  /** Once no new request begins, every run is finite, whatever order the steps come in. */
  lemma {:induction false} RunsWithoutBeginAreBounded(sys: System, run: seq<Action>, sys': System)
    requires Inv(sys) && RunsTo(sys, run, sys')
    requires forall k | 0 <= k < |run| :: !run[k].Begin?
    ensures |run| + TotalWeight(sys'.requests) <= TotalWeight(sys.requests)
    decreases |run|
  {
    if run != [] {
      StepsShrinkWeight(sys, run[0]);
      StepPreservesInv(sys, run[0]);
      RunsWithoutBeginAreBounded(Apply(sys, run[0]), run[1..], sys');
    }
  }

  /** A run that neither begins nor times out a request, and cannot be extended that way, has
      completed every request that was in flight. */
  lemma StuckMeansDone(sys: System)
    requires Reachable(sys)
    requires forall action | Advances(action) :: !Enabled(sys, action)
    ensures AllIdle(sys)
  {
    ReachableInv(sys);
    if exists id | id in sys.requests :: sys.requests[id].Active? {
      var action := Progress(sys);
      assert false;
    }
  }

  /** From every reachable state all requests in flight can complete without a single timeout. */
  lemma EveryReachableStateDrains(sys: System) returns (run: seq<Action>, sys': System)
    requires Reachable(sys)
    ensures RunsTo(sys, run, sys') && AllIdle(sys')
    ensures forall k | 0 <= k < |run| :: Advances(run[k])
    ensures |run| <= TotalWeight(sys.requests)
  {
    ReachableInv(sys);
    run, sys' := Drain(sys);
    RunsWithoutBeginAreBounded(sys, run, sys');
  }

  lemma {:induction false} Drain(sys: System) returns (run: seq<Action>, sys': System)
    requires Inv(sys)
    ensures RunsTo(sys, run, sys') && AllIdle(sys')
    ensures forall k | 0 <= k < |run| :: Advances(run[k])
    decreases TotalWeight(sys.requests)
  {
    if AllIdle(sys) {
      run, sys' := [], sys;
    } else {
      var action := Progress(sys);
      StepsShrinkWeight(sys, action);
      StepPreservesInv(sys, action);
      var rest;
      rest, sys' := Drain(Apply(sys, action));
      run := [action] + rest;
      assert run[1..] == rest;
    }
  }

  // --------------------------------------------------- only overlap serializes

  /** A request that is held back overlaps a request of another thread that is in flight. */
  lemma BlockedByConflict(sys: System, id: RequestId) returns (other: RequestId)
    requires Inv(sys) && Enabled(sys, TimeOut(id))
    ensures other.thread != id.thread && RequestOf(sys, other).Active?
    ensures Conflicts(RequestOf(sys, id).scope, RequestOf(sys, other).scope)
  {
    var r := sys.requests[id];
    assert RequestInv(sys, id, r);
    PlanDistinct(id, r.scope);
    var claim := Awaited(sys, id);
    var gate := claim.gate;
    assert GateInv(GateOf(sys, gate), sys.requests, gate);
    assert !Holds(id, r, Claim(gate, Shared)) && !Holds(id, r, Claim(gate, Exclusive));
    var blocking;
    if other' :| other' in Holders(sys.requests, Claim(gate, Exclusive)) {
      other, blocking := other', Claim(gate, Exclusive);
    } else if claim.mode.Shared? {
      other :| other in Waiters(sys.requests, Claim(gate, Exclusive));
      blocking := Claim(gate, Exclusive);
    } else {
      other :| other in Holders(sys.requests, Claim(gate, Shared));
      blocking := Claim(gate, Shared);
    }
    var o := sys.requests[other];
    assert RequestInv(sys, other, o);
    assert RequestInv(sys, Inner(id), RequestOf(sys, Inner(id)));
    PlanOfScope(id, r.scope);
    PlanOfScope(other, o.scope);
    assert claim in Plan(r.scope) && blocking in Plan(o.scope) && Clash(claim, blocking);
    PlansClashIffConflict(r.scope, o.scope);
  }

  /** No request of another thread overlaps the scope. */
  ghost predicate Unopposed(sys: System, id: RequestId, scope: Scope) {
    forall other: RequestId | other.thread != id.thread && RequestOf(sys, other).Active? ::
      !Conflicts(scope, RequestOf(sys, other).scope)
  }

  lemma StaysUnopposed(sys: System, after: System, id: RequestId, scope: Scope)
    requires Unopposed(sys, id, scope) && after.requests == sys.requests[id := RequestOf(after, id)]
    ensures Unopposed(after, id, scope)
  {
    forall other: RequestId | other.thread != id.thread && RequestOf(after, other).Active?
      ensures !Conflicts(scope, RequestOf(after, other).scope)
    {
      assert RequestOf(after, other) == RequestOf(sys, other);
    }
  }

  lemma EnterUnopposed(sys: System, id: RequestId) returns (entered: System)
    requires Inv(sys) && RequestOf(sys, id).Active? && RequestOf(sys, id).phase.Acquiring?
    requires Unopposed(sys, id, RequestOf(sys, id).scope)
    ensures Enabled(sys, EnterGate(id)) && entered == Apply(sys, EnterGate(id)) && Inv(entered)
    ensures entered.requests == sys.requests[id := RequestOf(sys, id).(phase := Waiting)]
    ensures Unopposed(entered, id, RequestOf(sys, id).scope)
    ensures RequestOf(sys, id).lo == 0
  {
    assert RequestInv(sys, id, RequestOf(sys, id));
    entered := Apply(sys, EnterGate(id));
    StepPreservesInv(sys, EnterGate(id));
    StaysUnopposed(sys, entered, id, RequestOf(sys, id).scope);
  }

  lemma AdmitUnopposed(sys: System, id: RequestId) returns (taken: System)
    requires Inv(sys) && RequestOf(sys, id).Active? && RequestOf(sys, id).phase.Waiting?
    requires Unopposed(sys, id, RequestOf(sys, id).scope)
    ensures Enabled(sys, Admit(id)) && taken == Apply(sys, Admit(id)) && Inv(taken)
    ensures var r := RequestOf(sys, id);
            var n := |PlanOf(id, r.scope)|;
            && r.hi < n && Unopposed(taken, id, r.scope)
            && taken.requests ==
               sys.requests[id := r.(hi := r.hi + 1, phase := if r.hi + 1 == n then Granted else Acquiring)]
  {
    assert RequestInv(sys, id, RequestOf(sys, id));
    if Enabled(sys, TimeOut(id)) {
      var other := BlockedByConflict(sys, id);
      assert false;
    }
    taken := Apply(sys, Admit(id));
    StepPreservesInv(sys, Admit(id));
    StaysUnopposed(sys, taken, id, RequestOf(sys, id).scope);
  }

  lemma TakeNextUnopposed(sys: System, id: RequestId) returns (taken: System)
    requires Inv(sys) && RequestOf(sys, id).Active? && RequestOf(sys, id).phase.Acquiring?
    requires Unopposed(sys, id, RequestOf(sys, id).scope)
    ensures Enabled(sys, EnterGate(id)) && Enabled(Apply(sys, EnterGate(id)), Admit(id))
    ensures taken == Apply(Apply(sys, EnterGate(id)), Admit(id))
    ensures Inv(taken) && Unopposed(taken, id, RequestOf(sys, id).scope)
    ensures var r := RequestOf(sys, id);
            var n := |PlanOf(id, r.scope)|;
            && r.hi < n
            && taken.requests ==
               sys.requests[id := Active(r.scope, 0, r.hi + 1, if r.hi + 1 == n then Granted else Acquiring)]
  {
    var r := RequestOf(sys, id);
    var entered := EnterUnopposed(sys, id);
    assert RequestOf(entered, id) == r.(phase := Waiting);
    taken := AdmitUnopposed(entered, id);
  }

  /** A request nothing in flight overlaps goes straight through all its gates. */
  lemma {:induction false} UnopposedIsGranted(sys: System, id: RequestId)
    returns (run: seq<Action>, sys': System)
    requires Inv(sys) && RequestOf(sys, id).Active? && RequestOf(sys, id).phase.Acquiring?
    requires Unopposed(sys, id, RequestOf(sys, id).scope)
    ensures RunsTo(sys, run, sys') && Inv(sys')
    ensures var scope := RequestOf(sys, id).scope;
            sys'.requests == sys.requests[id := Active(scope, 0, |PlanOf(id, scope)|, Granted)]
    ensures forall k | 0 <= k < |run| :: run[k].id == id && Advances(run[k])
    decreases |PlanOf(id, RequestOf(sys, id).scope)| - RequestOf(sys, id).hi
  {
    var taken := TakeNextUnopposed(sys, id);
    var rest := [];
    sys' := taken;
    if RequestOf(taken, id).phase.Acquiring? {
      rest, sys' := UnopposedIsGranted(taken, id);
    }
    run := [EnterGate(id), Admit(id)] + rest;
    TwoThen(sys, EnterGate(id), Admit(id), rest, sys');
    OwnSteps(id, rest);
  }

  lemma OwnSteps(id: RequestId, rest: seq<Action>)
    requires forall k | 0 <= k < |rest| :: rest[k].id == id && Advances(rest[k])
    ensures var run := [EnterGate(id), Admit(id)] + rest;
            forall k | 0 <= k < |run| :: run[k].id == id && Advances(run[k])
  {
  }

  lemma TwoThen(sys: System, first: Action, second: Action, rest: seq<Action>, sys': System)
    requires Enabled(sys, first) && Enabled(Apply(sys, first), second)
    requires RunsTo(Apply(Apply(sys, first), second), rest, sys')
    ensures RunsTo(sys, [first, second] + rest, sys')
  {
    var run := [first, second] + rest;
    assert run[1..] == [second] + rest && run[1..][1..] == rest;
  }

  ghost predicate HoldsExactly(sys: System, scopes: seq<Scope>) {
    forall id: RequestId ::
      RequestOf(sys, id) ==
      if !id.nested && id.thread < |scopes|
      then Active(scopes[id.thread], 0, |Plan(scopes[id.thread])|, Granted)
      else Idle
  }

  lemma NewcomerIsUnopposed(mid: System, begun: System, scopes: seq<Scope>)
    requires scopes != [] && HoldsExactly(mid, scopes[..|scopes| - 1])
    requires forall i, j | 0 <= i < j < |scopes| :: !Conflicts(scopes[j], scopes[i])
    requires forall other: RequestId | other.thread != |scopes| - 1 :: RequestOf(begun, other) == RequestOf(mid, other)
    ensures Unopposed(begun, RequestId(|scopes| - 1, false), scopes[|scopes| - 1])
  {
    forall other: RequestId | other.thread != |scopes| - 1 && RequestOf(begun, other).Active?
      ensures !Conflicts(scopes[|scopes| - 1], RequestOf(begun, other).scope)
    {
      assert RequestOf(mid, other).scope == scopes[other.thread];
    }
  }

  lemma OneMoreHeld(mid: System, begun: System, sys: System, scopes: seq<Scope>)
    requires scopes != [] && HoldsExactly(mid, scopes[..|scopes| - 1])
    requires forall other: RequestId | other != RequestId(|scopes| - 1, false) ::
      RequestOf(begun, other) == RequestOf(mid, other)
    requires var id, scope := RequestId(|scopes| - 1, false), scopes[|scopes| - 1];
      sys.requests == begun.requests[id := Active(scope, 0, |PlanOf(id, scope)|, Granted)]
    ensures HoldsExactly(sys, scopes)
  {
    forall other: RequestId
      ensures RequestOf(sys, other) ==
              if !other.nested && other.thread < |scopes|
              then Active(scopes[other.thread], 0, |Plan(scopes[other.thread])|, Granted) else Idle
    {
      if other != RequestId(|scopes| - 1, false) {
        assert RequestOf(sys, other) == RequestOf(mid, other);
      }
    }
  }

  /** Any family of scopes that do not conflict pairwise can all be held at once. */
  lemma {:induction false} UnrelatedLeasesCoexist(scopes: seq<Scope>) returns (run: seq<Action>, sys: System)
    requires forall i, j | 0 <= i < j < |scopes| :: !Conflicts(scopes[j], scopes[i])
    ensures RunsTo(INITIAL, run, sys) && HoldsExactly(sys, scopes)
    decreases |scopes|
  {
    if scopes == [] {
      run, sys := [], INITIAL;
    } else {
      var n := |scopes| - 1;
      var id, scope := RequestId(n, false), scopes[n];
      var before, mid := UnrelatedLeasesCoexist(scopes[..n]);
      assert Reachable(mid);
      ReachableInv(mid);
      var begun := Apply(mid, Begin(id, scope));
      StepPreservesInv(mid, Begin(id, scope));
      NewcomerIsUnopposed(mid, begun, scopes);
      var rest;
      rest, sys := UnopposedIsGranted(begun, id);
      OneMoreHeld(mid, begun, sys, scopes);
      RunAppend(mid, [Begin(id, scope)], begun, rest, sys);
      RunAppend(INITIAL, before, mid, [Begin(id, scope)] + rest, sys);
      run := before + ([Begin(id, scope)] + rest);
    }
  }

  // ------------------------------------------------- acquire and drop, as code

  ghost predicate Reaches(sys: System, sys': System) {
    exists run :: RunsTo(sys, run, sys')
  }

  /** Steps of other threads only. */
  ghost predicate OthersReach(sys: System, sys': System, thread: nat) {
    exists run: seq<Action> :: RunsTo(sys, run, sys') && forall k | 0 <= k < |run| :: run[k].id.thread != thread
  }

  lemma ReachesTransitive(a: System, b: System, c: System)
    requires Reaches(a, b) && Reaches(b, c)
    ensures Reaches(a, c)
  {
    var first :| RunsTo(a, first, b);
    var second :| RunsTo(b, second, c);
    RunAppend(a, first, b, second, c);
  }

  lemma StepReaches(sys: System, mid: System, action: Action)
    requires Reaches(sys, mid) && Enabled(mid, action)
    ensures Reaches(sys, Apply(mid, action))
  {
    assert RunsTo(mid, [action], Apply(mid, action));
    ReachesTransitive(sys, mid, Apply(mid, action));
  }

  lemma {:induction false} OthersKeepRequest(sys: System, run: seq<Action>, sys': System, id: RequestId)
    requires RunsTo(sys, run, sys') && forall k | 0 <= k < |run| :: run[k].id.thread != id.thread
    ensures RequestOf(sys', id) == RequestOf(sys, id)
    decreases |run|
  {
    if run != [] {
      OthersKeepRequest(Apply(sys, run[0]), run[1..], sys', id);
    }
  }

  lemma WaitKeeps(start: System, before: System, after: System, id: RequestId)
    requires Reaches(start, before) && OthersReach(before, after, id.thread)
    ensures Reaches(start, after)
    ensures RequestOf(after, id) == RequestOf(before, id)
    ensures SiblingKept(before, after, id)
  {
    var run: seq<Action> :| RunsTo(before, run, after) && forall k | 0 <= k < |run| :: run[k].id.thread != id.thread;
    OthersKeepRequest(before, run, after, id);
    OthersKeepRequest(before, run, after, RequestId(id.thread, !id.nested));
    ReachesTransitive(start, before, after);
  }

  /** The thread's own requests, other than `id`, are as they were. */
  ghost predicate SiblingKept(sys: System, sys': System, id: RequestId) {
    var sibling := RequestId(id.thread, !id.nested);
    RequestOf(sys', sibling) == RequestOf(sys, sibling)
  }

  lemma EnterEffect(sys: System, id: RequestId)
    requires Enabled(sys, EnterGate(id))
    ensures var sys' := Apply(sys, EnterGate(id));
            RequestOf(sys', id) == RequestOf(sys, id).(phase := Waiting) && SiblingKept(sys, sys', id)
  {
  }

  /** A waiting request is admitted if the gate lets it, and can time out otherwise. */
  lemma LeaveEffect(sys: System, id: RequestId, admitted: bool)
    requires Inv(sys) && RequestOf(sys, id).Active? && RequestOf(sys, id).phase.Waiting?
    requires admitted == Enabled(sys, Admit(id))
    ensures Enabled(sys, if admitted then Admit(id) else TimeOut(id))
    ensures var sys' := Apply(sys, if admitted then Admit(id) else TimeOut(id));
            var r := RequestOf(sys, id);
            && SiblingKept(sys, sys', id)
            && RequestOf(sys', id) ==
               if !admitted then r.(phase := Dropping)
               else r.(hi := r.hi + 1,
                       phase := if r.hi + 1 == |PlanOf(id, r.scope)| then Granted else Acquiring)
  {
    assert RequestInv(sys, id, RequestOf(sys, id));
  }

  /** The daemon's gates, driven by one thread while any others take steps whenever it waits and
      between any two of its critical sections. */
  class LeaseTable {
    var sys: System

    constructor ()
      ensures Inv(sys) && sys == INITIAL
    {
      sys := INITIAL;
      new;
      assert RunsTo(INITIAL, [], sys);
      ReachableInv(sys);
    }

    /** Waiting on the condition variable: other threads may run for any number of steps. */
    method Wait(thread: nat)
      requires Inv(sys)
      modifies this
      ensures Inv(sys) && OthersReach(old(sys), sys, thread)
    {
      assert RunsTo(sys, [], sys);
    }

    /** Between two critical sections: the same. */
    method Yield(id: RequestId, ghost start: System)
      requires Inv(sys) && Reaches(start, sys)
      modifies this
      ensures Inv(sys) && Reaches(start, sys)
      ensures RequestOf(sys, id) == old(RequestOf(sys, id)) && SiblingKept(old(sys), sys, id)
    {
      Wait(id.thread);
      WaitKeeps(start, old(sys), sys, id);
    }

    /** One critical section under a gate's mutex. */
    method Do(action: Action, ghost start: System)
      requires Inv(sys) && Enabled(sys, action) && Reaches(start, sys)
      modifies this
      ensures sys == Apply(old(sys), action) && Inv(sys) && Reaches(start, sys)
    {
      StepReaches(start, sys, action);
      StepPreservesInv(sys, action);
      sys := Apply(sys, action);
    }

    /** The wait loop of `Gate::acquire`. The deadline is a number of wake-ups. */
    method WaitAtGate(id: RequestId, deadline: nat, ghost start: System)
      requires Inv(sys) && Reaches(start, sys)
      modifies this
      ensures Inv(sys) && Reaches(start, sys) && SiblingKept(old(sys), sys, id)
      ensures RequestOf(sys, id) == old(RequestOf(sys, id))
    {
      var remaining := deadline;
      while !Enabled(sys, Admit(id)) && remaining > 0
        invariant Inv(sys) && Reaches(start, sys) && SiblingKept(old(sys), sys, id)
        invariant RequestOf(sys, id) == old(RequestOf(sys, id))
      {
        Yield(id, start);
        remaining := remaining - 1;
      }
    }

    /** One gate, as `Gate::acquire` takes it or gives up. */
    method AcquireGate(id: RequestId, deadline: nat) returns (admitted: bool)
      requires Inv(sys) && Enabled(sys, EnterGate(id))
      modifies this
      ensures Inv(sys) && Reaches(old(sys), sys)
      ensures var r := old(RequestOf(sys, id));
              RequestOf(sys, id) ==
              if !admitted then r.(phase := Dropping)
              else r.(hi := r.hi + 1,
                      phase := if r.hi + 1 == |PlanOf(id, r.scope)| then Granted else Acquiring)
      ensures SiblingKept(old(sys), sys, id)
    {
      ghost var start := sys;
      assert RunsTo(sys, [], sys);
      EnterEffect(sys, id);
      Do(EnterGate(id), start);
      WaitAtGate(id, deadline, start);
      admitted := Enabled(sys, Admit(id));
      LeaveEffect(sys, id, admitted);
      Do(if admitted then Admit(id) else TimeOut(id), start);
    }

    /** Dropping the guards in the order they were pushed. */
    method DropGuards(id: RequestId)
      requires Inv(sys) && RequestOf(sys, id).Active? && RequestOf(sys, id).phase.Dropping?
      modifies this
      ensures Inv(sys) && Reaches(old(sys), sys) && RequestOf(sys, id).Idle?
      ensures SiblingKept(old(sys), sys, id)
    {
      ghost var start := sys;
      assert RunsTo(sys, [], sys);
      assert RequestInv(sys, id, sys.requests[id]);
      while RequestOf(sys, id).lo < RequestOf(sys, id).hi
        invariant Inv(sys) && Reaches(start, sys)
        invariant RequestOf(sys, id).Active? && RequestOf(sys, id).phase.Dropping?
        invariant RequestInv(sys, id, RequestOf(sys, id))
        invariant SiblingKept(start, sys, id)
        decreases RequestOf(sys, id).hi - RequestOf(sys, id).lo
      {
        Yield(id, start);
        Do(DropGuard(id), start);
        assert RequestInv(sys, id, sys.requests[id]);
      }
      Yield(id, start);
      Do(End(id), start);
    }

    /** `LifecycleLeases::acquire` and, for a nested request, `acquire_workspace_only`: a request
        either ends up holding every gate of its plan or holding none. */
    method Acquire(id: RequestId, scope: Scope, deadline: nat) returns (ok: bool)
      requires Inv(sys) && Enabled(sys, Begin(id, scope))
      modifies this
      ensures Inv(sys) && Reaches(old(sys), sys)
      ensures RequestOf(sys, id) == if ok then Active(scope, 0, |PlanOf(id, scope)|, Granted) else Idle
      ensures SiblingKept(old(sys), sys, id)
    {
      ghost var start := sys;
      assert RunsTo(sys, [], sys);
      Do(Begin(id, scope), start);
      PlanDistinct(id, scope);
      var taken := 0;
      while taken < |PlanOf(id, scope)|
        invariant Inv(sys) && Reaches(start, sys) && taken <= |PlanOf(id, scope)|
        invariant RequestOf(sys, id) ==
                  Active(scope, 0, taken, if taken == |PlanOf(id, scope)| then Granted else Acquiring)
        invariant SiblingKept(start, sys, id)
      {
        Yield(id, start);
        ghost var before := sys;
        var admitted := AcquireGate(id, deadline);
        ReachesTransitive(start, before, sys);
        if !admitted {
          before := sys;
          DropGuards(id);
          ReachesTransitive(start, before, sys);
          return false;
        }
        taken := taken + 1;
      }
      return true;
    }
  }
}
