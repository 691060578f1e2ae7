/** Registry records, schema versions and the migration loop. */
module RegistryRecords {
  import opened Words
  import opened Wrappers

  const REGISTRY_VERSION: nat := 1

  datatype Registry = Registry(version: nat, generation: nat, sandboxes: map<string, string>)

  /** What is in the file: a document, or bytes that do not parse. */
  datatype Content = Corrupt | Doc(registry: Registry)

  datatype MigrationStep = MigrationStep(from: nat, to: nat)

  /** The steps from one version to another, each one version long. */
  function StepsBetween(from: nat, to: nat): (steps: seq<MigrationStep>)
    ensures |steps| == (if from < to then to - from else 0)
    decreases if from < to then to - from else 0
  {
    if from >= to then [] else [MigrationStep(from, from + 1)] + StepsBetween(from + 1, to)
  }

  lemma {:induction false} StepsExtend(from: nat, count: nat)
    ensures StepsBetween(from, from + count) + [MigrationStep(from + count, from + count + 1)]
         == StepsBetween(from, from + count + 1)
    decreases count
  {
    if count > 0 { StepsExtend(from + 1, count - 1); }
  }

  /** `migrate`: refuses a newer record, and otherwise brings an older one forward one version at
      a time, changing nothing but the version. */
  method Migrate(registry: Registry) returns (r: Result<(Registry, seq<MigrationStep>)>)
    ensures r.Ok? <==> registry.version <= REGISTRY_VERSION
    ensures r.Ok? ==> r.value.0 == registry.(version := REGISTRY_VERSION)
    ensures r.Ok? ==> r.value.1 == StepsBetween(registry.version, REGISTRY_VERSION)
  {
    if registry.version > REGISTRY_VERSION {
      return Err;
    }
    var current := registry;
    var applied := [];
    while current.version < REGISTRY_VERSION
      invariant registry.version <= current.version <= REGISTRY_VERSION
      invariant current == registry.(version := current.version)
      invariant applied == StepsBetween(registry.version, current.version)
    {
      var from := current.version;
      if from != 0 {
        return Err;
      }
      current := current.(version := from + 1);
      applied := applied + [MigrationStep(from, from + 1)];
      StepsExtend(registry.version, from - registry.version);
    }
    return Ok((current, applied));
  }

  /** Reading the file: parse, refuse a newer schema, migrate. */
  function Load(content: Content): Result<Registry> {
    match content
    case Corrupt => Err
    case Doc(registry) =>
      if registry.version > REGISTRY_VERSION then Err else Ok(registry.(version := REGISTRY_VERSION))
  }

  function NextGeneration(generation: nat): nat {
    if generation >= U64_MAX then U64_MAX else generation + 1
  }

  const DEFAULT := Registry(REGISTRY_VERSION, 0, map[])
}

/**
 The registry file, its file lock and the per-process read cache. Any number of processes, each
 with any number of threads, interleave at every stat, load, commit, cache access and lock step,
 and any process may crash.
 */
module RegistryCache {
  import opened RegistryRecords
  import opened Wrappers

  type Answer = string
  type Query = Registry -> Result<Answer>
  type Mutation = Registry -> Result<(Registry, Answer)>

  datatype ThreadId = ThreadId(process: nat, thread: nat)

  /** How a committed version came to be. */
  datatype Origin = Found | Created | Mutated(mutation: Mutation, call: nat)

  datatype Version = Version(fingerprint: nat, content: Content, origin: Origin)

  /** `writer` is the call that stored the entry, if one did. */
  datatype Cache = Cache(fingerprint: nat, registry: Registry, writer: Option<nat>)

  /** Where `ensure_registry` can fail. The unlock can fail after creating the file went well or not. */
  datatype Setup = NoStateDir | SetupLock | SetupWrite | SetupUnlock(ready: bool)

  /** How a call ended: with the operation's own answer, or with an I/O failure at some point. A failing
      unlock keeps the error from inside the lock and hides an answer. */
  datatype Outcome = Answered(answer: Result<Answer>) | IoFailed(stage: Stage)

  datatype Stage =
    | AtEnsure(setup: Setup) | AtLock | AtLoad | BeforeRename | AfterRename | AtUnlock(inside: Outcome)

  /** The outcomes of a mutation that replaced the file. */
  predicate ReportsCommit(outcome: Outcome) {
    match outcome
    case Answered(answer) => answer.Ok?
    case IoFailed(AfterRename) => true
    case IoFailed(AtUnlock(inside)) => ReportsCommit(inside)
    case IoFailed(_) => false
  }

  datatype Thread =
    | Idle
    // ensure_registry
    | EnsureCheck | EnsureWant | EnsureCreate | EnsureUnlock(ready: bool) | EnsureDone(failure: Option<Setup>)
    // with_registry; `since` is the number of versions when the call began
    | ReadStat(query: Query, since: nat)
    | ReadProbe(query: Query, since: nat, seen: nat)
    | ReadWant(query: Query, since: nat)
    | ReadRestat(query: Query, since: nat)
    | ReadReprobe(query: Query, since: nat, seen: nat)
    | ReadLoad(query: Query, since: nat)
    | ReadCacheStat(query: Query, since: nat, registry: Registry, answer: Answer)
    | ReadCacheSet(query: Query, since: nat, registry: Registry, answer: Answer, seen: nat)
    | ReadUnlock(query: Query, since: nat, outcome: Outcome)
    | ReadDone(query: Query, since: nat, outcome: Outcome)
    // with_registry_mut
    | WriteWant(mutation: Mutation, since: nat)
    | WriteLoad(mutation: Mutation, since: nat)
    | WriteSave(mutation: Mutation, since: nat, registry: Registry, answer: Answer)
    | WriteCacheStat(mutation: Mutation, since: nat, registry: Registry, answer: Answer)
    | WriteCacheSet(mutation: Mutation, since: nat, registry: Registry, answer: Answer, seen: nat)
    | WriteUnlock(mutation: Mutation, since: nat, outcome: Outcome)
    | WriteDone(mutation: Mutation, since: nat, outcome: Outcome)
  {
    predicate InsideLock() {
      || EnsureCreate? || EnsureUnlock?
      || ReadRestat? || ReadReprobe? || ReadLoad? || ReadCacheStat? || ReadCacheSet? || ReadUnlock?
      || WriteLoad? || WriteSave? || WriteCacheStat? || WriteCacheSet? || WriteUnlock?
    }
  }

  datatype System = System(
    versions: seq<Version>,
    lock: Option<ThreadId>,
    caches: map<nat, Cache>,
    threads: map<ThreadId, Thread>,
    calls: map<ThreadId, nat>,              // the number of each thread's latest mutation
    begun: nat)                             // mutations begun so far

  datatype Action =
    | BeginEnsure(id: ThreadId)
    | BeginRead(id: ThreadId, query: Query)
    | BeginWrite(id: ThreadId, mutation: Mutation)
    | Step(id: ThreadId)                    // the next step of a call that does no write
    | Commit(id: ThreadId, stamp: nat)      // a write that replaces the file and reports success
    | CommitThenFail(id: ThreadId, stamp: nat)
    | Fail(id: ThreadId)                    // an I/O error or a lock timeout
    | Crash(process: nat)

  ghost predicate Initial(sys: System) {
    && |sys.versions| <= 1 && (|sys.versions| == 1 ==> sys.versions[0].origin.Found?)
    && sys.lock.None? && sys.caches == map[] && sys.threads == map[] && sys.calls == map[]
  }

  function ThreadOf(sys: System, id: ThreadId): Thread {
    if id in sys.threads then sys.threads[id] else Idle
  }

  /** The record after the first `n` versions; nothing to load before the first. */
  function LoadAt(versions: seq<Version>, n: nat): Result<Registry>
    requires n <= |versions|
  {
    if n == 0 then Err else Load(versions[n - 1].content)
  }

  function Now(sys: System): Result<Registry> {
    LoadAt(sys.versions, |sys.versions|)
  }

  /** What a query answers on the file as it was after `n` versions. */
  function AnswerAt(versions: seq<Version>, n: nat, query: Query): Result<Answer>
    requires n <= |versions|
  {
    match LoadAt(versions, n)
    case Err => Err
    case Ok(registry) => query(registry)
  }

  /** A mutation on a loaded record: the operation, then the generation, then the version check
      that guards the write. */
  function Mutate(registry: Registry, mutation: Mutation): Result<(Registry, Answer)> {
    match mutation(registry)
    case Err => Err
    case Ok((changed, answer)) =>
      var next := changed.(generation := NextGeneration(changed.generation));
      if next.version != REGISTRY_VERSION then Err else Ok((next, answer))
  }

  function MutateAt(versions: seq<Version>, n: nat, mutation: Mutation): Result<(Registry, Answer)>
    requires n <= |versions|
  {
    match LoadAt(versions, n)
    case Err => Err
    case Ok(registry) => Mutate(registry, mutation)
  }

  /** Distinct committed versions have distinct fingerprints. */
  predicate FreshFingerprint(sys: System, fingerprint: nat) {
    forall k | 0 <= k < |sys.versions| :: sys.versions[k].fingerprint != fingerprint
  }

  function CacheHit(sys: System, id: ThreadId, seen: nat): Option<Registry> {
    if id.process in sys.caches && sys.caches[id.process].fingerprint == seen
    then Some(sys.caches[id.process].registry)
    else None
  }

  predicate TakesLock(t: Thread) {
    t.EnsureWant? || t.ReadWant? || t.WriteWant?
  }

  predicate FreesLock(t: Thread) {
    t.EnsureUnlock? || t.ReadUnlock? || t.WriteUnlock?
  }

  /** The thread's next step is not a write, and the lock is free if it needs it. */
  predicate CanStep(sys: System, id: ThreadId) {
    var t := ThreadOf(sys, id);
    && !t.Idle? && !t.WriteSave?
    && (TakesLock(t) ==> sys.lock.None?)
    && (t.EnsureCreate? ==> sys.versions != [])
  }

  predicate CanFail(sys: System, id: ThreadId) {
    var t := ThreadOf(sys, id);
    !t.Idle? && !t.EnsureDone? && !t.ReadDone? && !t.WriteDone?
  }

  predicate Enabled(sys: System, action: Action) {
    match action
    case BeginEnsure(id) => ThreadOf(sys, id).Idle?
    case BeginRead(id, _) => ThreadOf(sys, id).Idle?
    case BeginWrite(id, _) => ThreadOf(sys, id).Idle?
    case Step(id) => CanStep(sys, id)
    case Commit(id, stamp) =>
      var t := ThreadOf(sys, id);
      (t.WriteSave? || (t.EnsureCreate? && sys.versions == [])) && FreshFingerprint(sys, stamp)
    case CommitThenFail(id, stamp) =>
      var t := ThreadOf(sys, id);
      (t.WriteSave? || (t.EnsureCreate? && sys.versions == [])) && FreshFingerprint(sys, stamp)
    case Fail(id) => CanFail(sys, id)
    case Crash(_) => true
  }

  function WithThread(sys: System, id: ThreadId, thread: Thread): System {
    sys.(threads := sys.threads[id := thread])
  }

  function CallOf(sys: System, id: ThreadId): nat {
    if id in sys.calls then sys.calls[id] else 0
  }

  function Stat(sys: System): Option<nat> {
    if sys.versions == [] then None else Some(sys.versions[|sys.versions| - 1].fingerprint)
  }

  /** Where a step that does not write the file takes the thread. */
  function NextThread(sys: System, id: ThreadId): Thread
    requires CanStep(sys, id)
  {
    match ThreadOf(sys, id)
    case EnsureCheck => if sys.versions != [] then EnsureDone(None) else EnsureWant
    case EnsureWant => EnsureCreate
    case EnsureCreate => EnsureUnlock(true)
    case EnsureUnlock(ready) => EnsureDone(if ready then None else Some(SetupWrite))
    case ReadStat(q, n) => (match Stat(sys) case None => ReadWant(q, n) case Some(f) => ReadProbe(q, n, f))
    case ReadProbe(q, n, f) =>
      (match CacheHit(sys, id, f)
       case Some(registry) => ReadDone(q, n, Answered(q(registry)))
       case None => ReadWant(q, n))
    case ReadWant(q, n) => ReadRestat(q, n)
    case ReadRestat(q, n) => (match Stat(sys) case None => ReadLoad(q, n) case Some(f) => ReadReprobe(q, n, f))
    case ReadReprobe(q, n, f) =>
      (match CacheHit(sys, id, f)
       case Some(registry) => ReadUnlock(q, n, Answered(q(registry)))
       case None => ReadLoad(q, n))
    case ReadLoad(q, n) =>
      (match Now(sys)
       case Err => ReadUnlock(q, n, Answered(Err))
       case Ok(registry) =>
         match q(registry)
         case Err => ReadUnlock(q, n, Answered(Err))
         case Ok(answer) => ReadCacheStat(q, n, registry, answer))
    case ReadCacheStat(q, n, r, a) =>
      (match Stat(sys)
       case None => ReadUnlock(q, n, Answered(Ok(a)))
       case Some(f) => ReadCacheSet(q, n, r, a, f))
    case ReadCacheSet(q, n, r, a, f) => ReadUnlock(q, n, Answered(Ok(a)))
    case ReadUnlock(q, n, o) => ReadDone(q, n, o)
    case WriteWant(m, n) => WriteLoad(m, n)
    case WriteLoad(m, n) =>
      (match MutateAt(sys.versions, |sys.versions|, m)
       case Err => WriteUnlock(m, n, Answered(Err))
       case Ok((registry, answer)) => WriteSave(m, n, registry, answer))
    case WriteCacheStat(m, n, r, a) =>
      (match Stat(sys)
       case None => WriteUnlock(m, n, Answered(Ok(a)))
       case Some(f) => WriteCacheSet(m, n, r, a, f))
    case WriteCacheSet(m, n, r, a, f) => WriteUnlock(m, n, Answered(Ok(a)))
    case WriteUnlock(m, n, o) => WriteDone(m, n, o)
    case ReadDone(_, _, _) => Idle
    case WriteDone(_, _, _) => Idle
    case EnsureDone(_) => Idle
  }

  /** One step of a call that does not write the file. Only a step that stores a cache entry changes
      the caches. */
  function Advance(sys: System, id: ThreadId): System
    requires CanStep(sys, id)
  {
    var t := ThreadOf(sys, id);
    sys.(threads := sys.threads[id := NextThread(sys, id)],
         lock := if TakesLock(t) then Some(id) else if FreesLock(t) then None else sys.lock,
         caches := match t
                   case ReadCacheSet(_, _, r, _, f) => sys.caches[id.process := Cache(f, r, None)]
                   case WriteCacheSet(_, _, r, _, f) => sys.caches[id.process := Cache(f, r, Some(CallOf(sys, id)))]
                   case _ => sys.caches)
  }

  /** The version a commit appends. */
  function NewVersion(sys: System, id: ThreadId, stamp: nat): Version {
    match ThreadOf(sys, id)
    case WriteSave(mutation, _, registry, _) => Version(stamp, Doc(registry), Mutated(mutation, CallOf(sys, id)))
    case _ => Version(stamp, Doc(DEFAULT), Created)
  }

  function Unlocked(sys: System, id: ThreadId): Option<ThreadId> {
    if sys.lock == Some(id) then None else sys.lock
  }

  function Failed(t: Thread): Thread {
    match t
    case WriteSave(m, n, _, _) => WriteUnlock(m, n, IoFailed(BeforeRename))
    case WriteCacheStat(m, n, _, a) => WriteUnlock(m, n, Answered(Ok(a)))
    case WriteCacheSet(m, n, _, a, _) => WriteUnlock(m, n, Answered(Ok(a)))
    case ReadCacheStat(q, n, _, a) => ReadUnlock(q, n, Answered(Ok(a)))
    case ReadCacheSet(q, n, _, a, _) => ReadUnlock(q, n, Answered(Ok(a)))
    case ReadRestat(q, n) => ReadUnlock(q, n, IoFailed(AtLoad))
    case ReadReprobe(q, n, _) => ReadUnlock(q, n, IoFailed(AtLoad))
    case ReadLoad(q, n) => ReadUnlock(q, n, IoFailed(AtLoad))
    case WriteLoad(m, n) => WriteUnlock(m, n, IoFailed(AtLoad))
    case ReadStat(q, n) => ReadDone(q, n, IoFailed(AtLoad))
    case ReadProbe(q, n, _) => ReadDone(q, n, IoFailed(AtLoad))
    case ReadWant(q, n) => ReadDone(q, n, IoFailed(AtLock))
    case WriteWant(m, n) => WriteDone(m, n, IoFailed(AtLock))
    case ReadUnlock(q, n, o) => ReadDone(q, n, IoFailed(AtUnlock(o)))
    case WriteUnlock(m, n, o) => WriteDone(m, n, IoFailed(AtUnlock(o)))
    case EnsureCheck => EnsureDone(Some(NoStateDir))
    case EnsureWant => EnsureDone(Some(SetupLock))
    case EnsureCreate => EnsureUnlock(false)
    case EnsureUnlock(ready) => EnsureDone(Some(SetupUnlock(ready)))
    case _ => Idle
  }

  /** The call fails where it is. */
  function Fallen(sys: System, id: ThreadId): System {
    var next := Failed(ThreadOf(sys, id));
    WithThread(sys, id, next).(lock := if next.InsideLock() then sys.lock else Unlocked(sys, id))
  }

  function Apply(sys: System, action: Action): System
    requires Enabled(sys, action)
  {
    match action
    case BeginEnsure(id) => WithThread(sys, id, EnsureCheck)
    case BeginRead(id, query) => WithThread(sys, id, ReadStat(query, |sys.versions|))
    case BeginWrite(id, mutation) =>
      WithThread(sys, id, WriteWant(mutation, |sys.versions|))
      .(calls := sys.calls[id := sys.begun], begun := sys.begun + 1)
    case Step(id) => Advance(sys, id)
    case Commit(id, stamp) =>
      var next := match ThreadOf(sys, id)
        case WriteSave(m, n, r, a) => WriteCacheStat(m, n, r, a)
        case _ => EnsureUnlock(true);
      WithThread(sys, id, next).(versions := sys.versions + [NewVersion(sys, id, stamp)])
    case CommitThenFail(id, stamp) =>
      var next := match ThreadOf(sys, id)
        case WriteSave(m, n, _, _) => WriteUnlock(m, n, IoFailed(AfterRename))
        case _ => EnsureUnlock(false);
      WithThread(sys, id, next).(versions := sys.versions + [NewVersion(sys, id, stamp)])
    case Fail(id) =>
      Fallen(sys, id)
    case Crash(process) =>
      sys.(threads := map id | id in sys.threads && id.process != process :: sys.threads[id],
           caches := sys.caches - {process},
           lock := if sys.lock.Some? && sys.lock.value.process == process then None else sys.lock)
  }

  ghost predicate RunsTo(sys: System, run: seq<Action>, sys': System)
    decreases |run|
  {
    if run == [] then sys == sys'
    else Enabled(sys, run[0]) && RunsTo(Apply(sys, run[0]), run[1..], sys')
  }

  ghost predicate Reachable(sys: System) {
    exists start, run :: Initial(start) && RunsTo(start, run, sys)
  }

  // ---------------------------------------------------------------- invariant

  /** The answer is the one the query gives on a version current during the call. */
  ghost predicate Linearizes(versions: seq<Version>, since: nat, query: Query, outcome: Outcome) {
    outcome.Answered? ==>
      exists n | since <= n <= |versions| :: outcome.answer == AnswerAt(versions, n, query)
  }

  /** A mutation that reports success replaced the version it read, with nothing in between. A
      mutation that reports the operation's failure read a version on which it does fail. What an I/O
      failure leaves behind is told by `LeftBehind`. */
  ghost predicate Commits(versions: seq<Version>, since: nat, mutation: Mutation, outcome: Outcome) {
    match outcome
    case IoFailed(_) => true
    case Answered(Err) => exists n | since <= n <= |versions| :: MutateAt(versions, n, mutation).Err?
    case Answered(Ok(answer)) =>
      exists n | since <= n < |versions| :: CommittedOver(versions, n, mutation, answer)
  }

  /** Version `n + 1` is the mutation of version `n`, and `answer` is what the operation said. */
  ghost predicate CommittedOver(versions: seq<Version>, n: nat, mutation: Mutation, answer: Answer) {
    && n < |versions|
    && var outcome := MutateAt(versions, n, mutation);
    && outcome.Ok? && outcome.value.1 == answer
    && versions[n].content == Doc(outcome.value.0)
    && versions[n].origin.Mutated? && versions[n].origin.mutation == mutation
  }

  ghost predicate SeenDuring(versions: seq<Version>, since: nat, fingerprint: nat) {
    exists k | 0 <= k < |versions| :: since <= k + 1 && versions[k].fingerprint == fingerprint
  }

  ghost predicate ThreadInv(sys: System, id: ThreadId, t: Thread) {
    var v := sys.versions;
    && (t.InsideLock() ==> sys.lock == Some(id))
    && match t
       case ReadStat(_, n) => n <= |v|
       case ReadProbe(_, n, f) => n <= |v| && SeenDuring(v, n, f)
       case ReadWant(_, n) => n <= |v|
       case ReadRestat(_, n) => n <= |v|
       case ReadReprobe(_, n, f) => n <= |v| && SeenDuring(v, n, f)
       case ReadLoad(_, n) => n <= |v|
       case ReadCacheStat(q, n, r, a) => n <= |v| && Now(sys) == Ok(r) && q(r) == Ok(a)
       case ReadCacheSet(q, n, r, a, f) => n <= |v| && Now(sys) == Ok(r) && q(r) == Ok(a) && Stat(sys) == Some(f)
       case ReadUnlock(q, n, o) => Linearizes(v, n, q, o)
       case ReadDone(q, n, o) => Linearizes(v, n, q, o)
       case WriteWant(_, n) => n <= |v|
       case WriteLoad(_, n) => n <= |v|
       case WriteSave(m, n, r, a) => n <= |v| && MutateAt(v, |v|, m) == Ok((r, a))
       case WriteCacheStat(m, n, r, a) => Now(sys) == Ok(r) && Commits(v, n, m, Answered(Ok(a)))
       case WriteCacheSet(m, n, r, a, f) =>
         Now(sys) == Ok(r) && Stat(sys) == Some(f) && Commits(v, n, m, Answered(Ok(a)))
       case WriteUnlock(m, n, o) => Commits(v, n, m, o)
       case WriteDone(m, n, o) => Commits(v, n, m, o)
       case _ => true
  }

  /** A cached record is what its fingerprint's version loads as. */
  ghost predicate CacheInv(versions: seq<Version>, cache: Cache) {
    exists k | 0 <= k < |versions| ::
      versions[k].fingerprint == cache.fingerprint && Load(versions[k].content) == Ok(cache.registry)
  }

  ghost predicate DistinctFingerprints(versions: seq<Version>) {
    forall i, j | 0 <= i < j < |versions| :: versions[i].fingerprint != versions[j].fingerprint
  }

  /** No update is lost: every version after the first is a mutation of the one right before it. */
  ghost predicate NoLostUpdate(versions: seq<Version>) {
    forall k | 1 <= k < |versions| :: Follows(versions, k, versions[k])
  }

  /** The version is what its own mutation makes of the first `k` versions. */
  ghost predicate Follows(versions: seq<Version>, k: nat, version: Version)
    requires k <= |versions|
  {
    && version.origin.Mutated?
    && var outcome := MutateAt(versions, k, version.origin.mutation);
    outcome.Ok? && version.content == Doc(outcome.value.0)
  }

  ghost predicate Inv(sys: System) {
    && DistinctFingerprints(sys.versions)
    && NoLostUpdate(sys.versions)
    && (forall p | p in sys.caches :: CacheInv(sys.versions, sys.caches[p]))
    && (forall id | id in sys.threads :: ThreadInv(sys, id, sys.threads[id]))
  }

  // ------------------------------------------------------ versions only extend

  lemma LoadExtends(versions: seq<Version>, next: Version, n: nat)
    requires n <= |versions|
    ensures LoadAt(versions + [next], n) == LoadAt(versions, n)
  {
  }

  lemma LinearizesExtends(versions: seq<Version>, next: Version, since: nat, query: Query, outcome: Outcome)
    requires Linearizes(versions, since, query, outcome)
    ensures Linearizes(versions + [next], since, query, outcome)
  {
    if outcome.Answered? {
      var n :| since <= n <= |versions| && outcome.answer == AnswerAt(versions, n, query);
      LoadExtends(versions, next, n);
      assert outcome.answer == AnswerAt(versions + [next], n, query);
    }
  }

  lemma CommitsExtends(versions: seq<Version>, next: Version, since: nat, mutation: Mutation, outcome: Outcome)
    requires Commits(versions, since, mutation, outcome)
    ensures Commits(versions + [next], since, mutation, outcome)
  {
    match outcome
    case IoFailed(_) =>
    case Answered(Err) =>
      var n :| since <= n <= |versions| && MutateAt(versions, n, mutation).Err?;
      LoadExtends(versions, next, n);
      assert MutateAt(versions + [next], n, mutation).Err?;
    case Answered(Ok(answer)) =>
      var n :| since <= n < |versions| && CommittedOver(versions, n, mutation, answer);
      LoadExtends(versions, next, n);
      assert CommittedOver(versions + [next], n, mutation, answer);
  }

  lemma SeenExtends(versions: seq<Version>, next: Version, since: nat, fingerprint: nat)
    requires SeenDuring(versions, since, fingerprint)
    ensures SeenDuring(versions + [next], since, fingerprint)
  {
    var k :| 0 <= k < |versions| && since <= k + 1 && versions[k].fingerprint == fingerprint;
    assert (versions + [next])[k] == versions[k];
  }

  lemma CacheExtends(versions: seq<Version>, next: Version, cache: Cache)
    requires CacheInv(versions, cache)
    ensures CacheInv(versions + [next], cache)
  {
    var k :| 0 <= k < |versions|
      && versions[k].fingerprint == cache.fingerprint && Load(versions[k].content) == Ok(cache.registry);
    assert (versions + [next])[k] == versions[k];
  }

  lemma FollowsExtends(versions: seq<Version>, next: Version, k: nat, version: Version)
    requires k <= |versions| && Follows(versions, k, version)
    ensures Follows(versions + [next], k, version)
  {
    LoadExtends(versions, next, k);
  }

  lemma FollowsStill(versions: seq<Version>, next: Version, k: nat)
    requires NoLostUpdate(versions) && 1 <= k <= |versions| && Follows(versions, |versions|, next)
    ensures Follows(versions + [next], k, (versions + [next])[k])
  {
    var version := if k < |versions| then versions[k] else next;
    FollowsExtends(versions, next, k, version);
    assert (versions + [next])[k] == version;
  }

  lemma HistoryExtends(versions: seq<Version>, next: Version)
    requires NoLostUpdate(versions) && (versions != [] ==> Follows(versions, |versions|, next))
    ensures NoLostUpdate(versions + [next])
  {
    forall k | 1 <= k < |versions + [next]| ensures Follows(versions + [next], k, (versions + [next])[k]) {
      FollowsStill(versions, next, k);
    }
  }

  lemma FingerprintsExtend(versions: seq<Version>, next: Version)
    requires DistinctFingerprints(versions)
    requires forall k | 0 <= k < |versions| :: versions[k].fingerprint != next.fingerprint
    ensures DistinctFingerprints(versions + [next])
  {
  }

  /** What a thread outside the lock knows survives another thread's commit. */
  lemma BystanderExtends(sys: System, sys': System, next: Version, id: ThreadId, t: Thread)
    requires ThreadInv(sys, id, t) && !t.InsideLock()
    requires sys'.versions == sys.versions + [next]
    ensures ThreadInv(sys', id, t)
  {
    match t
    case ReadProbe(_, n, f) => SeenExtends(sys.versions, next, n, f);
    case ReadDone(q, n, o) => LinearizesExtends(sys.versions, next, n, q, o);
    case WriteDone(m, n, o) => CommitsExtends(sys.versions, next, n, m, o);
    case _ =>
  }

  // -------------------------------------------------------------- preservation

  /** A cache hit answers as the version whose fingerprint was seen. */
  lemma HitLinearizes(sys: System, id: ThreadId, since: nat, seen: nat, query: Query)
    requires DistinctFingerprints(sys.versions) && SeenDuring(sys.versions, since, seen)
    requires CacheHit(sys, id, seen).Some? && CacheInv(sys.versions, sys.caches[id.process])
    ensures Linearizes(sys.versions, since, query, Answered(query(CacheHit(sys, id, seen).value)))
  {
    var v := sys.versions;
    var k :| 0 <= k < |v| && since <= k + 1 && v[k].fingerprint == seen;
    var cache := sys.caches[id.process];
    var j :| 0 <= j < |v| && v[j].fingerprint == cache.fingerprint && Load(v[j].content) == Ok(cache.registry);
    assert j == k;
    assert query(cache.registry) == AnswerAt(v, k + 1, query);
  }

  lemma NowLinearizes(sys: System, since: nat, query: Query)
    requires since <= |sys.versions|
    ensures Linearizes(sys.versions, since, query, Answered(AnswerAt(sys.versions, |sys.versions|, query)))
  {
  }

  lemma StatIsSeen(sys: System, since: nat)
    requires since <= |sys.versions| && Stat(sys).Some?
    ensures SeenDuring(sys.versions, since, Stat(sys).value)
  {
    var v := sys.versions;
    assert v[|v| - 1].fingerprint == Stat(sys).value;
  }

  lemma AdvanceProbe(sys: System, id: ThreadId)
    requires Inv(sys) && CanStep(sys, id)
    requires ThreadOf(sys, id).ReadProbe? || ThreadOf(sys, id).ReadReprobe?
    ensures ThreadInv(Advance(sys, id), id, ThreadOf(Advance(sys, id), id))
  {
    var t := ThreadOf(sys, id);
    assert ThreadInv(sys, id, t);
    if CacheHit(sys, id, t.seen).Some? { HitLinearizes(sys, id, t.since, t.seen, t.query); }
  }

  lemma AdvanceRead(sys: System, id: ThreadId)
    requires ThreadInv(sys, id, ThreadOf(sys, id)) && CanStep(sys, id)
    requires var t := ThreadOf(sys, id);
      t.ReadStat? || t.ReadWant? || t.ReadRestat? || t.ReadLoad? || t.ReadCacheStat? || t.ReadCacheSet?
      || t.ReadUnlock? || t.ReadDone?
    ensures ThreadInv(Advance(sys, id), id, ThreadOf(Advance(sys, id), id))
  {
    var t := ThreadOf(sys, id);
    if (t.ReadStat? || t.ReadRestat?) && Stat(sys).Some? { StatIsSeen(sys, t.since); }
    if t.ReadLoad? || t.ReadCacheStat? || t.ReadCacheSet? { NowLinearizes(sys, t.since, t.query); }
  }

  lemma AdvanceWrite(sys: System, id: ThreadId)
    requires ThreadInv(sys, id, ThreadOf(sys, id)) && CanStep(sys, id)
    requires var t := ThreadOf(sys, id);
      t.WriteWant? || t.WriteLoad? || t.WriteCacheStat? || t.WriteCacheSet? || t.WriteUnlock? || t.WriteDone?
      || t.EnsureCheck? || t.EnsureWant? || t.EnsureCreate? || t.EnsureUnlock? || t.EnsureDone?
    ensures ThreadInv(Advance(sys, id), id, ThreadOf(Advance(sys, id), id))
  {
  }

  /** The stepping thread's own knowledge. */
  lemma AdvanceOwn(sys: System, id: ThreadId)
    requires Inv(sys) && CanStep(sys, id)
    ensures ThreadInv(Advance(sys, id), id, ThreadOf(Advance(sys, id), id))
  {
    var t := ThreadOf(sys, id);
    assert ThreadInv(sys, id, t);
    if t.ReadProbe? || t.ReadReprobe? {
      AdvanceProbe(sys, id);
    } else if t.ReadStat? || t.ReadWant? || t.ReadRestat? || t.ReadLoad? || t.ReadCacheStat? || t.ReadCacheSet?
      || t.ReadUnlock? || t.ReadDone? {
      AdvanceRead(sys, id);
    } else {
      AdvanceWrite(sys, id);
    }
  }

  lemma CurrentIsCached(sys: System, seen: nat, registry: Registry, writer: Option<nat>)
    requires Now(sys) == Ok(registry) && Stat(sys) == Some(seen)
    ensures CacheInv(sys.versions, Cache(seen, registry, writer))
  {
    var v := sys.versions;
    assert v[|v| - 1].fingerprint == seen && Load(v[|v| - 1].content) == Ok(registry);
  }

  lemma AdvanceKeepsCaches(sys: System, id: ThreadId, p: nat)
    requires Inv(sys) && CanStep(sys, id) && p in Advance(sys, id).caches
    ensures CacheInv(sys.versions, Advance(sys, id).caches[p])
  {
    var t := ThreadOf(sys, id);
    assert ThreadInv(sys, id, t);
    if t.ReadCacheSet? || t.WriteCacheSet? {
      CurrentIsCached(sys, t.seen, t.registry, Advance(sys, id).caches[id.process].writer);
    }
  }

  lemma AdvancePreservesInv(sys: System, id: ThreadId)
    requires Inv(sys) && CanStep(sys, id)
    ensures Inv(Advance(sys, id))
  {
    var sys' := Advance(sys, id);
    AdvanceOwn(sys, id);
    forall p | p in sys'.caches { AdvanceKeepsCaches(sys, id, p); }
    assert ThreadInv(sys, id, ThreadOf(sys, id));
    forall other | other in sys'.threads && other != id ensures ThreadInv(sys', other, sys'.threads[other]) {
      assert ThreadInv(sys, other, sys.threads[other]);
      BystanderKeeps(sys, sys', other, sys.threads[other]);
    }
  }

  /** The committing thread's own knowledge. */
  lemma CommitOwn(sys: System, action: Action)
    requires Enabled(sys, action) && (action.Commit? || action.CommitThenFail?)
    requires ThreadInv(sys, action.id, ThreadOf(sys, action.id))
    ensures ThreadInv(Apply(sys, action), action.id, ThreadOf(Apply(sys, action), action.id))
  {
    var t, sys' := ThreadOf(sys, action.id), Apply(sys, action);
    if t.WriteSave? {
      LoadExtends(sys.versions, NewVersion(sys, action.id, action.stamp), |sys.versions|);
      assert CommittedOver(sys'.versions, |sys.versions|, t.mutation, t.answer);
    }
  }

  /** The thread that commits holds the lock, and what it appends follows the version it read. */
  lemma CommitFollows(sys: System, action: Action)
    requires Enabled(sys, action) && (action.Commit? || action.CommitThenFail?)
    requires ThreadInv(sys, action.id, ThreadOf(sys, action.id))
    ensures sys.lock == Some(action.id)
    ensures sys.versions != [] ==> Follows(sys.versions, |sys.versions|, NewVersion(sys, action.id, action.stamp))
  {
  }

  lemma CommitPreservesInv(sys: System, sys': System, id: ThreadId, next: Version)
    requires Inv(sys) && sys.lock == Some(id)
    requires sys'.versions == sys.versions + [next] && sys'.caches == sys.caches
    requires sys'.threads == sys.threads[id := ThreadOf(sys', id)] && ThreadInv(sys', id, ThreadOf(sys', id))
    requires FreshFingerprint(sys, next.fingerprint)
    requires sys.versions != [] ==> Follows(sys.versions, |sys.versions|, next)
    ensures Inv(sys')
  {
    HistoryExtends(sys.versions, next);
    FingerprintsExtend(sys.versions, next);
    forall p | p in sys'.caches ensures CacheInv(sys'.versions, sys'.caches[p]) {
      CacheExtends(sys.versions, next, sys.caches[p]);
    }
    forall other | other in sys'.threads && other != id ensures ThreadInv(sys', other, sys'.threads[other]) {
      assert ThreadInv(sys, other, sys.threads[other]);
      BystanderExtends(sys, sys', next, other, sys.threads[other]);
    }
  }

  lemma FailOwn(sys: System, id: ThreadId)
    requires ThreadInv(sys, id, ThreadOf(sys, id)) && CanFail(sys, id)
    ensures ThreadInv(Fallen(sys, id), id, ThreadOf(Fallen(sys, id), id))
  {
    var t := ThreadOf(sys, id);
    if t.ReadCacheStat? || t.ReadCacheSet? { NowLinearizes(sys, t.since, t.query); }
  }

  /** A thread's knowledge depends on the versions, and on the lock only while it is inside it. */
  lemma BystanderKeeps(sys: System, sys': System, id: ThreadId, t: Thread)
    requires ThreadInv(sys, id, t) && sys'.versions == sys.versions
    requires t.InsideLock() ==> sys'.lock == sys.lock
    ensures ThreadInv(sys', id, t)
  {
  }

  lemma FailPreservesInv(sys: System, id: ThreadId)
    requires Inv(sys) && CanFail(sys, id)
    ensures Inv(Fallen(sys, id))
  {
    var sys' := Fallen(sys, id);
    assert ThreadInv(sys, id, ThreadOf(sys, id));
    FailOwn(sys, id);
    forall other | other in sys'.threads && other != id ensures ThreadInv(sys', other, sys'.threads[other]) {
      assert ThreadInv(sys, other, sys.threads[other]);
      BystanderKeeps(sys, sys', other, sys.threads[other]);
    }
  }

  lemma BeginPreservesInv(sys: System, action: Action)
    requires Inv(sys) && Enabled(sys, action)
    requires action.BeginEnsure? || action.BeginRead? || action.BeginWrite?
    ensures Inv(Apply(sys, action))
  {
    var id, sys' := action.id, Apply(sys, action);
    forall other | other in sys'.threads && other != id ensures ThreadInv(sys', other, sys'.threads[other]) {
      assert ThreadInv(sys, other, sys.threads[other]);
      BystanderKeeps(sys, sys', other, sys.threads[other]);
    }
  }

  lemma CrashPreservesInv(sys: System, process: nat)
    requires Inv(sys)
    ensures Inv(Apply(sys, Crash(process)))
  {
    var sys' := Apply(sys, Crash(process));
    forall id | id in sys'.threads ensures ThreadInv(sys', id, sys'.threads[id]) {
      assert ThreadInv(sys, id, sys.threads[id]);
      BystanderKeeps(sys, sys', id, sys.threads[id]);
    }
  }

  lemma StepPreservesInv(sys: System, action: Action)
    requires Inv(sys) && Enabled(sys, action)
    ensures Inv(Apply(sys, action))
  {
    if action.Commit? || action.CommitThenFail? {
      assert ThreadInv(sys, action.id, ThreadOf(sys, action.id));
      CommitOwn(sys, action);
      CommitFollows(sys, action);
      CommitPreservesInv(sys, Apply(sys, action), action.id, NewVersion(sys, action.id, action.stamp));
    } else {
      OtherStepPreservesInv(sys, action);
    }
  }

  lemma OtherStepPreservesInv(sys: System, action: Action)
    requires Inv(sys) && Enabled(sys, action) && !action.Commit? && !action.CommitThenFail?
    ensures Inv(Apply(sys, action))
  {
    match action
    case Step(id) => AdvancePreservesInv(sys, id);
    case Fail(id) => FailPreservesInv(sys, id);
    case Crash(process) => CrashPreservesInv(sys, process);
    case _ => BeginPreservesInv(sys, action);
  }

  lemma {:induction false} RunPreservesInv(sys: System, run: seq<Action>, sys': System)
    requires Inv(sys) && RunsTo(sys, run, sys')
    ensures Inv(sys')
    decreases |run|
  {
    if run != [] {
      StepPreservesInv(sys, run[0]);
      RunPreservesInv(Apply(sys, run[0]), run[1..], sys');
    }
  }

  lemma ReachableInv(sys: System)
    requires Reachable(sys)
    ensures Inv(sys)
  {
    var start, run :| Initial(start) && RunsTo(start, run, sys);
    RunPreservesInv(start, run, sys);
  }

  // ------------------------------------------------------------------- theorems

  /** Every answered `with_registry`, cached or not, answers as if run on the migrated content of
      a version that was current at some instant during the call. */
  lemma ReadsLinearize(sys: System, id: ThreadId)
    requires Reachable(sys) && ThreadOf(sys, id).ReadDone? && ThreadOf(sys, id).outcome.Answered?
    ensures var t := ThreadOf(sys, id);
            exists n | t.since <= n <= |sys.versions| ::
              t.outcome.answer == AnswerAt(sys.versions, n, t.query)
  {
    ReachableInv(sys);
    assert ThreadInv(sys, id, sys.threads[id]);
  }

  /** Every successful `with_registry_mut` replaced, during the call, the very version it read, and
      raised the generation its operation produced by one, up to saturation. */
  lemma WritesCommitAtomically(sys: System, id: ThreadId)
    requires Reachable(sys) && ThreadOf(sys, id).WriteDone?
    requires ThreadOf(sys, id).outcome.Answered? && ThreadOf(sys, id).outcome.answer.Ok?
    ensures var t := ThreadOf(sys, id);
            exists n | t.since <= n < |sys.versions| ::
              && LoadAt(sys.versions, n).Ok?
              && var loaded := LoadAt(sys.versions, n).value;
              && t.mutation(loaded).Ok?
              && var (changed, answer) := t.mutation(loaded).value;
              && t.outcome.answer == Ok(answer)
              && sys.versions[n].content == Doc(changed.(generation := NextGeneration(changed.generation)))
              && changed.version == REGISTRY_VERSION
  {
    ReachableInv(sys);
    var t := ThreadOf(sys, id);
    assert ThreadInv(sys, id, sys.threads[id]);
    var n :| t.since <= n < |sys.versions| && CommittedOver(sys.versions, n, t.mutation, t.outcome.answer.value);
  }

  /** The history of the file is a chain of mutations, each applied to its predecessor. */
  lemma NoUpdateIsLost(sys: System)
    requires Reachable(sys)
    ensures NoLostUpdate(sys.versions)
  {
    ReachableInv(sys);
  }

  // ------------------------------------------------- what a mutation leaves behind

  predicate IsWrite(t: Thread) {
    || t.WriteWant? || t.WriteLoad? || t.WriteSave? || t.WriteCacheStat? || t.WriteCacheSet?
    || t.WriteUnlock? || t.WriteDone?
  }

  predicate MadeBy(version: Version, call: nat) {
    version.origin.Mutated? && version.origin.call == call
  }

  /** No version of the file and no cache entry came from the call. */
  ghost predicate NoTrace(sys: System, call: nat) {
    && (forall k | 0 <= k < |sys.versions| :: !MadeBy(sys.versions[k], call))
    && (forall p | p in sys.caches :: sys.caches[p].writer != Some(call))
  }

  /** One version came from the call, while it ran, and it is its mutation of the version before. */
  ghost predicate OneVersion(versions: seq<Version>, since: nat, mutation: Mutation, call: nat) {
    exists k | since <= k < |versions| :: OnlyAt(versions, k, mutation, call)
  }

  ghost predicate OnlyAt(versions: seq<Version>, k: nat, mutation: Mutation, call: nat) {
    && k < |versions| && versions[k].origin == Mutated(mutation, call) && Follows(versions, k, versions[k])
    && forall j | 0 <= j < |versions| && j != k :: !MadeBy(versions[j], call)
  }

  ghost predicate Traced(sys: System, t: Thread, call: nat)
    requires IsWrite(t)
  {
    && t.since <= |sys.versions|
    && if t.WriteCacheStat? || t.WriteCacheSet? || ((t.WriteUnlock? || t.WriteDone?) && ReportsCommit(t.outcome))
       then OneVersion(sys.versions, t.since, t.mutation, call)
       else NoTrace(sys, call)
  }

  /** Calls are numbered once, and what each has left behind is what its thread knows. */
  ghost predicate CallInv(sys: System) {
    && (forall id | id in sys.calls :: sys.calls[id] < sys.begun)
    && (forall a, b | a in sys.calls && b in sys.calls && a != b :: sys.calls[a] != sys.calls[b])
    && (forall k | 0 <= k < |sys.versions| && sys.versions[k].origin.Mutated? ::
          sys.versions[k].origin.call < sys.begun)
    && (forall p | p in sys.caches && sys.caches[p].writer.Some? :: sys.caches[p].writer.value < sys.begun)
    && (forall id | id in sys.threads && IsWrite(sys.threads[id]) ::
          id in sys.calls && Traced(sys, sys.threads[id], sys.calls[id]))
  }

  /** A call's trace depends on the versions and cache entries that came from it only. */
  lemma TraceKept(sys: System, sys': System, t: Thread, call: nat)
    requires IsWrite(t) && Traced(sys, t, call) && sys'.versions == sys.versions
    requires forall p | p in sys'.caches && sys'.caches[p].writer == Some(call) ::
      p in sys.caches && sys.caches[p].writer == Some(call)
    ensures Traced(sys', t, call)
  {
  }

  lemma OneVersionExtends(versions: seq<Version>, next: Version, since: nat, mutation: Mutation, call: nat)
    requires OneVersion(versions, since, mutation, call) && !MadeBy(next, call)
    ensures OneVersion(versions + [next], since, mutation, call)
  {
    var k :| since <= k < |versions| && OnlyAt(versions, k, mutation, call);
    FollowsExtends(versions, next, k, versions[k]);
    assert OnlyAt(versions + [next], k, mutation, call);
  }

  lemma TraceExtends(sys: System, sys': System, next: Version, t: Thread, call: nat)
    requires IsWrite(t) && Traced(sys, t, call) && !MadeBy(next, call)
    requires sys'.versions == sys.versions + [next] && sys'.caches == sys.caches
    ensures Traced(sys', t, call)
  {
    if OneVersion(sys.versions, t.since, t.mutation, call) {
      OneVersionExtends(sys.versions, next, t.since, t.mutation, call);
    }
  }

  lemma TraceBegins(sys: System, sys': System, next: Version, t: Thread, call: nat)
    requires t.WriteSave? && Traced(sys, t, call) && MutateAt(sys.versions, |sys.versions|, t.mutation).Ok?
    requires next.origin == Mutated(t.mutation, call) && Follows(sys.versions, |sys.versions|, next)
    requires sys'.versions == sys.versions + [next]
    ensures OneVersion(sys'.versions, t.since, t.mutation, call)
  {
    var k := |sys.versions|;
    FollowsExtends(sys.versions, next, k, next);
    assert sys'.versions[k] == next;
    assert OnlyAt(sys'.versions, k, t.mutation, call);
  }

  lemma CommitKeepsOthers(sys: System, sys': System, id: ThreadId, next: Version)
    requires CallInv(sys) && sys'.versions == sys.versions + [next]
    requires sys'.caches == sys.caches && sys'.calls == sys.calls && sys'.begun == sys.begun
    requires sys'.threads == sys.threads[id := ThreadOf(sys', id)]
    requires next.origin.Mutated? ==> id in sys.calls && next.origin.call == sys.calls[id]
    requires IsWrite(ThreadOf(sys', id)) ==> id in sys.calls && Traced(sys', ThreadOf(sys', id), sys.calls[id])
    ensures CallInv(sys')
  {
    forall other | other in sys'.threads && other != id && IsWrite(sys'.threads[other])
      ensures other in sys'.calls && Traced(sys', sys'.threads[other], sys'.calls[other])
    {
      TraceExtends(sys, sys', next, sys.threads[other], sys.calls[other]);
    }
  }

  lemma CommitTraces(sys: System, action: Action)
    requires Inv(sys) && CallInv(sys) && Enabled(sys, action) && (action.Commit? || action.CommitThenFail?)
    requires ThreadOf(sys, action.id).WriteSave?
    ensures var sys' := Apply(sys, action);
            action.id in sys.calls && Traced(sys', ThreadOf(sys', action.id), sys.calls[action.id])
  {
    var id, t := action.id, ThreadOf(sys, action.id);
    assert ThreadInv(sys, id, t);
    TraceBegins(sys, Apply(sys, action), NewVersion(sys, id, action.stamp), t, sys.calls[id]);
  }

  lemma CommitKeepsCalls(sys: System, action: Action)
    requires Inv(sys) && CallInv(sys) && Enabled(sys, action) && (action.Commit? || action.CommitThenFail?)
    ensures CallInv(Apply(sys, action))
  {
    var id, sys' := action.id, Apply(sys, action);
    var next, t := NewVersion(sys, id, action.stamp), ThreadOf(sys, id);
    if t.WriteSave? { CommitTraces(sys, action); }
    CommitKeepsOthers(sys, sys', id, next);
  }

  /** A step without a commit turns the thread's own trace into the one its next state knows. */
  lemma StepTraces(sys: System, id: ThreadId)
    requires CallInv(sys) && CanStep(sys, id) && IsWrite(ThreadOf(sys, id))
    ensures var sys', t' := Advance(sys, id), ThreadOf(Advance(sys, id), id);
            IsWrite(t') ==> Traced(sys', t', CallOf(sys', id))
  {
  }

  lemma StepKeepsCalls(sys: System, id: ThreadId)
    requires CallInv(sys) && CanStep(sys, id)
    ensures CallInv(Advance(sys, id))
  {
    var sys', t := Advance(sys, id), ThreadOf(sys, id);
    if IsWrite(t) { StepTraces(sys, id); } else { AdvanceStaysInCall(sys, id); }
    forall other | other in sys'.threads && other != id && IsWrite(sys'.threads[other])
      ensures other in sys'.calls && Traced(sys', sys'.threads[other], sys'.calls[other])
    {
      TraceKept(sys, sys', sys.threads[other], sys.calls[other]);
    }
  }

  lemma AdvanceStaysInCall(sys: System, id: ThreadId)
    requires CanStep(sys, id) && !IsWrite(ThreadOf(sys, id))
    ensures !IsWrite(ThreadOf(Advance(sys, id), id))
  {
  }

  /** A failing call ends up in a write state only from one, with the same trace. */
  lemma FailStaysInCall(t: Thread)
    requires IsWrite(Failed(t))
    ensures IsWrite(t) && Failed(t).since == t.since && Failed(t).mutation == t.mutation
    ensures !t.WriteDone?
    ensures (t.WriteCacheStat? || t.WriteCacheSet? || (t.WriteUnlock? && ReportsCommit(t.outcome))) <==>
            ReportsCommit(Failed(t).outcome)
  {
  }

  lemma FailTraces(sys: System, id: ThreadId)
    requires CallInv(sys) && CanFail(sys, id) && IsWrite(Failed(ThreadOf(sys, id)))
    ensures IsWrite(ThreadOf(sys, id)) && Traced(Fallen(sys, id), Failed(ThreadOf(sys, id)), CallOf(sys, id))
  {
    var t := ThreadOf(sys, id);
    FailStaysInCall(t);
    assert Traced(sys, t, sys.calls[id]);
    TraceKept(sys, Fallen(sys, id), t, sys.calls[id]);
  }

  lemma FailKeepsCalls(sys: System, id: ThreadId)
    requires CallInv(sys) && CanFail(sys, id)
    ensures CallInv(Fallen(sys, id))
  {
    var sys' := Fallen(sys, id);
    if IsWrite(Failed(ThreadOf(sys, id))) { FailTraces(sys, id); }
    forall other | other in sys'.threads && other != id && IsWrite(sys'.threads[other])
      ensures other in sys'.calls && Traced(sys', sys'.threads[other], sys'.calls[other])
    {
      TraceKept(sys, sys', sys.threads[other], sys.calls[other]);
    }
  }

  /** Steps that leave file, calls and running mutations alone. */
  lemma SameCalls(sys: System, sys': System)
    requires CallInv(sys) && sys'.versions == sys.versions && sys'.calls == sys.calls && sys'.begun == sys.begun
    requires forall p | p in sys'.caches :: p in sys.caches && sys'.caches[p] == sys.caches[p]
    requires forall id | id in sys'.threads && IsWrite(sys'.threads[id]) ::
      id in sys.threads && sys.threads[id] == sys'.threads[id]
    ensures CallInv(sys')
  {
    forall id | id in sys'.threads && IsWrite(sys'.threads[id])
      ensures id in sys'.calls && Traced(sys', sys'.threads[id], sys'.calls[id])
    {
      TraceKept(sys, sys', sys.threads[id], sys.calls[id]);
    }
  }

  lemma BeginWriteKeepsCalls(sys: System, id: ThreadId, mutation: Mutation)
    requires CallInv(sys) && ThreadOf(sys, id).Idle?
    ensures CallInv(Apply(sys, BeginWrite(id, mutation)))
  {
    var sys' := Apply(sys, BeginWrite(id, mutation));
    assert NoTrace(sys', sys.begun);
    forall other | other in sys'.threads && other != id && IsWrite(sys'.threads[other])
      ensures other in sys'.calls && Traced(sys', sys'.threads[other], sys'.calls[other])
    {
      TraceKept(sys, sys', sys.threads[other], sys.calls[other]);
    }
  }

  lemma StepPreservesCalls(sys: System, action: Action)
    requires Inv(sys) && CallInv(sys) && Enabled(sys, action)
    ensures CallInv(Apply(sys, action))
  {
    match action
    case Step(id) => StepKeepsCalls(sys, id);
    case Commit(_, _) => CommitKeepsCalls(sys, action);
    case CommitThenFail(_, _) => CommitKeepsCalls(sys, action);
    case Fail(id) => FailKeepsCalls(sys, id);
    case BeginWrite(id, mutation) => BeginWriteKeepsCalls(sys, id, mutation);
    case BeginEnsure(_) => SameCalls(sys, Apply(sys, action));
    case BeginRead(_, _) => SameCalls(sys, Apply(sys, action));
    case Crash(_) => SameCalls(sys, Apply(sys, action));
  }

  lemma {:induction false} RunPreservesCalls(sys: System, run: seq<Action>, sys': System)
    requires Inv(sys) && CallInv(sys) && RunsTo(sys, run, sys')
    ensures CallInv(sys')
    decreases |run|
  {
    if run != [] {
      StepPreservesInv(sys, run[0]);
      StepPreservesCalls(sys, run[0]);
      RunPreservesCalls(Apply(sys, run[0]), run[1..], sys');
    }
  }

  lemma ReachableCalls(sys: System)
    requires Reachable(sys)
    ensures CallInv(sys)
  {
    var start, run :| Initial(start) && RunsTo(start, run, sys);
    RunPreservesCalls(start, run, sys);
  }

  /** What a finished mutation reports decides what it left behind, whatever other threads did in
      between: exactly one version, its mutation of the version before, when the report is an answer,
      a failure after the rename, or a failing unlock around either; otherwise no version and no cache
      entry anywhere. */
  ghost predicate LeftBehind(sys: System, t: Thread, call: nat)
    requires t.WriteDone?
  {
    && ((exists k | 0 <= k < |sys.versions| :: MadeBy(sys.versions[k], call)) <==> ReportsCommit(t.outcome))
    && (ReportsCommit(t.outcome) ==> OneVersion(sys.versions, t.since, t.mutation, call))
    && (!ReportsCommit(t.outcome) ==> NoTrace(sys, call))
  }

  lemma OutcomeTellsTrace(sys: System, id: ThreadId)
    requires Reachable(sys) && ThreadOf(sys, id).WriteDone?
    ensures id in sys.calls && LeftBehind(sys, ThreadOf(sys, id), sys.calls[id])
  {
    ReachableCalls(sys);
    var t, call := ThreadOf(sys, id), sys.calls[id];
    assert Traced(sys, t, call);
    if ReportsCommit(t.outcome) {
      var k :| t.since <= k < |sys.versions| && OnlyAt(sys.versions, k, t.mutation, call);
      assert MadeBy(sys.versions[k], call);
    }
  }

  /** In particular a failing operation changes neither the file nor any cache. */
  lemma FailingMutationChangesNothing(sys: System, id: ThreadId)
    requires Reachable(sys) && ThreadOf(sys, id).WriteDone? && ThreadOf(sys, id).outcome == Answered(Err)
    ensures id in sys.calls && NoTrace(sys, sys.calls[id])
    ensures var t := ThreadOf(sys, id);
            exists n | t.since <= n <= |sys.versions| :: MutateAt(sys.versions, n, t.mutation).Err?
  {
    OutcomeTellsTrace(sys, id);
    WriteOutcome(sys, id);
  }

  // ------------------------------------------------------ what the caller gets to see

  /** The messages of an error, outermost first. */
  datatype Message =
    | NoStateDirectory | NotInitialized | NoLock | NoLoad | Refused | NotWritten | NotSynced | NotUnlocked

  datatype Report = Value(answer: Answer) | Failure(chain: seq<Message>)

  function SetupChain(setup: Setup): seq<Message> {
    match setup
    case NoStateDir => [NoStateDirectory]
    case SetupLock => [NoLock]
    case SetupWrite => [NotInitialized]
    case SetupUnlock(ready) => if ready then [NotUnlocked] else [NotUnlocked, NotInitialized]
  }

  /** What the call returns: the same messages, whichever part of the call they come from. */
  function ReportOf(outcome: Outcome): Report {
    match outcome
    case Answered(Ok(answer)) => Value(answer)
    case Answered(Err) => Failure([Refused])
    case IoFailed(AtEnsure(setup)) => Failure(SetupChain(setup))
    case IoFailed(AtLock) => Failure([NoLock])
    case IoFailed(AtLoad) => Failure([NoLoad])
    case IoFailed(BeforeRename) => Failure([NotWritten])
    case IoFailed(AfterRename) => Failure([NotSynced])
    case IoFailed(AtUnlock(inside)) =>
      match ReportOf(inside)
      case Value(_) => Failure([NotUnlocked])
      case Failure(chain) => Failure([NotUnlocked] + chain)
  }

  /** A value, or an error whose cause is a directory that could not be synced or a lock that could not
      be given back. */
  predicate ReadsAsCommit(report: Report) {
    report.Value? || (report.chain != [] && report.chain[|report.chain| - 1] in {NotSynced, NotUnlocked})
  }

  /** The lock could not be given back after `ensure_registry` had made sure of the file. */
  predicate SetupUnlockFailed(outcome: Outcome) {
    match outcome
    case IoFailed(AtEnsure(setup)) => setup == SetupUnlock(true)
    case IoFailed(AtUnlock(inside)) => SetupUnlockFailed(inside)
    case _ => false
  }

  /** The report tells whether the mutation was committed, except for one outcome, which reads as a
      commit and is none. */
  lemma {:induction false} ReportTellsCommit(outcome: Outcome)
    ensures ReportOf(outcome).Failure? ==> ReportOf(outcome).chain != []
    ensures ReportsCommit(outcome) ==> ReadsAsCommit(ReportOf(outcome))
    ensures (ReadsAsCommit(ReportOf(outcome)) <==> ReportsCommit(outcome)) <==> !SetupUnlockFailed(outcome)
    ensures SetupUnlockFailed(outcome) ==> ReadsAsCommit(ReportOf(outcome))
  {
    if outcome.IoFailed? && outcome.stage.AtUnlock? {
      var inside := ReportOf(outcome.stage.inside);
      ReportTellsCommit(outcome.stage.inside);
      if inside.Failure? {
        var chain := [NotUnlocked] + inside.chain;
        assert chain[|chain| - 1] == inside.chain[|inside.chain| - 1];
      }
    }
  }

  lemma DoStep(sys: System, action: Action) returns (sys': System)
    requires Reachable(sys) && Enabled(sys, action)
    ensures sys' == Apply(sys, action) && Reachable(sys')
  {
    var start, run :| Initial(start) && RunsTo(start, run, sys);
    RunExtend(start, run, sys, action);
    sys' := Apply(sys, action);
  }

  /** But an error is not always a mutation undone: for every operation that succeeds there is a call
      that reports failure and has replaced the file, because the directory could not be synced. */
  lemma FailureAfterRenameCommits(mutation: Mutation, id: ThreadId) returns (sys: System)
    requires Mutate(DEFAULT, mutation).Ok?
    ensures Reachable(sys) && ThreadOf(sys, id) == WriteDone(mutation, 1, IoFailed(AfterRename))
    ensures |sys.versions| == 2 && MadeBy(sys.versions[1], 0) && sys.calls == map[id := 0]
    ensures sys.versions[1].content == Doc(Mutate(DEFAULT, mutation).value.0)
  {
    var renamed := RenamedDefault(mutation, id);
    LockGivenBack(renamed, id);
    sys := DoStep(renamed, Step(id));
  }

  lemma RenamedDefault(mutation: Mutation, id: ThreadId) returns (sys: System)
    requires Mutate(DEFAULT, mutation).Ok?
    ensures Reachable(sys) && ThreadOf(sys, id) == WriteUnlock(mutation, 1, IoFailed(AfterRename))
    ensures |sys.versions| == 2 && MadeBy(sys.versions[1], 0) && sys.calls == map[id := 0]
    ensures sys.versions[1].content == Doc(Mutate(DEFAULT, mutation).value.0)
  {
    var saving := SavingDefault(mutation, id);
    sys := DoStep(saving, CommitThenFail(id, 1));
  }

  lemma SavingDefault(mutation: Mutation, id: ThreadId) returns (sys: System)
    requires Mutate(DEFAULT, mutation).Ok?
    ensures Reachable(sys)
    ensures var (registry, answer) := Mutate(DEFAULT, mutation).value;
            sys == System([Version(0, Doc(DEFAULT), Found)], Some(id), map[],
                          map[id := WriteSave(mutation, 1, registry, answer)], map[id := 0], 1)
  {
    var loading := LoadingDefault(mutation, id);
    assert MutateAt(loading.versions, 1, mutation) == Mutate(DEFAULT, mutation);
    sys := DoStep(loading, Step(id));
  }

  lemma LoadingDefault(mutation: Mutation, id: ThreadId) returns (sys: System)
    ensures Reachable(sys)
    ensures sys == System([Version(0, Doc(DEFAULT), Found)], Some(id), map[],
                          map[id := WriteLoad(mutation, 1)], map[id := 0], 1)
  {
    var start := System([Version(0, Doc(DEFAULT), Found)], None, map[], map[], map[], 0);
    assert Initial(start) && RunsTo(start, [], start);
    var s1 := DoStep(start, BeginWrite(id, mutation));
    assert s1.threads == map[id := WriteWant(mutation, 1)];
    sys := DoStep(s1, Step(id));
  }

  /** The exception is needed: two calls with the same report, one of which has replaced the file while
      the other never got to its mutation. */
  lemma SameReportEitherWay(mutation: Mutation, id: ThreadId) returns (kept: System, lost: System)
    requires Mutate(DEFAULT, mutation).Ok?
    ensures Reachable(kept) && |kept.versions| == 2 && MadeBy(kept.versions[1], 0) && kept.calls == map[id := 0]
    ensures Reachable(lost) && lost.versions == [Version(0, Doc(DEFAULT), Created)] && lost.calls == map[]
    ensures ThreadOf(kept, id).WriteDone? && ThreadOf(lost, id).EnsureDone? && ThreadOf(lost, id).failure.Some?
    ensures ReportOf(ThreadOf(kept, id).outcome) == ReportOf(IoFailed(AtEnsure(ThreadOf(lost, id).failure.value)))
  {
    kept := CommittedButLocked(mutation, id);
    lost := CreatedButLocked(id);
  }

  lemma CommittedButLocked(mutation: Mutation, id: ThreadId) returns (sys: System)
    requires Mutate(DEFAULT, mutation).Ok?
    ensures Reachable(sys) && |sys.versions| == 2 && MadeBy(sys.versions[1], 0) && sys.calls == map[id := 0]
    ensures ThreadOf(sys, id) ==
      WriteDone(mutation, 1, IoFailed(AtUnlock(Answered(Ok(Mutate(DEFAULT, mutation).value.1)))))
  {
    var uncached := UncachedDefault(mutation, id);
    sys := FailStep(uncached, id);
  }

  lemma FailStep(sys: System, id: ThreadId) returns (sys': System)
    requires Reachable(sys) && CanFail(sys, id)
    ensures Reachable(sys') && sys'.versions == sys.versions && sys'.calls == sys.calls
    ensures ThreadOf(sys', id) == Failed(ThreadOf(sys, id))
  {
    sys' := DoStep(sys, Fail(id));
  }

  lemma UncachedDefault(mutation: Mutation, id: ThreadId) returns (sys: System)
    requires Mutate(DEFAULT, mutation).Ok?
    ensures Reachable(sys) && |sys.versions| == 2 && MadeBy(sys.versions[1], 0) && sys.calls == map[id := 0]
    ensures ThreadOf(sys, id) == WriteUnlock(mutation, 1, Answered(Ok(Mutate(DEFAULT, mutation).value.1)))
  {
    var saved := SavedDefault(mutation, id);
    sys := FailStep(saved, id);
  }

  lemma SavedDefault(mutation: Mutation, id: ThreadId) returns (sys: System)
    requires Mutate(DEFAULT, mutation).Ok?
    ensures Reachable(sys) && |sys.versions| == 2 && MadeBy(sys.versions[1], 0) && sys.calls == map[id := 0]
    ensures var (registry, answer) := Mutate(DEFAULT, mutation).value;
            ThreadOf(sys, id) == WriteCacheStat(mutation, 1, registry, answer)
  {
    var saving := SavingDefault(mutation, id);
    sys := DoStep(saving, Commit(id, 1));
  }

  /** A step of the only thread, on its way into the lock or inside it. */
  lemma StepAlone(sys: System, id: ThreadId, next: Thread) returns (sys': System)
    requires Reachable(sys) && CanStep(sys, id) && sys.threads.Keys == {id} && NextThread(sys, id) == next
    requires !FreesLock(ThreadOf(sys, id)) && !ThreadOf(sys, id).ReadCacheSet? && !ThreadOf(sys, id).WriteCacheSet?
    ensures Reachable(sys')
    ensures sys' == sys.(threads := map[id := next],
                         lock := if TakesLock(ThreadOf(sys, id)) then Some(id) else sys.lock)
  {
    sys' := DoStep(sys, Step(id));
    assert sys'.threads == map[id := next];
  }

  lemma EnsureAdvances(sys: System, id: ThreadId)
    requires sys.versions == [] && sys.lock.None? && (ThreadOf(sys, id).EnsureCheck? || ThreadOf(sys, id).EnsureWant?)
    ensures CanStep(sys, id)
    ensures NextThread(sys, id) == if ThreadOf(sys, id).EnsureCheck? then EnsureWant else EnsureCreate
  {
  }

  lemma CreatingDefault(id: ThreadId) returns (sys: System)
    ensures Reachable(sys) && sys == System([], Some(id), map[], map[id := EnsureCreate], map[], 0)
  {
    var start := System([], None, map[], map[], map[], 0);
    assert Initial(start) && RunsTo(start, [], start);
    var s1 := DoStep(start, BeginEnsure(id));
    assert s1.threads == map[id := EnsureCheck];
    EnsureAdvances(s1, id);
    var s2 := StepAlone(s1, id, EnsureWant);
    EnsureAdvances(s2, id);
    sys := StepAlone(s2, id, EnsureCreate);
  }

  lemma CreatedButLocked(id: ThreadId) returns (sys: System)
    ensures Reachable(sys) && sys.versions == [Version(0, Doc(DEFAULT), Created)] && sys.calls == map[]
    ensures ThreadOf(sys, id) == EnsureDone(Some(SetupUnlock(true)))
  {
    var creating := CreatingDefault(id);
    var created := DoStep(creating, Commit(id, 0));
    sys := FailStep(created, id);
  }

  /** In every reachable state a cache that matches the file's fingerprint holds the file. */
  lemma CurrentCacheAgreesWithFile(sys: System, process: nat)
    requires Reachable(sys) && process in sys.caches
    requires Stat(sys) == Some(sys.caches[process].fingerprint)
    ensures Now(sys) == Ok(sys.caches[process].registry)
  {
    ReachableInv(sys);
    FingerprintIdentifies(sys.versions, sys.caches[process]);
  }

  lemma FingerprintIdentifies(versions: seq<Version>, cache: Cache)
    requires DistinctFingerprints(versions) && CacheInv(versions, cache)
    requires versions != [] && versions[|versions| - 1].fingerprint == cache.fingerprint
    ensures Load(versions[|versions| - 1].content) == Ok(cache.registry)
  {
  }

  // ------------------------------- with_registry and with_registry_mut, as code

  lemma {:induction false} RunExtend(sys: System, run: seq<Action>, mid: System, action: Action)
    requires RunsTo(sys, run, mid) && Enabled(mid, action)
    ensures RunsTo(sys, run + [action], Apply(mid, action))
    decreases |run|
  {
    if run != [] {
      RunExtend(Apply(sys, run[0]), run[1..], mid, action);
      assert (run + [action])[1..] == run[1..] + [action];
    }
  }

  /** How a save ends: well, before its rename, or after it. */
  datatype Save = Succeeds | FailsBefore | FailsAfter

  /** What goes wrong in `ensure_registry` if reached: making the directory, creating the file, unlocking. */
  datatype Faults = Faults(directory: bool, create: bool, unlock: bool)

  /** The outcome of the part of a mutation under the lock: the operation failed, or the save decides. */
  predicate EndsAs(inside: Outcome, save: Save) {
    || inside == Answered(Err)
    || match save
       case Succeeds => inside.Answered? && inside.answer.Ok?
       case FailsBefore => inside == IoFailed(BeforeRename)
       case FailsAfter => inside == IoFailed(AfterRename)
  }

  /** How a mutation that has begun ends: without the lock, or as its save and its unlock decide. */
  ghost predicate MutationEnds(outcome: Outcome, save: Save, unlockFails: bool) {
    outcome == IoFailed(AtLock) || exists inside :: EndsAs(inside, save) && outcome == Unlocking(inside, unlockFails)
  }

  /** So the file was replaced exactly if the lock was taken, the operation did not fail and the save did
      not fail before its rename. */
  lemma MutationEndTells(inside: Outcome, save: Save, unlockFails: bool)
    requires EndsAs(inside, save)
    ensures ReportsCommit(Unlocking(inside, unlockFails)) <==> inside != Answered(Err) && !save.FailsBefore?
  {
  }

  function Unlocking(inside: Outcome, unlockFails: bool): Outcome {
    if unlockFails then IoFailed(AtUnlock(inside)) else inside
  }

  function GotLock(t: Thread): Thread
    requires t.ReadWant? || t.WriteWant?
  {
    if t.ReadWant? then ReadRestat(t.query, t.since) else WriteLoad(t.mutation, t.since)
  }

  lemma LockTaken(sys: System, id: ThreadId)
    requires CanStep(sys, id) && (ThreadOf(sys, id).ReadWant? || ThreadOf(sys, id).WriteWant?)
    ensures NextThread(sys, id) == GotLock(ThreadOf(sys, id))
  {
  }

  function Ended(t: Thread, outcome: Outcome): Thread
    requires t.ReadWant? || t.WriteWant? || t.ReadUnlock? || t.WriteUnlock?
  {
    if t.ReadWant? || t.ReadUnlock? then ReadDone(t.query, t.since, outcome)
    else WriteDone(t.mutation, t.since, outcome)
  }

  lemma LockGivenBack(sys: System, id: ThreadId)
    requires ThreadOf(sys, id).ReadUnlock? || ThreadOf(sys, id).WriteUnlock?
    ensures CanStep(sys, id) && CanFail(sys, id)
    ensures var t := ThreadOf(sys, id);
            && NextThread(sys, id) == Ended(t, t.outcome)
            && Failed(t) == Ended(t, IoFailed(AtUnlock(t.outcome)))
  {
  }

  /** A mutation under the lock goes from loading to saving to caching to unlocking, without a write. */
  lemma WriteAdvances(sys: System, id: ThreadId)
    requires var t := ThreadOf(sys, id); t.WriteLoad? || t.WriteCacheStat? || t.WriteCacheSet?
    ensures CanStep(sys, id)
    ensures var t, next := ThreadOf(sys, id), NextThread(sys, id);
            && IsWrite(next) && next.mutation == t.mutation && next.since == t.since
            && (t.WriteLoad? ==> next.WriteSave? || (next.WriteUnlock? && next.outcome == Answered(Err)))
            && (t.WriteCacheStat? || t.WriteCacheSet? ==>
                  || (next.WriteCacheSet? && t.WriteCacheStat?)
                  || (next.WriteUnlock? && next.outcome.Answered? && next.outcome.answer.Ok?))
  {
  }

  /** A read before the lock ends with a cache hit or goes on to want the lock. */
  lemma ProbeAdvances(sys: System, id: ThreadId)
    requires ThreadOf(sys, id).ReadStat? || ThreadOf(sys, id).ReadProbe?
    ensures CanStep(sys, id)
    ensures var t, next := ThreadOf(sys, id), NextThread(sys, id);
            && (next.ReadProbe? || next.ReadDone? || next.ReadWant?)
            && next.query == t.query && next.since == t.since
            && (next.ReadProbe? ==> t.ReadStat?)
  {
  }

  /** One state directory, used by one thread while all others run between its steps. */
  class Store {
    var sys: System

    /** Other threads and processes may run for any number of steps. */
    method Preempt(id: ThreadId)
      requires Reachable(sys)
      modifies this
      ensures Reachable(sys) && ThreadOf(sys, id) == old(ThreadOf(sys, id))
      ensures old(sys.versions) <= sys.versions
    {
    }

    method Do(action: Action)
      requires Reachable(sys) && Enabled(sys, action)
      modifies this
      ensures Reachable(sys) && sys == Apply(old(sys), action)
    {
      ghost var start, run :| Initial(start) && RunsTo(start, run, sys);
      RunExtend(start, run, sys, action);
      sys := Apply(sys, action);
    }

    method StepOnce(id: ThreadId)
      requires Reachable(sys) && CanStep(sys, id)
      modifies this
      ensures Reachable(sys) && sys.versions == old(sys.versions) && ThreadOf(sys, id) == old(NextThread(sys, id))
    {
      Do(Step(id));
    }

    method FailOnce(id: ThreadId)
      requires Reachable(sys) && CanFail(sys, id)
      modifies this
      ensures Reachable(sys) && sys.versions == old(sys.versions) && ThreadOf(sys, id) == Failed(old(ThreadOf(sys, id)))
    {
      Do(Fail(id));
    }

    /** `with_file_lock`: retry until the lock is free or patience runs out. */
    method WaitForLock(id: ThreadId, patience: nat) returns (free: bool)
      requires Reachable(sys)
      modifies this
      ensures Reachable(sys) && ThreadOf(sys, id) == old(ThreadOf(sys, id))
      ensures old(sys.versions) <= sys.versions
      ensures free ==> sys.lock.None?
    {
      var left := patience;
      while sys.lock.Some? && left > 0
        invariant Reachable(sys) && ThreadOf(sys, id) == old(ThreadOf(sys, id))
        invariant old(sys.versions) <= sys.versions
      {
        Preempt(id);
        left := left - 1;
      }
      free := sys.lock.None?;
    }

    /** `with_cached_registry`, without the lock: a stat, then a look at the cache. */
    method ReadCached(id: ThreadId)
      requires Reachable(sys) && ThreadOf(sys, id).ReadStat?
      modifies this
      ensures Reachable(sys) && old(sys.versions) <= sys.versions
      ensures var before, after := old(ThreadOf(sys, id)), ThreadOf(sys, id);
              && (after.ReadDone? || after.ReadWant?)
              && after.query == before.query && after.since == before.since
    {
      Preempt(id);
      ProbeAdvances(sys, id);
      StepOnce(id);
      if ThreadOf(sys, id).ReadProbe? {
        Preempt(id);
        ProbeAdvances(sys, id);
        StepOnce(id);
      }
    }

    /** The rest of a read, under the file lock: look again, then load and refill the cache. */
    method ReadLocked(id: ThreadId)
      requires Reachable(sys) && ThreadOf(sys, id).ReadRestat?
      modifies this
      ensures Reachable(sys) && old(sys.versions) <= sys.versions
      ensures var before, after := old(ThreadOf(sys, id)), ThreadOf(sys, id);
              after.ReadUnlock? && after.query == before.query && after.since == before.since
    {
      ghost var before := ThreadOf(sys, id);
      while !ThreadOf(sys, id).ReadUnlock?
        invariant Reachable(sys) && old(sys.versions) <= sys.versions
        invariant var t := ThreadOf(sys, id);
                  && (t.ReadRestat? || t.ReadReprobe? || t.ReadLoad? || t.ReadCacheStat? || t.ReadCacheSet?
                      || t.ReadUnlock?)
                  && t.query == before.query && t.since == before.since
        decreases match ThreadOf(sys, id)
          case ReadRestat(_, _) => 5
          case ReadReprobe(_, _, _) => 4
          case ReadLoad(_, _) => 3
          case ReadCacheStat(_, _, _, _) => 2
          case ReadCacheSet(_, _, _, _, _) => 1
          case _ => 0
      {
        Preempt(id);
        StepOnce(id);
      }
    }

    /** The fingerprint the filesystem gives a new file: one no version had. */
    method UnusedFingerprint(least: nat) returns (fingerprint: nat)
      ensures FreshFingerprint(sys, fingerprint)
    {
      fingerprint := least;
      for k := 0 to |sys.versions|
        invariant forall j | 0 <= j < k :: sys.versions[j].fingerprint < fingerprint
      {
        if fingerprint <= sys.versions[k].fingerprint { fingerprint := sys.versions[k].fingerprint + 1; }
      }
    }

    /** Take the file lock for a call that wants it. */
    method Lock(id: ThreadId, patience: nat) returns (taken: bool)
      requires Reachable(sys) && (ThreadOf(sys, id).ReadWant? || ThreadOf(sys, id).WriteWant?)
      modifies this
      ensures Reachable(sys) && old(sys.versions) <= sys.versions
      ensures !taken ==> ThreadOf(sys, id) == old(ThreadOf(sys, id))
      ensures taken ==> ThreadOf(sys, id) == GotLock(old(ThreadOf(sys, id)))
    {
      taken := WaitForLock(id, patience);
      if taken {
        LockTaken(sys, id);
        StepOnce(id);
      }
    }

    /** The lock did not come free. */
    method GiveUp(id: ThreadId)
      requires Reachable(sys) && (ThreadOf(sys, id).ReadWant? || ThreadOf(sys, id).WriteWant?)
      modifies this
      ensures Reachable(sys) && sys.versions == old(sys.versions)
      ensures ThreadOf(sys, id) == Ended(old(ThreadOf(sys, id)), IoFailed(AtLock))
    {
      FailOnce(id);
    }

    /** Release the file lock. A failing unlock becomes the outcome of the call. */
    method UnlockRead(id: ThreadId, fails: bool)
      requires Reachable(sys) && ThreadOf(sys, id).ReadUnlock?
      modifies this
      ensures Reachable(sys) && old(sys.versions) <= sys.versions
      ensures var before := old(ThreadOf(sys, id));
              ThreadOf(sys, id) == Ended(before, Unlocking(before.outcome, fails))
    {
      Preempt(id);
      LockGivenBack(sys, id);
      if fails {
        FailOnce(id);
      } else {
        StepOnce(id);
      }
    }

    method UnlockWrite(id: ThreadId, fails: bool)
      requires Reachable(sys) && ThreadOf(sys, id).WriteUnlock?
      modifies this
      ensures Reachable(sys) && old(sys.versions) <= sys.versions
      ensures var before := old(ThreadOf(sys, id));
              ThreadOf(sys, id) == Ended(before, Unlocking(before.outcome, fails))
    {
      Preempt(id);
      LockGivenBack(sys, id);
      if fails {
        FailOnce(id);
      } else {
        StepOnce(id);
      }
    }

    /** The part of `ensure_registry` under the lock: look again, create the file if it is missing, and
        give the lock back. */
    method CreateLocked(id: ThreadId, stamp: nat, faults: Faults)
      requires Reachable(sys) && ThreadOf(sys, id).EnsureCreate?
      modifies this
      ensures Reachable(sys) && ThreadOf(sys, id).EnsureDone? && old(sys.versions) <= sys.versions
      ensures var failure := ThreadOf(sys, id).failure;
              && (failure.None? ==> sys.versions != [])
              && (failure.None? || failure.value == SetupWrite || failure.value.SetupUnlock?)
              && (faults.unlock <==> failure.Some? && failure.value.SetupUnlock?)
    {
      if sys.versions != [] {
        StepOnce(id);
      } else if faults.create {
        FailOnce(id);
      } else {
        var fingerprint := UnusedFingerprint(stamp);
        Do(Commit(id, fingerprint));
      }
      assert ThreadOf(sys, id).EnsureUnlock?;
      Preempt(id);
      if faults.unlock {
        FailOnce(id);
      } else {
        StepOnce(id);
      }
    }

    method LockAndCreate(id: ThreadId, patience: nat, stamp: nat, faults: Faults)
      requires Reachable(sys) && ThreadOf(sys, id).EnsureWant?
      modifies this
      ensures Reachable(sys) && ThreadOf(sys, id).EnsureDone? && old(sys.versions) <= sys.versions
      ensures var failure := ThreadOf(sys, id).failure;
              && (failure.None? ==> sys.versions != [])
              && failure != Some(NoStateDir)
              && (failure.Some? && failure.value.SetupUnlock? ==> faults.unlock)
    {
      var free := WaitForLock(id, patience);
      if free {
        StepOnce(id);
        Preempt(id);
        CreateLocked(id, stamp, faults);
      } else {
        FailOnce(id);
      }
    }

    /** `ensure_registry`: nothing to do if the file exists, else create it under the lock. */
    method EnsureRegistry(id: ThreadId, patience: nat, stamp: nat, faults: Faults) returns (failure: Option<Setup>)
      requires Reachable(sys) && ThreadOf(sys, id).Idle?
      modifies this
      ensures Reachable(sys) && ThreadOf(sys, id).Idle? && old(sys.versions) <= sys.versions
      ensures failure.None? ==> sys.versions != []
      ensures faults.directory <==> failure == Some(NoStateDir)
      ensures old(sys.versions) != [] && !faults.directory ==> failure.None?
      ensures failure.Some? && failure.value.SetupUnlock? ==> faults.unlock
    {
      Do(BeginEnsure(id));
      Preempt(id);
      if faults.directory {
        FailOnce(id);
      } else {
        StepOnce(id);
        if ThreadOf(sys, id).EnsureWant? {
          LockAndCreate(id, patience, stamp, faults);
        }
      }
      failure := ThreadOf(sys, id).failure;
      StepOnce(id);
    }

    /** `with_registry`. */
    method WithRegistry(
      id: ThreadId, query: Query, patience: nat, stamp: nat, faults: Faults, unlockFails: bool)
      returns (outcome: Outcome)
      requires Reachable(sys) && ThreadOf(sys, id).Idle?
      modifies this
      ensures Reachable(sys) && old(sys.versions) <= sys.versions
      ensures outcome.Answered? ==>
        exists n | |old(sys.versions)| <= n <= |sys.versions| ::
          outcome.answer == AnswerAt(sys.versions, n, query)
    {
      var failure := EnsureRegistry(id, patience, stamp, faults);
      if failure.Some? {
        return IoFailed(AtEnsure(failure.value));
      }
      Preempt(id);
      ReadFile(id, query, patience, unlockFails);
      outcome := ThreadOf(sys, id).outcome;
      if outcome.Answered? { ReadsLinearize(sys, id); }
    }

    method BeginQuery(id: ThreadId, query: Query)
      requires Reachable(sys) && ThreadOf(sys, id).Idle?
      modifies this
      ensures Reachable(sys) && sys.versions == old(sys.versions)
      ensures ThreadOf(sys, id) == ReadStat(query, |sys.versions|)
    {
      Do(BeginRead(id, query));
    }

    /** The read itself: the cache, and under the lock the cache again and then the file. */
    method ReadFile(id: ThreadId, query: Query, patience: nat, unlockFails: bool)
      requires Reachable(sys) && ThreadOf(sys, id).Idle?
      modifies this
      ensures Reachable(sys) && old(sys.versions) <= sys.versions
      ensures var t := ThreadOf(sys, id); t.ReadDone? && t.query == query && t.since == |old(sys.versions)|
    {
      BeginQuery(id, query);
      ReadCached(id);
      if ThreadOf(sys, id).ReadWant? {
        var taken := Lock(id, patience);
        if taken {
          ReadLocked(id);
          UnlockRead(id, unlockFails);
        } else {
          GiveUp(id);
        }
      }
    }

    /** The body of a mutation under the file lock; `save` says how the write ends if reached. */
    method WriteLocked(id: ThreadId, stamp: nat, save: Save)
      requires Reachable(sys) && ThreadOf(sys, id).WriteLoad?
      modifies this
      ensures Reachable(sys) && old(sys.versions) <= sys.versions
      ensures var before, after := old(ThreadOf(sys, id)), ThreadOf(sys, id);
              && after.WriteUnlock? && after.mutation == before.mutation && after.since == before.since
              && EndsAs(after.outcome, save)
    {
      ghost var before := ThreadOf(sys, id);
      while !ThreadOf(sys, id).WriteUnlock?
        invariant Reachable(sys) && old(sys.versions) <= sys.versions
        invariant var t := ThreadOf(sys, id);
                  && (t.WriteLoad? || t.WriteSave? || t.WriteCacheStat? || t.WriteCacheSet? || t.WriteUnlock?)
                  && t.mutation == before.mutation && t.since == before.since
                  && (t.WriteCacheStat? || t.WriteCacheSet? ==> save.Succeeds?)
                  && (t.WriteUnlock? ==> EndsAs(t.outcome, save))
        decreases match ThreadOf(sys, id)
          case WriteLoad(_, _) => 4
          case WriteSave(_, _, _, _) => 3
          case WriteCacheStat(_, _, _, _) => 2
          case WriteCacheSet(_, _, _, _, _) => 1
          case _ => 0
      {
        Preempt(id);
        if !ThreadOf(sys, id).WriteSave? {
          WriteAdvances(sys, id);
          StepOnce(id);
        } else if save.FailsBefore? {
          FailOnce(id);
        } else {
          var fingerprint := UnusedFingerprint(stamp);
          Do(if save.Succeeds? then Commit(id, fingerprint) else CommitThenFail(id, fingerprint));
        }
      }
    }

    method BeginMutation(id: ThreadId, mutation: Mutation)
      requires Reachable(sys) && ThreadOf(sys, id).Idle?
      modifies this
      ensures Reachable(sys) && sys.versions == old(sys.versions)
      ensures ThreadOf(sys, id) == WriteWant(mutation, |sys.versions|)
    {
      Do(BeginWrite(id, mutation));
    }

    /** The mutation itself: lock, load, change, save, update the cache, unlock. */
    method MutateFile(id: ThreadId, mutation: Mutation, patience: nat, stamp: nat, save: Save, unlockFails: bool)
      requires Reachable(sys) && ThreadOf(sys, id).Idle?
      modifies this
      ensures Reachable(sys) && old(sys.versions) <= sys.versions
      ensures var t := ThreadOf(sys, id);
              && t.WriteDone? && t.mutation == mutation && t.since == |old(sys.versions)|
              && MutationEnds(t.outcome, save, unlockFails)
    {
      BeginMutation(id, mutation);
      var taken := Lock(id, patience);
      if taken {
        WriteLocked(id, stamp, save);
        UnlockWrite(id, unlockFails);
      } else {
        GiveUp(id);
      }
    }

    /** `with_registry_mut`. It ends as the faults on its way decide; once the mutation has begun, how it
        ended tells what it left behind; and what the caller is told says the same if the file was there
        to begin with. */
    method WithRegistryMut(
      id: ThreadId, mutation: Mutation, patience: nat, stamp: nat, faults: Faults, save: Save, unlockFails: bool)
      returns (outcome: Outcome)
      requires Reachable(sys) && ThreadOf(sys, id).Idle?
      modifies this
      ensures Reachable(sys) && old(sys.versions) <= sys.versions
      ensures Commits(sys.versions, |old(sys.versions)|, mutation, outcome)
      ensures outcome.IoFailed? && outcome.stage.AtEnsure? ==>
        ThreadOf(sys, id).Idle? && (outcome.stage.setup.SetupUnlock? ==> faults.unlock)
      ensures !(outcome.IoFailed? && outcome.stage.AtEnsure?) ==>
        var t := ThreadOf(sys, id);
        && t.WriteDone? && t.mutation == mutation && t.outcome == outcome && |old(sys.versions)| <= t.since
        && MutationEnds(outcome, save, unlockFails)
        && id in sys.calls && LeftBehind(sys, t, sys.calls[id])
      ensures (old(sys.versions) != [] && !faults.directory) || !faults.unlock ==>
        (ReadsAsCommit(ReportOf(outcome)) <==> ReportsCommit(outcome))
    {
      var failure := EnsureRegistry(id, patience, stamp, faults);
      if failure.Some? {
        outcome := IoFailed(AtEnsure(failure.value));
        ReportTellsCommit(outcome);
        return;
      }
      Preempt(id);
      MutateFile(id, mutation, patience, stamp, save, unlockFails);
      outcome := ThreadOf(sys, id).outcome;
      WriteOutcome(sys, id);
      OutcomeTellsTrace(sys, id);
      CommitsEarlier(sys.versions, |old(sys.versions)|, ThreadOf(sys, id).since, mutation, outcome);
      MutationReports(outcome, save, unlockFails);
    }
  }

  lemma MutationReports(outcome: Outcome, save: Save, unlockFails: bool)
    requires MutationEnds(outcome, save, unlockFails)
    ensures ReadsAsCommit(ReportOf(outcome)) <==> ReportsCommit(outcome)
    ensures !(outcome.IoFailed? && outcome.stage.AtEnsure?)
  {
    ReportTellsCommit(outcome);
  }

  lemma CommitsEarlier(versions: seq<Version>, earlier: nat, since: nat, mutation: Mutation, outcome: Outcome)
    requires Commits(versions, since, mutation, outcome) && earlier <= since
    ensures Commits(versions, earlier, mutation, outcome)
  {
  }

  lemma WriteOutcome(sys: System, id: ThreadId)
    requires Reachable(sys) && ThreadOf(sys, id).WriteDone?
    ensures var t := ThreadOf(sys, id); Commits(sys.versions, t.since, t.mutation, t.outcome)
  {
    ReachableInv(sys);
    assert ThreadInv(sys, id, sys.threads[id]);
  }
}
