/** A list of jobs run by a bounded pool of threads that share a queue and a result vector. */
module WorkerPool {
  import opened Wrappers

  /** What running the job on an item comes to. */
  datatype Outcome<+R> = Returned(result: R) | Panics

  /** A worker between two locked sections. */
  datatype Worker<+T> = Ready | Holding(index: nat, item: T) | Exited | Panicked(lost: nat)

  /** `claims` lists the indices handed out, in order. */
  datatype System<+T, +R> = System(
    queue: seq<(nat, T)>, claims: seq<nat>,
    workers: seq<Worker<T>>, results: seq<Option<R>>)

  predicate Active<T, R>(sys: System<T, R>, w: nat) {
    w < |sys.workers| && (sys.workers[w].Ready? || sys.workers[w].Holding?)
  }

  predicate Done<T, R>(sys: System<T, R>) {
    forall w: nat | w < |sys.workers| :: !Active(sys, w)
  }

  predicate InRange<T, R>(sys: System<T, R>, count: nat) {
    && |sys.results| == count
    && forall w | 0 <= w < |sys.workers| && sys.workers[w].Holding? :: sys.workers[w].index < count
  }

  /** The next thing worker `w` does: claim the front of the queue or leave, or run its job and store. */
  function Step<T, R>(sys: System<T, R>, w: nat, job: T -> Outcome<R>): System<T, R>
    requires Active(sys, w) && InRange(sys, |sys.results|)
  {
    match sys.workers[w]
    case Ready =>
      if sys.queue == [] then sys.(workers := sys.workers[w := Exited])
      else
        var (index, item) := sys.queue[0];
        sys.(queue := sys.queue[1..], claims := sys.claims + [index],
             workers := sys.workers[w := Holding(index, item)])
    case Holding(index, item) =>
      match job(item) {
        case Returned(result) =>
          sys.(results := sys.results[index := Some(result)], workers := sys.workers[w := Ready])
        case Panics => sys.(workers := sys.workers[w := Panicked(index)])
      }
  }

  function Enumerate<T>(items: seq<T>): (pairs: seq<(nat, T)>)
    ensures |pairs| == |items| && forall i | 0 <= i < |items| :: pairs[i] == (i, items[i])
  {
    seq(|items|, i requires 0 <= i < |items| => (i, items[i]))
  }

  /** `workers.clamp(1, count)`. */
  function Clamp(workers: nat, count: nat): (n: nat)
    requires count > 0
    ensures 1 <= n <= count && (workers > 0 ==> n <= workers) && (n < workers ==> n == count)
  {
    if workers < 1 then 1 else if workers > count then count else workers
  }

  function Start<T, R>(items: seq<T>, workers: nat): System<T, R> {
    System(Enumerate(items), [], seq(workers, _ => Ready), seq(|items|, _ => None))
  }

  // --------------------------------------------------------------- what every schedule keeps

  /** Worker `w` has claimed item `i` and not stored its result. */
  predicate Has<T>(workers: seq<Worker<T>>, w: nat, i: nat) {
    w < |workers| && ((workers[w].Holding? && workers[w].index == i) || (workers[w].Panicked? && workers[w].lost == i))
  }

  /** Items are claimed in order, each once; the queue is the rest. */
  ghost predicate QueueInv<T, R>(sys: System<T, R>, items: seq<T>) {
    && |sys.claims| + |sys.queue| == |items|
    && (forall k | 0 <= k < |sys.claims| :: sys.claims[k] == k)
    && (forall k | 0 <= k < |sys.queue| :: sys.queue[k] == (|sys.claims| + k, items[|sys.claims| + k]))
    && (forall w | 0 <= w < |sys.workers| && sys.workers[w].Exited? :: sys.queue == [])
  }

  /** A claimed item is with exactly one worker until its result is stored. */
  ghost predicate WorkerInv<T, R>(sys: System<T, R>, items: seq<T>, job: T -> Outcome<R>) {
    && |sys.claims| <= |items| == |sys.results|
    && (forall w: nat, i: nat | Has(sys.workers, w, i) :: i < |sys.claims| && sys.results[i].None?)
    && (forall v: nat, w: nat, i: nat | Has(sys.workers, v, i) && Has(sys.workers, w, i) :: v == w)
    && (forall w: nat | w < |sys.workers| && sys.workers[w].Holding? ::
          sys.workers[w].index < |items| && sys.workers[w].item == items[sys.workers[w].index])
    && (forall w: nat | w < |sys.workers| && sys.workers[w].Panicked? ::
          sys.workers[w].lost < |items| && job(items[sys.workers[w].lost]).Panics?)
  }

  ghost predicate ResultInv<T, R>(sys: System<T, R>, items: seq<T>, job: T -> Outcome<R>) {
    && |sys.claims| <= |items| == |sys.results|
    && (forall i | 0 <= i < |items| && sys.results[i].Some? ::
          i < |sys.claims| && job(items[i]) == Returned(sys.results[i].value))
    && (forall i: nat | i < |sys.claims| && sys.results[i].None? :: exists w: nat :: Has(sys.workers, w, i))
  }

  ghost predicate Inv<T, R>(sys: System<T, R>, items: seq<T>, job: T -> Outcome<R>) {
    QueueInv(sys, items) && WorkerInv(sys, items, job) && ResultInv(sys, items, job)
  }

  lemma StartInv<T, R>(items: seq<T>, workers: nat, job: T -> Outcome<R>)
    ensures Inv(Start(items, workers), items, job)
  {
    assert forall k | 0 <= k < |items| :: Enumerate(items)[k] == (0 + k, items[0 + k]);
  }

  lemma QueuePreserved<T, R>(sys: System<T, R>, w: nat, items: seq<T>, job: T -> Outcome<R>)
    requires Inv(sys, items, job) && Active(sys, w)
    ensures QueueInv(Step(sys, w, job), items)
  {
    var after := Step(sys, w, job);
    if sys.workers[w].Ready? && sys.queue != [] {
      assert sys.queue[0] == (|sys.claims| + 0, items[|sys.claims| + 0]);
      forall k | 0 <= k < |after.queue|
        ensures after.queue[k] == (|after.claims| + k, items[|after.claims| + k])
      {
        assert after.queue[k] == sys.queue[k + 1];
      }
    }
  }

  lemma WorkersPreserved<T, R>(sys: System<T, R>, w: nat, items: seq<T>, job: T -> Outcome<R>)
    requires Inv(sys, items, job) && Active(sys, w)
    ensures WorkerInv(Step(sys, w, job), items, job)
  {
    var after := Step(sys, w, job);
    if sys.workers[w].Ready? && sys.queue != [] {
      assert sys.queue[0] == (|sys.claims| + 0, items[|sys.claims| + 0]);
    }
    assert sys.workers[w].Holding? ==> Has(sys.workers, w, sys.workers[w].index);
    assert forall v: nat, i: nat | v != w :: Has(after.workers, v, i) == Has(sys.workers, v, i);
  }

  lemma ResultsPreserved<T, R>(sys: System<T, R>, w: nat, items: seq<T>, job: T -> Outcome<R>)
    requires Inv(sys, items, job) && Active(sys, w)
    ensures ResultInv(Step(sys, w, job), items, job)
  {
    var after := Step(sys, w, job);
    if sys.workers[w].Ready? && sys.queue != [] {
      assert sys.queue[0] == (|sys.claims| + 0, items[|sys.claims| + 0]);
      assert Has(after.workers, w, |sys.claims|);
    }
    if sys.workers[w].Holding? { assert Has(sys.workers, w, sys.workers[w].index); }
    forall i: nat | i < |after.claims| && after.results[i].None?
      ensures exists v: nat :: Has(after.workers, v, i)
    {
      if i < |sys.claims| {
        var v: nat :| Has(sys.workers, v, i);
        assert v != w ==> Has(after.workers, v, i);
        assert v == w ==> Has(after.workers, w, i);
      } else {
        assert Has(after.workers, w, i);
      }
    }
  }

  lemma StepPreservesInv<T, R>(sys: System<T, R>, w: nat, items: seq<T>, job: T -> Outcome<R>)
    requires Inv(sys, items, job) && Active(sys, w)
    ensures Inv(Step(sys, w, job), items, job)
  {
    QueuePreserved(sys, w, items, job);
    WorkersPreserved(sys, w, items, job);
    ResultsPreserved(sys, w, items, job);
  }

  // --------------------------------------------------------------------------------- runs

  /** Taking the workers in the order of the schedule leads from `sys` to `end`. */
  ghost predicate RunsTo<T, R>(sys: System<T, R>, schedule: seq<nat>, job: T -> Outcome<R>, end: System<T, R>)
    decreases |schedule|
  {
    if schedule == [] then end == sys
    else Active(sys, schedule[0]) && InRange(sys, |sys.results|)
         && RunsTo(Step(sys, schedule[0], job), schedule[1..], job, end)
  }

  /** What is left to do: two steps for every queued item, one or two for every live worker. */
  function Weight<T>(workers: seq<Worker<T>>): nat {
    if workers == [] then 0
    else (match workers[0] case Ready => 1 case Holding(_, _) => 2 case _ => 0) + Weight(workers[1..])
  }

  lemma {:induction false} WeightUpdate<T>(workers: seq<Worker<T>>, w: nat, worker: Worker<T>)
    requires w < |workers|
    ensures Weight(workers[w := worker]) == Weight(workers) - Weight([workers[w]]) + Weight([worker])
  {
    if w == 0 {
      assert workers[0 := worker][1..] == workers[1..];
    } else {
      assert workers[w := worker][1..] == workers[1..][w - 1 := worker];
      WeightUpdate(workers[1..], w - 1, worker);
    }
  }

  /** Every step of every schedule uses up one unit of work, and a panic uses up two. */
  lemma StepShrinksWork<T, R>(sys: System<T, R>, w: nat, job: T -> Outcome<R>)
    requires Active(sys, w) && InRange(sys, |sys.results|)
    ensures var after := Step(sys, w, job);
            var before, left := 2 * |sys.queue| + Weight(sys.workers), 2 * |after.queue| + Weight(after.workers);
            left == before - (if after.workers[w].Panicked? then 2 else 1)
  {
    var after := Step(sys, w, job);
    WeightUpdate(sys.workers, w, after.workers[w]);
    assert after.workers == sys.workers[w := after.workers[w]];
  }

  lemma {:induction false} FreshWeight<T>(workers: nat)
    ensures Weight(seq<Worker<T>>(workers, _ => Ready)) == workers
  {
    if workers > 0 {
      FreshWeight<T>(workers - 1);
      assert seq<Worker<T>>(workers, _ => Ready)[1..] == seq<Worker<T>>(workers - 1, _ => Ready);
    }
  }

  lemma {:induction false} DoneIsWeightless<T>(workers: seq<Worker<T>>)
    ensures Weight(workers) == 0 <==> forall w | 0 <= w < |workers| :: workers[w].Exited? || workers[w].Panicked?
  {
    if workers != [] {
      DoneIsWeightless(workers[1..]);
      assert forall w | 0 < w < |workers| :: workers[w] == workers[1..][w - 1];
      assert forall w | 0 <= w < |workers| - 1 :: workers[1..][w] == workers[w + 1];
    }
  }

  /** Invariant and work along a run. */
  lemma {:induction false} RunKeeps<T, R>(
    sys: System<T, R>, schedule: seq<nat>, items: seq<T>, job: T -> Outcome<R>, end: System<T, R>)
    requires Inv(sys, items, job) && RunsTo(sys, schedule, job, end)
    ensures Inv(end, items, job) && |end.workers| == |sys.workers|
    ensures 2 * |end.queue| + Weight(end.workers) + |schedule| <= 2 * |sys.queue| + Weight(sys.workers)
    ensures (forall w | 0 <= w < |end.workers| :: !end.workers[w].Panicked?) ==>
              && (forall w | 0 <= w < |sys.workers| :: !sys.workers[w].Panicked?)
              && 2 * |end.queue| + Weight(end.workers) + |schedule| == 2 * |sys.queue| + Weight(sys.workers)
    decreases |schedule|
  {
    if schedule != [] {
      var w := schedule[0];
      var next := Step(sys, w, job);
      StepPreservesInv(sys, w, items, job);
      StepShrinksWork(sys, w, job);
      RunKeeps(next, schedule[1..], items, job, end);
      assert forall v | 0 <= v < |sys.workers| && v != w :: next.workers[v] == sys.workers[v];
    }
  }

  ghost predicate Reachable<T, R>(items: seq<T>, workers: nat, job: T -> Outcome<R>, sys: System<T, R>) {
    exists schedule: seq<nat> :: RunsTo(Start(items, workers), schedule, job, sys)
  }

  /** In every reachable state each item is claimed at most once, in the order given, and every stored
      result is the job's answer for the item at that index. */
  lemma ClaimedOnceStoredRight<T, R>(items: seq<T>, workers: nat, job: T -> Outcome<R>, sys: System<T, R>)
    requires Reachable(items, workers, job, sys)
    ensures |sys.claims| <= |items| && forall k | 0 <= k < |sys.claims| :: sys.claims[k] == k
    ensures |sys.results| == |items|
    ensures forall i | 0 <= i < |items| && sys.results[i].Some? :: job(items[i]) == Returned(sys.results[i].value)
  {
    var schedule: seq<nat> :| RunsTo(Start(items, workers), schedule, job, sys);
    StartInv(items, workers, job);
    RunKeeps(Start(items, workers), schedule, items, job, sys);
  }

  lemma DoneMeansGone<T, R>(sys: System<T, R>)
    requires Done(sys)
    ensures forall w | 0 <= w < |sys.workers| :: sys.workers[w].Exited? || sys.workers[w].Panicked?
  {
    forall w | 0 <= w < |sys.workers| ensures sys.workers[w].Exited? || sys.workers[w].Panicked? {
      assert !Active(sys, w);
    }
  }

  lemma FinishedLeavesNothing<T, R>(sys: System<T, R>, items: seq<T>, job: T -> Outcome<R>)
    requires Inv(sys, items, job) && Done(sys) && |sys.workers| > 0
    requires forall i | 0 <= i < |items| :: job(items[i]).Returned?
    ensures sys.queue == [] && Weight(sys.workers) == 0
    ensures forall w | 0 <= w < |sys.workers| :: !sys.workers[w].Panicked?
  {
    DoneMeansGone(sys);
    DoneIsWeightless(sys.workers);
    assert sys.workers[0].Exited?;
  }

  /** Every schedule ends: no run is longer than two steps an item and one a worker, and a run that
      finishes without a panic has exactly that many. */
  lemma RunsAreBounded<T, R>(
    items: seq<T>, workers: nat, job: T -> Outcome<R>, schedule: seq<nat>, end: System<T, R>)
    requires RunsTo(Start(items, workers), schedule, job, end)
    ensures |schedule| <= 2 * |items| + workers
    ensures workers > 0 && Done(end) && (forall i | 0 <= i < |items| :: job(items[i]).Returned?) ==>
              |schedule| == 2 * |items| + workers
  {
    StartInv(items, workers, job);
    FreshWeight<T>(workers);
    RunKeeps(Start(items, workers), schedule, items, job, end);
    if workers > 0 && Done(end) && forall i | 0 <= i < |items| :: job(items[i]).Returned? {
      FinishedLeavesNothing(end, items, job);
    }
  }

  /** When every worker is gone and none panicked, every item has its result, in the item's place. */
  lemma FinishedMeansComplete<T, R>(sys: System<T, R>, items: seq<T>, job: T -> Outcome<R>)
    requires Inv(sys, items, job) && Done(sys) && |sys.workers| > 0
    requires forall w | 0 <= w < |sys.workers| :: !sys.workers[w].Panicked?
    ensures |sys.claims| == |items| == |sys.results|
    ensures forall i | 0 <= i < |items| :: job(items[i]).Returned? && sys.results[i] == Some(job(items[i]).result)
  {
    DoneMeansGone(sys);
    assert sys.workers[0].Exited?;
    forall i: nat | i < |items|
      ensures sys.results[i].Some?
    {
      if sys.results[i].None? {
        var w: nat :| Has(sys.workers, w, i);
        assert false;
      }
    }
  }

  /** For a job that always returns, every complete schedule gives the same answer: the job's own. */
  lemma PoolRefinesMap<T, R>(items: seq<T>, workers: nat, job: T -> Outcome<R>, sys: System<T, R>)
    requires Reachable(items, workers, job, sys) && Done(sys) && workers > 0
    requires forall i | 0 <= i < |items| :: job(items[i]).Returned?
    ensures sys.results == seq(|items|, i requires 0 <= i < |items| => Some(job(items[i]).result))
    ensures |sys.claims| == |items|
  {
    var schedule: seq<nat> :| RunsTo(Start(items, workers), schedule, job, sys);
    StartInv(items, workers, job);
    RunKeeps(Start(items, workers), schedule, items, job, sys);
    FinishedMeansComplete(sys, items, job);
  }

  /** The threads and what they share. */
  class Scope<T, R> {
    const items: seq<T>
    const job: T -> Outcome<R>
    var sys: System<T, R>

    ghost predicate Valid()
      reads this
    {
      Inv(sys, items, job)
    }

    constructor (items: seq<T>, workers: nat, job: T -> Outcome<R>)
      ensures this.items == items && this.job == job && sys == Start(items, workers) && Valid()
    {
      this.items, this.job := items, job;
      sys := Start(items, workers);
      StartInv(items, workers, job);
    }

    /** The loop every thread runs, one locked section at a time. */
    method Advance(w: nat)
      requires Valid() && Active(sys, w)
      modifies this
      ensures Valid() && sys == Step(old(sys), w, job)
    {
      StepPreservesInv(sys, w, items, job);
      match sys.workers[w]
      case Ready =>
        if sys.queue == [] {
          sys := sys.(workers := sys.workers[w := Exited]);
        } else {
          var (index, item) := sys.queue[0];
          sys := sys.(queue := sys.queue[1..], claims := sys.claims + [index]);
          sys := sys.(workers := sys.workers[w := Holding(index, item)]);
        }
      case Holding(index, item) =>
        var outcome := job(item);
        if outcome.Returned? {
          sys := sys.(results := sys.results[index := Some(outcome.result)]);
          sys := sys.(workers := sys.workers[w := Ready]);
        } else {
          sys := sys.(workers := sys.workers[w := Panicked(index)]);
        }
    }

    /** Run the threads, in any order, until all are gone. */
    method RunAll()
      requires Valid()
      modifies this
      ensures Valid() && Done(sys) && |sys.workers| == |old(sys).workers|
    {
      while exists w: nat | w < |sys.workers| :: Active(sys, w)
        invariant Valid() && |sys.workers| == |old(sys).workers|
        decreases 2 * |sys.queue| + Weight(sys.workers)
      {
        var w: nat :| w < |sys.workers| && Active(sys, w);
        StepShrinksWork(sys, w, job);
        Advance(w);
      }
    }
  }

  /** `map_bounded`. A panic in a worker reaches the caller when the scope ends, so there is no vector. */
  method MapBounded<T, R>(items: seq<T>, workers: nat, job: T -> Outcome<R>) returns (all: Option<seq<Option<R>>>)
    ensures all.None? <==> exists i | 0 <= i < |items| :: job(items[i]).Panics?
    ensures all.Some? ==> |all.value| == |items|
    ensures all.Some? ==> forall i | 0 <= i < |items| ::
      job(items[i]).Returned? && all.value[i] == Some(job(items[i]).result)
  {
    if items == [] {
      return Some([]);
    }
    var pool := new Scope<T, R>(items, Clamp(workers, |items|), job);
    pool.RunAll();
    if exists w | 0 <= w < |pool.sys.workers| :: pool.sys.workers[w].Panicked? {
      return None;
    }
    FinishedMeansComplete(pool.sys, items, job);
    return Some(pool.sys.results);
  }
}
