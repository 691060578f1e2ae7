/** Fixed-window rate limiting, per user and for the whole daemon. Times are clock readings. */
module RateLimiter {
  import opened Wrappers

  datatype Window = Window(started: nat, count: nat)

  // ------------------------------------------------------------------- one window

  /** The window a probe at `now` is judged in: a fresh one if there was none or the old one is over. */
  function Current(w: Option<Window>, now: nat, length: nat): Window {
    if w.None? then Window(now, 0)
    else
      var elapsed := if now < w.value.started then 0 else now - w.value.started;
      if elapsed >= length then Window(now, 0) else w.value
  }

  predicate Allows(w: Option<Window>, now: nat, length: nat, max: nat) {
    Current(w, now, length).count < max
  }

  function Probe(w: Option<Window>, now: nat, length: nat, max: nat): Window {
    var current := Current(w, now, length);
    if current.count < max then current.(count := current.count + 1) else current
  }

  /** The clock readings of the probes so far, the latest outermost. */
  datatype Times = Start | Then(earlier: Times, now: nat)

  /** The window after the probes. */
  function After(w: Option<Window>, times: Times, length: nat, max: nat): Option<Window> {
    match times
    case Start => w
    case Then(earlier, now) => Some(Probe(After(w, earlier, length, max), now, length, max))
  }

  /** How many of the probes in [from, from + length) were allowed. */
  function CountAllowed(w: Option<Window>, times: Times, length: nat, max: nat, from: nat): nat {
    match times
    case Start => 0
    case Then(earlier, now) =>
      CountAllowed(w, earlier, length, max, from) +
      (if from <= now < from + length && Allows(After(w, earlier, length, max), now, length, max) then 1 else 0)
  }

  /** Readings never go back, nor before the window they start in. */
  predicate Ticks(w: Option<Window>, times: Times) {
    match times
    case Start => true
    case Then(earlier, now) =>
      && Ticks(w, earlier)
      && (earlier.Then? ==> earlier.now <= now)
      && (earlier.Start? && w.Some? ==> w.value.started <= now)
  }

  /** What links the open window to the probes allowed so far. `slack` is 1 when the limiter started
      with an open window that no probe opened, and 0 when it started with none. */
  ghost predicate CountInv(w: Window, allowed: nat, length: nat, max: nat, from: nat, slack: nat) {
    && w.count <= max
    && (w.started < from ==> allowed + 1 <= w.count + slack)
    && (from <= w.started < from + length ==> allowed + 1 <= max + w.count + slack)
    && (from + length <= w.started ==> allowed + 1 <= 2 * max + slack)
  }

  lemma {:induction false} RunInv(w: Option<Window>, times: Times, length: nat, max: nat, from: nat)
    requires Ticks(w, times) && length > 0 && max > 0 && (w.Some? ==> w.value.count == 0)
    ensures var after, slack := After(w, times, length, max), if w.Some? then 1 else 0;
            && (after.None? ==> times.Start? && w.None?)
            && (after.Some? ==>
                  && CountInv(after.value, CountAllowed(w, times, length, max, from), length, max, from, slack)
                  && after.value.started <= if times.Start? then w.value.started else times.now)
            && (times.Then? && times.now < from ==> CountAllowed(w, times, length, max, from) == 0)
  {
    if times.Then? { RunInv(w, times.earlier, length, max, from); }
  }

  /** Over every run, any interval of one window length holds at most twice the limit of allowed
      probes, and at most one less than that when every window was opened by a probe. */
  lemma RateBound(w: Option<Window>, times: Times, length: nat, max: nat, from: nat)
    requires Ticks(w, times) && length > 0 && (w.Some? ==> w.value.count == 0)
    ensures CountAllowed(w, times, length, max, from) <= 2 * max
    ensures w.None? && max > 0 ==> CountAllowed(w, times, length, max, from) <= 2 * max - 1
  {
    if max == 0 {
      NothingAllowed(w, times, length, from);
    } else {
      RunInv(w, times, length, max, from);
    }
  }

  lemma {:induction false} NothingAllowed(w: Option<Window>, times: Times, length: nat, from: nat)
    ensures CountAllowed(w, times, length, 0, from) == 0
  {
    if times.Then? { NothingAllowed(w, times.earlier, length, from); }
  }

  /** The times with `k` more probes at `now`. */
  function Burst(times: Times, now: nat, k: nat): Times {
    if k == 0 then times else Then(Burst(times, now, k - 1), now)
  }

  /** Probes that fit in the open window are all allowed. */
  lemma {:induction false} BurstAllowed(
    w: Option<Window>, times: Times, open: Window, now: nat, k: nat, length: nat, max: nat, from: nat)
    requires After(w, times, length, max) == Some(open)
    requires open.started <= now < open.started + length && open.count + k <= max
    ensures After(w, Burst(times, now, k), length, max) == Some(open.(count := open.count + k))
    ensures CountAllowed(w, Burst(times, now, k), length, max, from) ==
            CountAllowed(w, times, length, max, from) + (if from <= now < from + length then k else 0)
    decreases k
  {
    if k > 0 { BurstAllowed(w, times, open, now, k - 1, length, max, from); }
  }

  lemma {:induction false} BurstTicks(w: Option<Window>, times: Times, now: nat, k: nat)
    requires Ticks(w, times) && (times.Then? ==> times.now <= now)
    requires times.Start? && w.Some? ==> w.value.started <= now
    ensures var all := Burst(times, now, k); Ticks(w, all) && (all.Then? ==> all.now <= now)
  {
    if k > 0 { BurstTicks(w, times, now, k - 1); }
  }

  /** A probe that finds the window over opens the next one, and the rest of the limit fits in it. */
  lemma NextWindowFills(
    w: Option<Window>, times: Times, over: Window, length: nat, max: nat, from: nat) returns (all: Times)
    requires After(w, times, length, max) == Some(over) && Ticks(w, times) && times.Then?
    requires times.now <= over.started + length
    requires length > 0 && max > 0 && from < over.started + length < from + length
    ensures Ticks(w, all)
    ensures CountAllowed(w, all, length, max, from) == CountAllowed(w, times, length, max, from) + max
  {
    var now := over.started + length;
    all := Burst(Then(times, now), now, max - 1);
    BurstAllowed(w, Then(times, now), Window(now, 1), now, max - 1, length, max, from);
    BurstTicks(w, Then(times, now), now, max - 1);
  }

  /** The bound for a window open from the start is reached. */
  lemma OpenWindowBoundIsTight(length: nat, max: nat) returns (times: Times)
    requires length >= 2 && max >= 1
    ensures Ticks(Some(Window(0, 0)), times)
    ensures CountAllowed(Some(Window(0, 0)), times, length, max, length - 1) == 2 * max
  {
    var w, late := Some(Window(0, 0)), length - 1;
    BurstAllowed(w, Start, Window(0, 0), late, max, length, max, late);
    BurstTicks(w, Start, late, max);
    times := NextWindowFills(w, Burst(Start, late, max), Window(0, max), length, max, late);
  }

  /** So is the bound for windows that probes open. */
  lemma ProbedWindowBoundIsTight(length: nat, max: nat) returns (times: Times)
    requires length >= 2 && max >= 1
    ensures Ticks(None, times)
    ensures CountAllowed(None, times, length, max, length - 1) == 2 * max - 1
  {
    var first, late := Then(Start, 0), length - 1;
    BurstAllowed(None, first, Window(0, 1), late, max - 1, length, max, late);
    BurstTicks(None, first, late, max - 1);
    times := NextWindowFills(None, Burst(first, late, max - 1), Window(0, max), length, max, late);
  }

  /** Readings taken before the lock is waited for can reach it out of order. Then, for limits of two
      and more, any number of probes is allowed within one window length. */
  lemma {:induction false} StaleReadingsHaveNoBound(w: Option<Window>, length: nat, max: nat, n: nat)
    returns (times: Times, open: Option<Window>)
    requires length > 0 && max >= 2
    ensures After(w, times, length, max) == open
    ensures CountAllowed(w, times, length, max, 0) == n
  {
    if n == 0 { return Start, w; }
    var earlier, before := StaleReadingsHaveNoBound(w, length, max, n - 1);
    var now := if before.None? then length else before.value.started + length;
    times, open := Then(Then(earlier, now), 0), Some(Window(now, 2));
    assert Probe(before, now, length, max) == Window(now, 1);
    assert After(w, Then(earlier, now), length, max) == Some(Window(now, 1));
  }

  /** With a limit of one every probe that opens a window is a whole length after the one before. */
  lemma {:induction false} SingleInAnyOrder(w: Option<Window>, times: Times, length: nat, from: nat)
    requires length > 0 && (w.Some? ==> w.value.count == 0)
    ensures var after, allowed := After(w, times, length, 1), CountAllowed(w, times, length, 1, from);
            && allowed <= 2 && (times.Start? ==> allowed == 0)
            && (after.Some? ==> after.value.count <= 1)
            && (times.Then? ==> after.Some? && after.value.count == 1)
            && (allowed == 2 ==> after.value.started >= from)
  {
    if times.Then? { SingleInAnyOrder(w, times.earlier, length, from); }
  }

  lemma {:induction false} EmptyInterval(w: Option<Window>, times: Times, max: nat, from: nat)
    ensures CountAllowed(w, times, 0, max, from) == 0
  {
    if times.Then? { EmptyInterval(w, times.earlier, max, from); }
  }

  /** The bound holds whatever the order of the readings exactly when the limit is at most one (or the
      window empty). */
  lemma BoundedInAnyOrderIff(w: Option<Window>, length: nat, max: nat)
    requires w.Some? ==> w.value.count == 0
    ensures (forall times, from :: CountAllowed(w, times, length, max, from) <= 2 * max) <==> max <= 1 || length == 0
  {
    if max <= 1 || length == 0 {
      forall times, from ensures CountAllowed(w, times, length, max, from) <= 2 * max {
        if length == 0 {
          EmptyInterval(w, times, max, from);
        } else if max == 0 {
          NothingAllowed(w, times, length, from);
        } else {
          SingleInAnyOrder(w, times, length, from);
        }
      }
    } else {
      var times, open := StaleReadingsHaveNoBound(w, length, max, 2 * max + 1);
      assert CountAllowed(w, times, length, max, 0) > 2 * max;
    }
  }

  // ------------------------------------------------------------------- the limiter

  /** One locked section: the daemon-wide check or the check of one user. */
  datatype Event = GlobalProbe(now: nat) | UserProbe(uid: nat, now: nat)

  datatype Limiter = Limiter(
    length: nat, max: nat, globalMax: nat,
    global: Window, users: map<nat, Window>)

  function UserWindow(limiter: Limiter, uid: nat): Option<Window> {
    if uid in limiter.users then Some(limiter.users[uid]) else None
  }

  function Step(limiter: Limiter, event: Event): Limiter {
    match event
    case GlobalProbe(now) =>
      limiter.(global := Probe(Some(limiter.global), now, limiter.length, limiter.globalMax))
    case UserProbe(uid, now) =>
      limiter.(users := limiter.users[uid := Probe(UserWindow(limiter, uid), now, limiter.length, limiter.max)])
  }

  predicate Passes(limiter: Limiter, event: Event) {
    match event
    case GlobalProbe(now) => Allows(Some(limiter.global), now, limiter.length, limiter.globalMax)
    case UserProbe(uid, now) => Allows(UserWindow(limiter, uid), now, limiter.length, limiter.max)
  }

  function Run(limiter: Limiter, events: seq<Event>): Limiter {
    if events == [] then limiter else Step(Run(limiter, events[..|events| - 1]), events[|events| - 1])
  }

  function GlobalTimes(events: seq<Event>): Times {
    if events == [] then Start
    else
      var last := events[|events| - 1];
      var earlier := GlobalTimes(events[..|events| - 1]);
      if last.GlobalProbe? then Then(earlier, last.now) else earlier
  }

  function UserTimes(events: seq<Event>, uid: nat): Times {
    if events == [] then Start
    else
      var last := events[|events| - 1];
      var earlier := UserTimes(events[..|events| - 1], uid);
      if last.UserProbe? && last.uid == uid then Then(earlier, last.now) else earlier
  }

  /** The events of a kind that passed, with a reading in [from, from + length). */
  function PassedGlobal(limiter: Limiter, events: seq<Event>, from: nat): nat {
    if events == [] then 0
    else
      var front, last := events[..|events| - 1], events[|events| - 1];
      PassedGlobal(limiter, front, from) +
      (if last.GlobalProbe? && from <= last.now < from + limiter.length && Passes(Run(limiter, front), last)
       then 1 else 0)
  }

  function PassedUser(limiter: Limiter, events: seq<Event>, uid: nat, from: nat): nat {
    if events == [] then 0
    else
      var front, last := events[..|events| - 1], events[|events| - 1];
      PassedUser(limiter, front, uid, from) +
      (if last.UserProbe? && last.uid == uid && from <= last.now < from + limiter.length
          && Passes(Run(limiter, front), last)
       then 1 else 0)
  }

  lemma {:induction false} GlobalProjects(limiter: Limiter, events: seq<Event>, from: nat)
    ensures var l, after := limiter, Run(limiter, events);
            && after.length == l.length && after.max == l.max && after.globalMax == l.globalMax
            && Some(after.global) == After(Some(l.global), GlobalTimes(events), l.length, l.globalMax)
            && PassedGlobal(l, events, from) ==
               CountAllowed(Some(l.global), GlobalTimes(events), l.length, l.globalMax, from)
  {
    if events != [] {
      var front, last := events[..|events| - 1], events[|events| - 1];
      GlobalProjects(limiter, front, from);
    }
  }

  lemma {:induction false} UserProjects(limiter: Limiter, events: seq<Event>, uid: nat, from: nat)
    ensures var l, after := limiter, Run(limiter, events);
            && after.length == l.length && after.max == l.max
            && UserWindow(after, uid) == After(UserWindow(l, uid), UserTimes(events, uid), l.length, l.max)
            && PassedUser(l, events, uid, from) ==
               CountAllowed(UserWindow(l, uid), UserTimes(events, uid), l.length, l.max, from)
  {
    if events != [] {
      var front, last := events[..|events| - 1], events[|events| - 1];
      UserProjects(limiter, front, uid, from);
    }
  }

  /** A limiter as it is built: an open daemon-wide window, and none for any user. */
  predicate IsNew(limiter: Limiter) {
    limiter.length > 0 && limiter.global.count == 0 && limiter.users == map[]
  }

  /** Over every interleaving of the two locks, an interval of one window length lets at most twice the
      global limit through, provided readings never go back in the order the lock was taken. */
  lemma GlobalRateBound(limiter: Limiter, events: seq<Event>, from: nat)
    requires IsNew(limiter) && Ticks(Some(limiter.global), GlobalTimes(events))
    ensures PassedGlobal(limiter, events, from) <= 2 * limiter.globalMax
  {
    GlobalProjects(limiter, events, from);
    RateBound(Some(limiter.global), GlobalTimes(events), limiter.length, limiter.globalMax, from);
  }

  /** And for each user at most twice the user limit, less one. */
  lemma UserRateBound(limiter: Limiter, events: seq<Event>, uid: nat, from: nat)
    requires IsNew(limiter) && Ticks(None, UserTimes(events, uid))
    ensures PassedUser(limiter, events, uid, from) <= 2 * limiter.max
    ensures limiter.max > 0 ==> PassedUser(limiter, events, uid, from) <= 2 * limiter.max - 1
  {
    UserProjects(limiter, events, uid, from);
    RateBound(None, UserTimes(events, uid), limiter.length, limiter.max, from);
  }

  /** The limiter as the daemon holds it. */
  class Shared {
    const length: nat
    const max: nat
    const globalMax: nat
    var global: Window
    var users: map<nat, Window>

    function State(): Limiter
      reads this
    {
      Limiter(length, max, globalMax, global, users)
    }

    constructor (length: nat, max: nat, globalMax: nat, now: nat)
      ensures State() == Limiter(length, max, globalMax, Window(now, 0), map[])
    {
      this.length, this.max, this.globalMax := length, max, globalMax;
      global := Window(now, 0);
      users := map[];
    }

    /** `allow_global`. */
    method AllowGlobal(now: nat) returns (allowed: bool)
      modifies this
      ensures allowed == Passes(old(State()), GlobalProbe(now))
      ensures State() == Step(old(State()), GlobalProbe(now))
    {
      var elapsed := if now < global.started then 0 else now - global.started;
      if elapsed >= length {
        global := Window(now, 0);
      }
      if global.count >= globalMax {
        return false;
      }
      global := global.(count := global.count + 1);
      return true;
    }

    /** `allow_per_uid`. */
    method AllowPerUid(uid: nat, now: nat) returns (allowed: bool)
      modifies this
      ensures allowed == Passes(old(State()), UserProbe(uid, now))
      ensures State() == Step(old(State()), UserProbe(uid, now))
    {
      if uid !in users {
        users := users[uid := Window(now, 0)];
      }
      var elapsed := if now < users[uid].started then 0 else now - users[uid].started;
      if elapsed >= length {
        users := users[uid := Window(now, 0)];
      }
      if users[uid].count >= max {
        return false;
      }
      users := users[uid := users[uid].(count := users[uid].count + 1)];
      return true;
    }

    /** Between the two locks other threads may take either lock any number of times. */
    method Others() returns (ghost events: seq<Event>)
      modifies this
      ensures State() == Run(old(State()), events)
    {
      events := [];
    }

    /** `allow`: both checks, the daemon-wide one first; a user refused still used up a global slot. */
    method Allow(uid: nat, now: nat, later: nat) returns (allowed: bool, ghost others: seq<Event>)
      modifies this
      ensures var probed := Step(old(State()), GlobalProbe(now));
              if Passes(old(State()), GlobalProbe(now)) then
                && (allowed <==> Passes(Run(probed, others), UserProbe(uid, later)))
                && State() == Step(Run(probed, others), UserProbe(uid, later))
              else !allowed && State() == probed
    {
      others := [];
      allowed := AllowGlobal(now);
      if allowed {
        others := Others();
        allowed := AllowPerUid(uid, later);
      }
    }
  }
}
