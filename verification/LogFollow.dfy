/** Following a log by offset while other processes write it. */
module LogFollow {
  import opened Wrappers
  import LossyText
  import Utf8

  type Byte = Utf8.Byte

  const MAX_LOG_READ_BYTES: nat := 1_048_576
  const MAX_LOG_DELTA_BYTES: nat := 131_072

  /** The path names an inode. An inode number identifies the file: none is ever reused, not even
      between two polls, when the follower has no handle open. */
  datatype World = World(path: Option<nat>, files: map<nat, seq<Byte>>)

  predicate Valid(world: World) {
    world.path.Some? ==> world.path.value in world.files
  }

  /** What the other processes may do: nothing, append, or also truncate, remove and replace. */
  datatype Others = Frozen | Appends | Anything

  ghost predicate Evolves(others: Others, before: World, after: World) {
    && Valid(after)
    && before.files.Keys <= after.files.Keys
    && (others.Frozen? ==> after == before)
    && (!others.Anything? ==>
          && after.path == before.path
          && forall id | id in before.files :: before.files[id] <= after.files[id])
  }

  datatype TailRead = TailRead(raw: seq<Byte>, truncated: bool, endOffset: nat, stream: nat)

  datatype Reply = Reply(raw: seq<Byte>, nextOffset: nat, reset: bool, stream: Option<nat>, hasMore: bool)

  /** What a read of at most `limit` bytes at `offset` returns. */
  function Read(bytes: seq<Byte>, offset: nat, limit: nat): (raw: seq<Byte>)
    ensures |raw| <= limit
    ensures offset <= |bytes| ==> offset + |raw| <= |bytes| && raw == bytes[offset..offset + |raw|]
    ensures offset + limit <= |bytes| ==> |raw| == limit
    ensures |bytes| <= offset + limit && raw != [] ==> offset + |raw| == |bytes|
  {
    if |bytes| <= offset then []
    else bytes[offset..if |bytes| <= offset + limit then |bytes| else offset + limit]
  }

  function ReadToEnd(bytes: seq<Byte>, offset: nat): seq<Byte> {
    if |bytes| <= offset then [] else bytes[offset..]
  }

  function Join(slices: seq<seq<Byte>>): seq<Byte> {
    if slices == [] then [] else Join(slices[..|slices| - 1]) + slices[|slices| - 1]
  }

  // ------------------------------------------------------------------- what a read promises

  /** A tail read of the file `id` ends at or after everything written before it began. */
  ghost predicate IsTail(tail: TailRead, id: nat, before: World, after: World, maxBytes: nat)
    requires id in before.files && id in after.files
  {
    var bytes := after.files[id];
    && tail.stream == id
    && |before.files[id]| <= tail.endOffset <= |bytes|
    && |tail.raw| <= tail.endOffset
    && tail.raw == bytes[tail.endOffset - |tail.raw|..tail.endOffset]
    && (tail.truncated <==> |tail.raw| < tail.endOffset)
    && (tail.truncated ==> maxBytes <= |tail.raw|)
  }

  /** A poll at `offset` carries the next bytes of the file, at most one slice of them; nothing more is
      said to be waiting only if everything written before the poll has been delivered. */
  ghost predicate IsNextSlice(reply: Reply, id: nat, offset: nat, before: World, after: World)
    requires id in before.files && id in after.files
  {
    var bytes := after.files[id];
    && !reply.reset && reply.stream == Some(id)
    && |reply.raw| <= MAX_LOG_DELTA_BYTES
    && reply.nextOffset == offset + |reply.raw| <= |bytes|
    && reply.raw == bytes[offset..reply.nextOffset]
    && (reply.hasMore ==> |reply.raw| == MAX_LOG_DELTA_BYTES && reply.nextOffset < |bytes|)
    && (!reply.hasMore ==> |before.files[id]| <= reply.nextOffset)
  }

  /** A reset shows the current tail instead. */
  ghost predicate IsReset(reply: Reply, id: nat, before: World, after: World)
    requires id in before.files && id in after.files
  {
    && reply.reset && reply.stream == Some(id) && !reply.hasMore
    && IsTail(TailRead(reply.raw, |reply.raw| < reply.nextOffset, reply.nextOffset, id), id, before, after,
              MAX_LOG_READ_BYTES)
  }

  lemma JoinSnoc(slices: seq<seq<Byte>>, slice: seq<Byte>)
    ensures Join(slices + [slice]) == Join(slices) + slice
  {
    assert (slices + [slice])[..|slices|] == slices;
  }

  /** How many full slices it takes to carry `waiting` bytes. */
  function Polls(waiting: nat): nat {
    (waiting + MAX_LOG_DELTA_BYTES - 1) / MAX_LOG_DELTA_BYTES
  }

  datatype Followed = Followed(
    slices: seq<seq<Byte>>, start: nat, offset: nat, stream: Option<nat>, resets: nat, failed: bool)

  /** What a follower has shown since it began or was last reset: the bytes from where it began then
      up to its offset, each once and in order. */
  ghost predicate Shown(world: World, log: Followed, id: nat) {
    && id in world.files
    && !log.failed
    && (log.stream.None? || log.stream == Some(id))
    && log.start <= log.offset <= |world.files[id]|
    && Join(log.slices) == world.files[id][log.start..log.offset]
  }

  /** The follower's place is in another file, or past the end of this one. */
  ghost predicate Stale(world: World, log: Followed, id: nat) {
    && id in world.files
    && ((log.stream.Some? && log.stream != Some(id)) || |world.files[id]| < log.offset)
  }

  /** The follower's place after an answer. An empty answer moves nothing. */
  function Advance(log: Followed, reply: Reply): Followed
    requires |reply.raw| <= reply.nextOffset
  {
    if reply.reset then
      Followed([reply.raw], reply.nextOffset - |reply.raw|, reply.nextOffset, reply.stream, log.resets + 1, false)
    else if reply.raw == [] then log
    else log.(slices := log.slices + [reply.raw], offset := reply.nextOffset, stream := reply.stream)
  }

  /** The follower's place is in this file. */
  ghost predicate InPlace(world: World, log: Followed, id: nat) {
    id in world.files && (log.stream.None? || log.stream == Some(id)) && log.offset <= |world.files[id]|
  }

  /** The follower shows the bytes of the file from its offset on, if there are any, and nothing else. */
  ghost predicate CarriesOn(world: World, log: Followed, next: Followed, id: nat) {
    && id in world.files && log.offset <= next.offset <= |world.files[id]|
    && next.offset <= log.offset + MAX_LOG_DELTA_BYTES
    && next.start == log.start && next.resets == log.resets && next.failed == log.failed
    && (next.stream == log.stream || next.stream == Some(id))
    && (if next.offset == log.offset then next.slices == log.slices
        else next.slices == log.slices + [world.files[id][log.offset..next.offset]])
  }

  lemma SliceCarriesOn(log: Followed, reply: Reply, id: nat, before: World, after: World)
    requires id in before.files && id in after.files && log.offset <= |before.files[id]|
    requires IsNextSlice(reply, id, log.offset, before, after)
    ensures CarriesOn(after, log, Advance(log, reply), id) && Advance(log, reply).offset == reply.nextOffset
  {
  }

  /** The next slice carries on exactly where the follower was. */
  lemma SliceExtends(log: Followed, next: Followed, id: nat, before: World, after: World)
    requires Shown(before, log, id) && id in after.files && before.files[id] <= after.files[id]
    requires CarriesOn(after, log, next, id)
    ensures Shown(after, next, id)
  {
    var was, bytes := before.files[id], after.files[id];
    assert was[log.start..log.offset] == bytes[log.start..log.offset];
    JoinSnoc(log.slices, bytes[log.offset..next.offset]);
    assert bytes[log.start..log.offset] + bytes[log.offset..next.offset] == bytes[log.start..next.offset];
  }

  lemma ResetShows(log: Followed, reply: Reply, id: nat, before: World, after: World)
    requires id in before.files && id in after.files && IsReset(reply, id, before, after)
    ensures Shown(after, Advance(log, reply), id)
  {
    assert Join([reply.raw]) == reply.raw;
  }

  /** What a follower shows that carried on in a file rewritten behind its back. */
  lemma RewriteShowsIff(log: Followed, next: Followed, was: nat, before: World, id: nat, after: World)
    requires Shown(before, log, was) && InPlace(after, log, id) && CarriesOn(after, log, next, id)
    ensures Shown(after, next, id) <==>
            after.files[id][log.start..log.offset] == before.files[was][log.start..log.offset]
  {
    var bytes, shown := after.files[id], Join(log.slices);
    var more := bytes[log.offset..next.offset];
    JoinSnoc(log.slices, more);
    assert Join(next.slices) == shown + more;
    assert bytes[log.start..next.offset] == bytes[log.start..log.offset] + more;
    assert (shown + more)[..|shown|] == shown;
    assert bytes[log.start..next.offset][..|shown|] == bytes[log.start..log.offset];
  }

  // ------------------------------------------------------------------ as text

  /** Every slice is turned into text by itself. */
  function DecodeAll(slices: seq<seq<Byte>>): seq<Byte> {
    if slices == [] then [] else DecodeAll(slices[..|slices| - 1]) + LossyText.Decode(slices[|slices| - 1])
  }

  /** The border before slice `k` cuts a character, or what could have become one. */
  predicate CutsAt(slices: seq<seq<Byte>>, k: nat)
    requires k < |slices|
  {
    LossyText.Cuts(Join(slices[..k]), slices[k])
  }

  predicate NoCut(slices: seq<seq<Byte>>) {
    slices == [] ||
    (var front := slices[..|slices| - 1];
     NoCut(front) && !LossyText.Cuts(Join(front), slices[|slices| - 1]))
  }

  lemma {:induction false} NoCutIff(slices: seq<seq<Byte>>)
    ensures NoCut(slices) <==> forall k | 0 <= k < |slices| :: !CutsAt(slices, k)
    decreases |slices|
  {
    if slices != [] {
      var n := |slices| - 1;
      var front := slices[..n];
      NoCutIff(front);
      assert CutsAt(slices, n) == LossyText.Cuts(Join(front), slices[n]);
      forall k | 0 <= k < n ensures CutsAt(slices, k) == CutsAt(front, k) {
        assert slices[..k] == front[..k];
      }
      if !NoCut(front) {
        var k :| 0 <= k < n && CutsAt(front, k);
        assert CutsAt(slices, k);
      }
    }
  }

  /** Cut characters make the text longer than it should be. */
  lemma {:induction false} PiecesDecode(slices: seq<seq<Byte>>)
    ensures NoCut(slices) ==> DecodeAll(slices) == LossyText.Decode(Join(slices))
    ensures !NoCut(slices) ==> |LossyText.Decode(Join(slices))| < |DecodeAll(slices)|
    decreases |slices|
  {
    if slices != [] {
      var front := slices[..|slices| - 1];
      PiecesDecode(front);
      LossyText.DecodeConcat(Join(front), slices[|slices| - 1]);
    }
  }

  /** The text shown is the text of the stretch exactly if no border between two slices cuts a
      character. */
  lemma TextIsWholeIff(slices: seq<seq<Byte>>)
    ensures DecodeAll(slices) == LossyText.Decode(Join(slices)) <==>
            forall k | 0 <= k < |slices| :: !CutsAt(slices, k)
  {
    PiecesDecode(slices);
    NoCutIff(slices);
  }

  /** In a stretch of valid UTF-8 the borders that cut are those before a continuation byte, and then
      only: so the text shown is the stretch itself exactly if no slice starts with such a byte. */
  lemma ValidTextIsWholeIff(slices: seq<seq<Byte>>)
    requires Utf8.Valid(Join(slices))
    ensures DecodeAll(slices) == Join(slices) <==>
            forall k | 0 <= k < |slices| && slices[k] != [] :: !Utf8.IsTail(slices[k][0])
  {
    TextIsWholeIff(slices);
    LossyText.ValidDecodesToItself(Join(slices));
    forall k | 0 <= k < |slices| ensures CutsAt(slices, k) <==> slices[k] != [] && Utf8.IsTail(slices[k][0]) {
      BorderCutsIff(slices, k);
    }
  }

  lemma {:induction false} JoinSplits(slices: seq<seq<Byte>>, k: nat)
    requires k <= |slices|
    ensures Join(slices) == Join(slices[..k]) + Join(slices[k..])
    decreases |slices|
  {
    if k == |slices| {
      assert slices[..k] == slices && slices[k..] == [];
    } else {
      var front, last := slices[..|slices| - 1], slices[|slices| - 1];
      JoinSplits(front, k);
      assert front[..k] == slices[..k] && slices[k..] == front[k..] + [last];
      JoinSnoc(front[k..], last);
    }
  }

  lemma BorderCutsIff(slices: seq<seq<Byte>>, k: nat)
    requires k < |slices| && Utf8.Valid(Join(slices))
    ensures CutsAt(slices, k) <==> slices[k] != [] && Utf8.IsTail(slices[k][0])
  {
    var a, b, rest := Join(slices[..k]), slices[k], Join(slices[k + 1..]);
    JoinSplits(slices, k);
    JoinSplits(slices[k..], 1);
    assert slices[k..][..1] == [b] && slices[k..][1..] == slices[k + 1..];
    assert Join([b]) == b;
    if b != [] {
      LossyText.ValidCutsIff(a, b + rest);
      assert (b + rest)[0] == b[0];
    }
  }

  /** `k` full slices and a last one of at most a full slice. */
  lemma PollsCounts(waiting: nat, k: nat)
    requires k * MAX_LOG_DELTA_BYTES < waiting <= (k + 1) * MAX_LOG_DELTA_BYTES
    ensures Polls(waiting) == k + 1
  {
  }

  /** Where the first request of a follower begins. */
  function TailStart(bytes: seq<Byte>): nat {
    if |bytes| <= MAX_LOG_READ_BYTES then 0 else |bytes| - MAX_LOG_READ_BYTES
  }

  class Host {
    const others: Others
    var world: World

    constructor (others: Others, world: World)
      requires Valid(world)
      ensures this.others == others && this.world == world
    {
      this.others, this.world := others, world;
    }

    /** The other processes run. */
    method Preempt()
      requires Valid(world)
      modifies this
      ensures Evolves(others, old(world), world)
    {
    }

    /** `read_tail_bytes`. */
    method ReadTail(maxBytes: nat) returns (result: Result<TailRead>)
      requires Valid(world)
      modifies this
      ensures Evolves(others, old(world), world)
      ensures result.Ok? ==> |result.value.raw| <= result.value.endOffset
      ensures !others.Anything? ==> (result.Err? <==> old(world).path.None?)
      ensures !others.Anything? && result.Ok? ==>
        IsTail(result.value, world.path.value, old(world), world, maxBytes)
      ensures others.Frozen? && result.Ok? ==>
        |result.value.raw| == (if |world.files[world.path.value]| <= maxBytes
                               then |world.files[world.path.value]| else maxBytes)
    {
      if world.path.None? {
        return Err;
      }
      var id := world.path.value;
      Preempt();
      var length := |world.files[id]|;
      Preempt();
      var offset := if length <= maxBytes then 0 else length - maxBytes;
      var raw := ReadToEnd(world.files[id], offset);
      return Ok(TailRead(raw, offset > 0, offset + |raw|, id));
    }

    /** `read_log_delta`. */
    method ReadDelta(offset: nat, expected: Option<nat>) returns (result: Result<Reply>)
      requires Valid(world)
      modifies this
      ensures Evolves(others, old(world), world)
      ensures result.Ok? ==> |result.value.raw| <= result.value.nextOffset
      ensures result.Ok? && !result.value.reset ==>
        result.value.stream.Some? && (expected.None? || expected == result.value.stream)
        && |result.value.raw| <= MAX_LOG_DELTA_BYTES && result.value.nextOffset == offset + |result.value.raw|
      ensures !others.Anything? ==> (result.Err? <==> old(world).path.None?)
      ensures !others.Anything? && result.Ok? && (expected.None? || expected == world.path)
              && offset <= |old(world).files[world.path.value]| ==>
        IsNextSlice(result.value, world.path.value, offset, old(world), world)
      ensures !others.Anything? && result.Ok?
              && ((expected.Some? && expected != world.path) || |world.files[world.path.value]| < offset) ==>
        IsReset(result.value, world.path.value, old(world), world)
    {
      if world.path.None? {
        return Err;
      }
      var id := world.path.value;
      Preempt();
      var length := |world.files[id]|;
      var replaced := expected.Some? && expected.value != id;
      if replaced || length < offset {
        var tail := ReadTail(MAX_LOG_READ_BYTES);
        if tail.Err? {
          return Err;
        }
        return Ok(Reply(tail.value.raw, tail.value.endOffset, true, Some(tail.value.stream), false));
      }
      Preempt();
      var available := length - offset;
      var limit := if available <= MAX_LOG_DELTA_BYTES then available else MAX_LOG_DELTA_BYTES;
      var raw := Read(world.files[id], offset, limit);
      return Ok(Reply(raw, offset + |raw|, false, Some(id), limit < available));
    }

    /** `workspace_logs`, as a follower polls it: a missing log is a reset to the start. */
    method Poll(offset: nat, expected: Option<nat>) returns (result: Result<Reply>)
      requires Valid(world)
      modifies this
      ensures Evolves(others, old(world), world)
      ensures result.Ok? ==> |result.value.raw| <= result.value.nextOffset
      ensures old(world).path.None? ==> result == Ok(Reply([], 0, true, None, false))
      ensures !others.Anything? ==> result.Ok?
      ensures !others.Anything? && old(world).path.Some? && (expected.None? || expected == world.path)
              && offset <= |old(world).files[world.path.value]| ==>
        IsNextSlice(result.value, world.path.value, offset, old(world), world)
      ensures !others.Anything? && old(world).path.Some?
              && ((expected.Some? && expected != world.path) || |world.files[world.path.value]| < offset) ==>
        IsReset(result.value, world.path.value, old(world), world)
    {
      if world.path.None? {
        return Ok(Reply([], 0, true, None, false));
      }
      Preempt();
      result := ReadDelta(offset, expected);
    }

    /** One turn of the follow loop. An empty answer moves nothing. */
    method FollowOnce(log: Followed) returns (next: Followed, more: bool)
      requires Valid(world) && !log.failed
      modifies this
      ensures Evolves(others, old(world), world)
      ensures !others.Anything? && old(world).path.Some? && InPlace(old(world), log, world.path.value) ==>
        var id := world.path.value;
        && CarriesOn(world, log, next, id)
        && (more ==> next.offset == log.offset + MAX_LOG_DELTA_BYTES < |world.files[id]|)
        && (!more ==> |old(world).files[id]| <= next.offset)
        && (Shown(old(world), log, id) ==> Shown(world, next, id))
      ensures others.Frozen? && world.path.Some? ==>
        (next.resets == log.resets + 1 <==> Stale(world, log, world.path.value))
      ensures !others.Anything? && old(world).path.Some? && Stale(world, log, world.path.value) ==>
        var id := world.path.value;
        && Shown(world, next, id) && next.resets == log.resets + 1 && !more
        && |old(world).files[id]| <= next.offset
    {
      var reply := Poll(log.offset, log.stream);
      if reply.Err? {
        return log.(failed := true), false;
      }
      next, more := Advance(log, reply.value), reply.value.hasMore;
      if !others.Anything? && old(world).path.Some? {
        ghost var id := world.path.value;
        if InPlace(old(world), log, id) {
          SliceCarriesOn(log, reply.value, id, old(world), world);
          if Shown(old(world), log, id) { SliceExtends(log, next, id, old(world), world); }
        } else if Stale(world, log, id) {
          ResetShows(log, reply.value, id, old(world), world);
        }
      }
    }

    /** A poll after anything at all happened to the log since the last one, here `before`. What is shown
        then is a stretch of the file exactly if the change is noticed, because another file is there or
        this one has become shorter than the follower's offset, or the bytes already shown are back. */
    method FollowAfterChange(log: Followed, ghost was: nat, ghost before: World) returns (next: Followed)
      requires Valid(world) && others.Frozen? && world.path.Some? && Shown(before, log, was)
      modifies this
      ensures world == old(world)
      ensures var id := world.path.value;
              && !next.failed && (next.resets == if Stale(world, log, id) then log.resets + 1 else log.resets)
              && (Shown(world, next, id) <==>
                  || Stale(world, log, id)
                  || world.files[id][log.start..log.offset] == before.files[was][log.start..log.offset])
    {
      var more;
      next, more := FollowOnce(log);
      ghost var id := world.path.value;
      if InPlace(world, log, id) { RewriteShowsIff(log, next, was, before, id, world); }
    }

    /** The first request of `logs --follow`: the tail of the log. */
    method Begin() returns (log: Followed)
      requires Valid(world)
      modifies this
      ensures Evolves(others, old(world), world)
      ensures |log.slices| <= 1
      ensures old(world).path.None? ==> log == Followed([], 0, 0, None, 0, false)
      ensures !others.Anything? && old(world).path.Some? ==>
        Shown(world, log, world.path.value) && |old(world).files[world.path.value]| <= log.offset && log.resets == 0
      ensures others.Frozen? && world.path.Some? ==> log.start == TailStart(world.files[world.path.value])
    {
      if world.path.None? {
        return Followed([], 0, 0, None, 0, false);
      }
      var tail := ReadTail(MAX_LOG_READ_BYTES);
      if tail.Err? {
        return Followed([], 0, 0, None, 0, true);
      }
      var TailRead(raw, _, endOffset, stream) := tail.value;
      assert Join([raw]) == raw;
      log := Followed([raw], endOffset - |raw|, endOffset, Some(stream), 0, false);
    }

    /** The follow loop for any number of polls. On a log that is only appended to, what is shown is
        exactly one stretch of the file, none of it lost or repeated. */
    method Follow(polls: nat) returns (log: Followed)
      requires Valid(world)
      modifies this
      ensures Evolves(others, old(world), world)
      ensures !others.Anything? && old(world).path.Some? ==>
        Shown(world, log, world.path.value) && log.resets == 0
        && forall k | 0 < k < |log.slices| :: |log.slices[k]| <= MAX_LOG_DELTA_BYTES
    {
      log := Begin();
      for i := 0 to polls
        invariant Evolves(others, old(world), world)
        invariant !others.Anything? && old(world).path.Some? ==>
          Shown(world, log, world.path.value) && log.resets == 0
          && forall k | 0 < k < |log.slices| :: |log.slices[k]| <= MAX_LOG_DELTA_BYTES
      {
        if log.failed {
          return;
        }
        var more;
        log, more := FollowOnce(log);
      }
    }

    /** Polling while more is waiting reaches the end of a finished log, in one poll for every slice. */
    method Drain(start: Followed) returns (log: Followed, polls: nat)
      requires Valid(world) && others.Frozen? && world.path.Some? && Shown(world, start, world.path.value)
      modifies this
      ensures world == old(world) && Shown(world, log, world.path.value) && log.start == start.start
      ensures log.offset == |world.files[world.path.value]|
      ensures polls == if log.offset == start.offset then 1 else Polls(log.offset - start.offset)
    {
      var more := true;
      log, polls := start, 0;
      while more
        invariant world == old(world) && Shown(world, log, world.path.value) && log.start == start.start
        invariant more ==> log.offset == start.offset + polls * MAX_LOG_DELTA_BYTES
        invariant more && polls > 0 ==> log.offset < |world.files[world.path.value]|
        invariant !more ==> log.offset == |world.files[world.path.value]|
        invariant !more ==> polls == if log.offset == start.offset then 1 else Polls(log.offset - start.offset)
        decreases more, |world.files[world.path.value]| - log.offset
      {
        log, more := FollowOnce(log);
        if !more && log.offset != start.offset {
          PollsCounts(log.offset - start.offset, polls);
        }
        polls := polls + 1;
      }
    }
  }

  /** Such a change: the log is cut and rewritten at least as long as before, and the follower shows the
      old beginning with the new end. */
  method RegrownLogIsMixed(id: nat, was: seq<Byte>, now: seq<Byte>) returns (log: Followed)
    requires |was| <= |now| && now[TailStart(was)..|was|] != was[TailStart(was)..]
    ensures !log.failed && log.resets == 0 && !Shown(World(Some(id), map[id := now]), log, id)
  {
    var host := new Host(Frozen, World(Some(id), map[id := was]));
    log := host.Begin();
    ghost var before := host.world;
    assert was[log.start..log.offset] == was[TailStart(was)..];
    host.world := World(Some(id), map[id := now]);
    log := host.FollowAfterChange(log, id, before);
  }
}
