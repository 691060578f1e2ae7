/**
 Replacing a file through a temporary file and a rename, by any number of writers of one path, on a
 disk that may lose data and directory changes that were not synced.
 */
module AtomicWrite {
  import opened Wrappers

  type Data = seq<nat>
  type Inode = nat

  datatype Durability = Required | BestEffort

  /** What the path named at one time. `content` is what the file was meant to hold. */
  datatype Entry = Absent | File(inode: Inode, content: Data, writer: Option<nat>)

  datatype Writer =
    | Writing(content: Data, durability: Durability, inode: Inode, written: nat)
    | Ready(content: Data, durability: Durability, inode: Inode)            // may rename
    | Renamed(content: Data, durability: Durability, inode: Inode, at: nat) // at this place in history
    | Succeeded(content: Data, durability: Durability, inode: Inode, at: nat)
    | Failed(content: Data, durability: Durability, inode: Inode)

  /** `history` is every value the directory entry had, the last one current. A crash may bring back
      any value from `settled` on. Data of inodes outside `synced` may be lost. */
  datatype System = System(
    data: map<Inode, Data>,
    synced: set<Inode>,
    history: seq<Entry>,
    settled: nat,
    writers: map<nat, Writer>)

  datatype Action =
    | Create(w: nat, content: Data, durability: Durability, inode: Inode)
    | WriteSome(w: nat, count: nat)
    | SyncData(w: nat)
    | SkipSync(w: nat)
    | Rename(w: nat)
    | SyncDirectory(w: nat)
    | SkipDirectory(w: nat)
    | Fail(w: nat)
    | FlushData(inode: Inode)      // the kernel writes back on its own
    | FlushDirectory(to: nat)

  ghost predicate Initial(sys: System) {
    && |sys.history| == 1 && sys.settled == 0 && sys.writers == map[]
    && match sys.history[0]
       case Absent => true
       case File(inode, content, origin) =>
         origin.None? && inode in sys.synced && inode in sys.data && sys.data[inode] == content
  }

  predicate IsWriting(sys: System, w: nat) {
    w in sys.writers && sys.writers[w].Writing?
  }

  predicate Enabled(sys: System, action: Action) {
    match action
    case Create(w, _, _, inode) => w !in sys.writers && inode !in sys.data
    case WriteSome(w, count) =>
      IsWriting(sys, w) && 0 < count <= |sys.writers[w].content| - sys.writers[w].written
    case SyncData(w) =>
      && IsWriting(sys, w) && sys.writers[w].written == |sys.writers[w].content|
      && sys.writers[w].durability.Required?
    case SkipSync(w) =>
      && IsWriting(sys, w) && sys.writers[w].written == |sys.writers[w].content|
      && sys.writers[w].durability.BestEffort?
    case Rename(w) => w in sys.writers && sys.writers[w].Ready?
    case SyncDirectory(w) => w in sys.writers && sys.writers[w].Renamed? && sys.writers[w].durability.Required?
    case SkipDirectory(w) => w in sys.writers && sys.writers[w].Renamed? && sys.writers[w].durability.BestEffort?
    case Fail(w) => w in sys.writers && !sys.writers[w].Succeeded? && !sys.writers[w].Failed?
    case FlushData(inode) => inode in sys.data
    case FlushDirectory(to) => sys.settled <= to < |sys.history|
  }

  function WithWriter(sys: System, w: nat, writer: Writer): System {
    sys.(writers := sys.writers[w := writer])
  }

  function Apply(sys: System, action: Action): System
    requires Enabled(sys, action)
  {
    match action
    case Create(w, content, durability, inode) =>
      WithWriter(sys, w, Writing(content, durability, inode, 0))
        .(data := sys.data[inode := []], synced := sys.synced - {inode})
    case WriteSome(w, count) =>
      var writer := sys.writers[w];
      WithWriter(sys, w, writer.(written := writer.written + count))
        .(data := sys.data[writer.inode := writer.content[..writer.written + count]],
          synced := sys.synced - {writer.inode})
    case SyncData(w) =>
      var writer := sys.writers[w];
      WithWriter(sys, w, Ready(writer.content, writer.durability, writer.inode))
        .(synced := sys.synced + {writer.inode})
    case SkipSync(w) =>
      var writer := sys.writers[w];
      WithWriter(sys, w, Ready(writer.content, writer.durability, writer.inode))
    case Rename(w) =>
      var writer := sys.writers[w];
      WithWriter(sys, w, Renamed(writer.content, writer.durability, writer.inode, |sys.history|))
        .(history := sys.history + [File(writer.inode, writer.content, Some(w))])
    case SyncDirectory(w) =>
      var writer := sys.writers[w];
      WithWriter(sys, w, Succeeded(writer.content, writer.durability, writer.inode, writer.at))
        .(settled := if |sys.history| == 0 then 0 else |sys.history| - 1)
    case SkipDirectory(w) =>
      var writer := sys.writers[w];
      WithWriter(sys, w, Succeeded(writer.content, writer.durability, writer.inode, writer.at))
    case Fail(w) =>
      var writer := sys.writers[w];
      WithWriter(sys, w, Failed(writer.content, writer.durability, writer.inode))
    case FlushData(inode) => sys.(synced := sys.synced + {inode})
    case FlushDirectory(to) => sys.(settled := to)
  }

  ghost predicate RunsTo(sys: System, run: seq<Action>, sys': System)
    decreases |run|
  {
    if run == [] then sys == sys'
    else Enabled(sys, run[0]) && RunsTo(Apply(sys, run[0]), run[1..], sys')
  }

  ghost predicate Reachable(sys: System) {
    exists start, run :: Initial(start) && RunsTo(start, run, sys)
  }

  /** What a reader opening the path now reads. */
  function Visible(sys: System): Option<Data>
    requires sys.history != []
  {
    match sys.history[|sys.history| - 1]
    case Absent => None
    case File(inode, _, _) => if inode in sys.data then Some(sys.data[inode]) else Some([])
  }

  /** What the path may hold after a crash now: any entry that may survive, with data that is exact if
      it was synced and anything at all otherwise. */
  ghost predicate SurvivesCrash(sys: System, found: Option<Data>) {
    exists j | sys.settled <= j < |sys.history| :: FoundAt(sys, j, found)
  }

  predicate FoundAt(sys: System, j: nat, found: Option<Data>)
    requires j < |sys.history|
  {
    match sys.history[j]
    case Absent => found.None?
    case File(inode, _, _) =>
      found.Some? && (inode in sys.synced ==> inode in sys.data && found.value == sys.data[inode])
  }

  /** The complete content an entry stands for. */
  function Complete(entry: Entry): Option<Data> {
    match entry
    case Absent => None
    case File(_, content, _) => Some(content)
  }

  // ---------------------------------------------------------------- invariant

  ghost predicate EntryInv(sys: System, j: nat)
    requires j < |sys.history|
  {
    match sys.history[j]
    case Absent => j == 0
    case File(inode, content, origin) =>
      && inode in sys.data && sys.data[inode] == content
      && (j == 0 <==> origin.None?)
      && (origin.None? ==> inode in sys.synced)
      && (origin.Some? ==>
            && origin.value in sys.writers
            && sys.writers[origin.value].content == content && sys.writers[origin.value].inode == inode
            && !sys.writers[origin.value].Writing? && !sys.writers[origin.value].Ready?
            && (sys.writers[origin.value].durability.Required? ==> inode in sys.synced))
  }

  ghost predicate WriterInv(sys: System, w: nat)
    requires w in sys.writers
  {
    var writer := sys.writers[w];
    && writer.inode in sys.data
    && (writer.Writing? ==>
          writer.written <= |writer.content| && sys.data[writer.inode] == writer.content[..writer.written])
    && (writer.Ready? || writer.Renamed? || writer.Succeeded? ==>
          && sys.data[writer.inode] == writer.content
          && (writer.durability.Required? ==> writer.inode in sys.synced))
    && (writer.Renamed? || writer.Succeeded? ==>
          writer.at < |sys.history| && sys.history[writer.at] == File(writer.inode, writer.content, Some(w)))
    && (writer.Succeeded? && writer.durability.Required? ==> writer.at <= sys.settled)
  }

  ghost predicate Inv(sys: System) {
    && sys.history != [] && sys.settled < |sys.history|
    && (forall j | 0 <= j < |sys.history| :: EntryInv(sys, j))
    && (forall w | w in sys.writers :: WriterInv(sys, w))
    && (forall v, w | v in sys.writers && w in sys.writers && v != w :: sys.writers[v].inode != sys.writers[w].inode)
    && (forall w | w in sys.writers :: sys.history[0].File? ==> sys.history[0].inode != sys.writers[w].inode)
  }

  lemma EntryPreserved(sys: System, action: Action, j: nat)
    requires Inv(sys) && Enabled(sys, action) && j < |Apply(sys, action).history|
    ensures EntryInv(Apply(sys, action), j)
  {
    if j < |sys.history| { assert EntryInv(sys, j); }
    if !action.FlushData? && !action.FlushDirectory? && action.w in sys.writers { assert WriterInv(sys, action.w); }
  }

  lemma WriterPreserved(sys: System, action: Action, w: nat)
    requires Inv(sys) && Enabled(sys, action) && w in Apply(sys, action).writers
    ensures WriterInv(Apply(sys, action), w)
  {
    if w in sys.writers { assert WriterInv(sys, w); }
  }

  lemma StepPreservesInv(sys: System, action: Action)
    requires Inv(sys) && Enabled(sys, action)
    ensures Inv(Apply(sys, action))
  {
    var sys' := Apply(sys, action);
    forall j | 0 <= j < |sys'.history| { EntryPreserved(sys, action, j); }
    forall w | w in sys'.writers { WriterPreserved(sys, action, w); }
    InodesStayApart(sys, action);
  }

  lemma InodesStayApart(sys: System, action: Action)
    requires Inv(sys) && Enabled(sys, action)
    ensures var sys' := Apply(sys, action);
      && sys'.history != [] && sys'.settled < |sys'.history|
      && (forall v, w | v in sys'.writers && w in sys'.writers && v != w ::
            sys'.writers[v].inode != sys'.writers[w].inode)
      && (forall w | w in sys'.writers :: sys'.history[0].File? ==> sys'.history[0].inode != sys'.writers[w].inode)
  {
    assert EntryInv(sys, 0);
    assert forall w | w in sys.writers :: WriterInv(sys, w);
  }

  lemma {:induction false} RunPreservesInv(sys: System, run: seq<Action>, sys': System)
    requires Inv(sys) && RunsTo(sys, run, sys')
    ensures Inv(sys') && sys'.history[0] == sys.history[0]
    decreases |run|
  {
    if run != [] {
      StepPreservesInv(sys, run[0]);
      RunPreservesInv(Apply(sys, run[0]), run[1..], sys');
    }
  }

  lemma ReachableInv(sys: System)
    requires Reachable(sys)
    ensures Inv(sys)
  {
    var start, run :| Initial(start) && RunsTo(start, run, sys);
    RunPreservesInv(start, run, sys);
  }

  // -------------------------------------------------------------------- theorems

  /** In either durability mode a reader sees the complete content of the last rename, or the
      original: never part of a file. */
  lemma ReadersSeeWholeFiles(sys: System)
    requires Reachable(sys)
    ensures sys.history != [] && Visible(sys) == Complete(sys.history[|sys.history| - 1])
    ensures forall j | 1 <= j < |sys.history| ::
      && sys.history[j].File? && sys.history[j].writer.Some? && sys.history[j].writer.value in sys.writers
      && sys.history[j].content == sys.writers[sys.history[j].writer.value].content
  {
    ReachableInv(sys);
    assert EntryInv(sys, |sys.history| - 1);
    forall j | 1 <= j < |sys.history|
      ensures && sys.history[j].File? && sys.history[j].writer.Some? && sys.history[j].writer.value in sys.writers
              && sys.history[j].content == sys.writers[sys.history[j].writer.value].content
    {
      assert EntryInv(sys, j);
    }
  }

  lemma {:induction false} HistoryGrows(sys: System, run: seq<Action>, sys': System)
    requires RunsTo(sys, run, sys')
    ensures sys.history <= sys'.history
    decreases |run|
  {
    if run != [] { HistoryGrows(Apply(sys, run[0]), run[1..], sys'); }
  }

  /** A reader that opened the path at some time reads that file's complete content at every later
      instant, in as many pieces as it likes: no rename and no other writer changes an opened file. */
  lemma OpenedFileStaysWhole(sys: System, run: seq<Action>, sys': System)
    requires Reachable(sys) && RunsTo(sys, run, sys')
    ensures sys.history != []
    ensures var entry := sys.history[|sys.history| - 1];
            entry.File? ==> entry.inode in sys'.data && sys'.data[entry.inode] == entry.content
  {
    ReachableInv(sys);
    RunPreservesInv(sys, run, sys');
    HistoryGrows(sys, run, sys');
    assert EntryInv(sys', |sys.history| - 1);
  }

  predicate AllRequired(sys: System) {
    forall w | w in sys.writers :: sys.writers[w].durability.Required?
  }

  /** With durable writes, a crash at any point leaves the path with the complete content of an entry
      that was not yet superseded on disk: the old content, a new one, or no file if there was none. */
  lemma CrashLeavesWholeFile(sys: System, found: Option<Data>)
    requires Reachable(sys) && AllRequired(sys) && SurvivesCrash(sys, found)
    ensures exists j | sys.settled <= j < |sys.history| :: found == Complete(sys.history[j])
  {
    ReachableInv(sys);
    var j :| sys.settled <= j < |sys.history| && FoundAt(sys, j, found);
    assert EntryInv(sys, j);
    assert found == Complete(sys.history[j]);
  }

  /** After a durable write returned Ok, a crash cannot bring back anything older than it. */
  lemma SuccessIsDurable(sys: System, w: nat, found: Option<Data>)
    requires Reachable(sys) && AllRequired(sys) && w in sys.writers && sys.writers[w].Succeeded?
    requires SurvivesCrash(sys, found)
    ensures exists j | sys.writers[w].at <= j < |sys.history| :: found == Complete(sys.history[j])
    ensures sys.history[sys.writers[w].at] == File(sys.writers[w].inode, sys.writers[w].content, Some(w))
  {
    ReachableInv(sys);
    assert WriterInv(sys, w);
    CrashLeavesWholeFile(sys, found);
  }

  /** For a single durable write: old or new at every point, and new once it returned Ok. */
  lemma SingleWriteIsAtomic(sys: System, w: nat, found: Option<Data>)
    requires Reachable(sys) && AllRequired(sys) && sys.writers.Keys == {w}
    requires SurvivesCrash(sys, found)
    ensures found == Complete(sys.history[0]) || found == Some(sys.writers[w].content)
    ensures sys.writers[w].Succeeded? ==> found == Some(sys.writers[w].content)
  {
    ReachableInv(sys);
    CrashLeavesWholeFile(sys, found);
    var j :| sys.settled <= j < |sys.history| && found == Complete(sys.history[j]);
    assert EntryInv(sys, j);
    assert WriterInv(sys, w);
    if j > 0 { assert sys.history[j].writer.value in sys.writers.Keys; }
  }

  /** Exactly the entries whose data was synced survive a crash whole: an unsynced one may come back
      holding anything. */
  lemma WholeIffSynced(sys: System, j: nat)
    requires Reachable(sys) && j < |sys.history|
    ensures (forall found :: FoundAt(sys, j, found) ==> found == Complete(sys.history[j])) <==>
            (sys.history[j].File? ==> sys.history[j].inode in sys.synced)
  {
    ReachableInv(sys);
    assert EntryInv(sys, j);
    if sys.history[j].File? && sys.history[j].inode !in sys.synced {
      var other := Some(sys.history[j].content + [0]);
      assert FoundAt(sys, j, other) && other != Complete(sys.history[j]);
    }
  }

  lemma {:induction false} RunExtend(sys: System, run: seq<Action>, mid: System, action: Action)
    requires RunsTo(sys, run, mid) && Enabled(mid, action)
    ensures RunsTo(sys, run + [action], Apply(mid, action))
    decreases |run|
  {
    if run != [] {
      RunExtend(Apply(sys, run[0]), run[1..], mid, action);
      assert (run + [action])[1..] == run[1..] + [action];
    }
  }

  lemma Step(sys: System, action: Action) returns (sys': System)
    requires Reachable(sys) && Enabled(sys, action)
    ensures sys' == Apply(sys, action) && Reachable(sys')
  {
    var start, run :| Initial(start) && RunsTo(start, run, sys);
    RunExtend(start, run, sys, action);
    sys' := Apply(sys, action);
  }

  lemma BestEffortWritten(content: Data) returns (sys: System)
    ensures Reachable(sys)
    ensures sys == System(map[0 := content], {}, [Absent], 0, map[0 := Writing(content, BestEffort, 0, |content|)])
  {
    var start := System(map[], {}, [Absent], 0, map[]);
    assert Initial(start) && RunsTo(start, [], start);
    sys := Step(start, Create(0, content, BestEffort, 0));
    assert sys == System(map[0 := []], {}, [Absent], 0, map[0 := Writing(content, BestEffort, 0, 0)]);
    if content != [] {
      sys := Step(sys, WriteSome(0, |content|));
      assert content[..|content|] == content;
      assert sys.writers == map[0 := Writing(content, BestEffort, 0, |content|)];
    }
  }

  lemma BestEffortRenamed(content: Data) returns (sys: System)
    ensures Reachable(sys) && sys.synced == {} && sys.settled == 0
    ensures sys.history == [Absent, File(0, content, Some(0))]
    ensures sys.writers == map[0 := Renamed(content, BestEffort, 0, 1)]
  {
    var written := BestEffortWritten(content);
    var ready := Step(written, SkipSync(0));
    sys := Step(ready, Rename(0));
  }

  /** A best-effort write that returned Ok may come back from a crash holding anything, not just the
      previous content: its rename can survive without its data. */
  lemma BestEffortMayTear(content: Data, garbage: Data) returns (sys: System)
    ensures Reachable(sys) && sys.writers.Keys == {0}
    ensures |sys.history| == 2 && sys.history[0].Absent? && sys.history[1] == File(0, content, Some(0))
    ensures sys.writers[0].Succeeded? && sys.writers[0].content == content && sys.writers[0].durability.BestEffort?
    ensures FoundAt(sys, 1, Some(garbage)) && SurvivesCrash(sys, Some(garbage))
  {
    var renamed := BestEffortRenamed(content);
    sys := Step(renamed, SkipDirectory(0));
    assert FoundAt(sys, 1, Some(garbage));
  }

  /** The entry was made by a write of this content and durability. */
  predicate MadeBy(sys: System, j: nat, content: Data, durability: Durability) {
    && j < |sys.history| && sys.history[j].File? && sys.history[j].writer.Some?
    && sys.history[j].writer.value in sys.writers
    && sys.writers[sys.history[j].writer.value].content == content
    && sys.writers[sys.history[j].writer.value].durability == durability
  }

  lemma RequiredIsWhole(sys: System, j: nat, content: Data, found: Option<Data>)
    requires Reachable(sys) && MadeBy(sys, j, content, Required) && FoundAt(sys, j, found)
    ensures found == Some(content)
  {
    ReachableInv(sys);
    assert EntryInv(sys, j);
  }

  /** What a caller can know before writing: whatever other writers and the disk do, the entry comes back
      from every crash whole exactly if the write is made durable. */
  lemma WholeIffRequired(content: Data, durability: Durability)
    ensures (forall sys, j, found | Reachable(sys) && MadeBy(sys, j, content, durability) && FoundAt(sys, j, found) ::
               found == Some(content))
            <==> durability.Required?
  {
    if durability.Required? {
      forall sys, j, found | Reachable(sys) && MadeBy(sys, j, content, durability) && FoundAt(sys, j, found)
        ensures found == Some(content)
      {
        RequiredIsWhole(sys, j, content, found);
      }
    } else {
      var garbage := content + [0];
      var sys := BestEffortMayTear(content, garbage);
      assert MadeBy(sys, 1, content, durability) && FoundAt(sys, 1, Some(garbage));
    }
  }

  // --------------------------------------------------------------------- as code

  /** The disk, written by one writer while others and the kernel act between its calls. */
  class Disk {
    var sys: System

    method Preempt(w: nat)
      requires Reachable(sys)
      modifies this
      ensures Reachable(sys) && WriterOf(sys, w) == old(WriterOf(sys, w))
    {
    }

    method Do(action: Action)
      requires Reachable(sys) && Enabled(sys, action)
      modifies this
      ensures Reachable(sys) && sys == Apply(old(sys), action)
    {
      ghost var start, run :| Initial(start) && RunsTo(start, run, sys);
      RunExtend(start, run, sys, action);
      sys := Apply(sys, action);
    }

    /** `write_all`: as many partial writes as it takes. */
    method WriteAll(w: nat)
      requires Reachable(sys) && IsWriting(sys, w)
      modifies this
      ensures Reachable(sys) && WriterOf(sys, w).Some?
      ensures var before, after := old(WriterOf(sys, w)).value, WriterOf(sys, w).value;
              after == before.(written := |before.content|)
    {
      ReachableInv(sys);
      assert WriterInv(sys, w);
      ghost var before := sys.writers[w];
      while sys.writers[w].written < |sys.writers[w].content|
        invariant Reachable(sys) && IsWriting(sys, w)
        invariant sys.writers[w] == before.(written := sys.writers[w].written)
        invariant sys.writers[w].written <= |before.content|
        decreases |before.content| - sys.writers[w].written
      {
        Preempt(w);
        var count :| 0 < count <= |sys.writers[w].content| - sys.writers[w].written;
        Do(WriteSome(w, count));
      }
    }

    /** `write_file_atomic_with`; any call may fail. On success the path was given the new content
        in one step, and a durable write can no longer be undone by a crash. */
    method WriteFileAtomic(w: nat, content: Data, durability: Durability, inode: Inode) returns (ok: bool)
      requires Reachable(sys) && w !in sys.writers && inode !in sys.data
      modifies this
      ensures Reachable(sys) && WriterOf(sys, w).Some? && WriterOf(sys, w).value.content == content
      ensures ok ==>
        && WriterOf(sys, w).value.Succeeded?
        && var at := WriterOf(sys, w).value.at;
        && at < |sys.history| && Complete(sys.history[at]) == Some(content)
        && (durability.Required? ==> at <= sys.settled)
      ensures !ok ==> WriterOf(sys, w).value.Failed?
    {
      Do(Create(w, content, durability, inode));
      WriteAll(w);
      Preempt(w);
      ok := *;
      if ok { Do(if durability.Required? then SyncData(w) else SkipSync(w)); } else { Do(Fail(w)); return; }
      Preempt(w);
      ok := RenameAndSync(w);
    }

    /** The rename, and for a durable write the sync of the directory after it. */
    method RenameAndSync(w: nat) returns (ok: bool)
      requires Reachable(sys) && w in sys.writers && sys.writers[w].Ready?
      modifies this
      ensures Reachable(sys) && WriterOf(sys, w).Some?
      ensures WriterOf(sys, w).value.content == old(sys.writers[w].content)
      ensures ok ==>
        && WriterOf(sys, w).value.Succeeded?
        && var at := WriterOf(sys, w).value.at;
        && at < |sys.history| && Complete(sys.history[at]) == Some(old(sys.writers[w].content))
        && (old(sys.writers[w].durability).Required? ==> at <= sys.settled)
      ensures !ok ==> WriterOf(sys, w).value.Failed?
    {
      var durability := sys.writers[w].durability;
      ok := *;
      if ok { Do(Rename(w)); } else { Do(Fail(w)); return; }
      Preempt(w);
      ok := *;
      if ok { Do(if durability.Required? then SyncDirectory(w) else SkipDirectory(w)); } else { Do(Fail(w)); return; }
      ReachableInv(sys);
      assert WriterInv(sys, w);
    }
  }

  function WriterOf(sys: System, w: nat): Option<Writer> {
    if w in sys.writers then Some(sys.writers[w]) else None
  }
}
