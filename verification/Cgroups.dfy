/** Removing the empty cgroups that no workspace accounts for. Paths are relative to the cgroup root. */
module Cgroups {

  type Path = seq<string>

  const SANDBOX_PREFIX := "enclave-sb-"
  const WORKSPACE_PREFIX := "enclave-ws-"

  /** The paths the registry answers for: `tracked` are workspaces with a runtime. */
  datatype Ownership = Ownership(sandboxes: set<Path>, tracked: set<Path>)

  predicate IsSandboxName(name: string) {
    SANDBOX_PREFIX <= name
  }

  predicate IsWorkspaceName(name: string) {
    WORKSPACE_PREFIX <= name
  }

  /** Every directory's parent is a directory. */
  predicate Closed(dirs: set<Path>) {
    forall p | p in dirs :: p != [] && (|p| > 1 ==> p[..|p| - 1] in dirs)
  }

  function Children(dirs: set<Path>, parent: Path): set<Path> {
    set p | p in dirs && |p| == |parent| + 1 && parent <= p
  }

  function Below(dirs: set<Path>, parent: Path): set<Path> {
    set p | p in dirs && parent < p
  }

  /** The walk goes into this directory: a sandbox at the root, then sandboxes and workspaces. */
  predicate IsWalked(p: Path) {
    && p != [] && IsSandboxName(p[0])
    && forall i | 1 <= i < |p| :: IsSandboxName(p[i]) || IsWorkspaceName(p[i])
  }

  /** The walk looks at this directory as a workspace cgroup. */
  predicate IsInspected(p: Path) {
    && p != [] && IsWorkspaceName(p[|p| - 1])
    && (|p| == 1 || IsWalked(p[..|p| - 1]))
  }

  /** No process and no child. */
  predicate IsEmptyLeaf(dirs: set<Path>, busy: set<Path>, p: Path) {
    p !in busy && Children(dirs, p) == {}
  }

  predicate IsOwned(ownership: Ownership, p: Path) {
    exists s | s in ownership.sandboxes :: s <= p
  }

  /** The path is a tracked one, or above or below one. */
  predicate IsTracked(ownership: Ownership, p: Path) {
    exists t | t in ownership.tracked :: t <= p || p <= t
  }

  predicate IsStale(dirs: set<Path>, busy: set<Path>, p: Path) {
    p in dirs && IsInspected(p) && IsEmptyLeaf(dirs, busy, p)
  }

  predicate IsCandidate(dirs: set<Path>, busy: set<Path>, ownership: Ownership, p: Path) {
    IsStale(dirs, busy, p) && IsOwned(ownership, p) && !IsTracked(ownership, p)
  }

  /** What should go: owned, unrelated to any tracked path, and with nothing in its whole subtree but
      inspected workspace cgroups that have no process and do not refuse removal. */
  predicate IsRemovable(dirs: set<Path>, busy: set<Path>, refusing: set<Path>, ownership: Ownership, p: Path) {
    && p in dirs && IsOwned(ownership, p) && !IsTracked(ownership, p)
    && forall q | q in dirs && p <= q :: IsInspected(q) && q !in busy && q !in refusing
  }

  function Removable(dirs: set<Path>, busy: set<Path>, refusing: set<Path>, ownership: Ownership): set<Path> {
    set p | p in dirs && IsRemovable(dirs, busy, refusing, ownership, p)
  }

  /** Something at or below the path is busy, refuses removal or is no workspace cgroup. */
  predicate IsBlocked(dirs: set<Path>, busy: set<Path>, refusing: set<Path>, p: Path) {
    exists q | q in dirs && p <= q :: !IsInspected(q) || q in busy || q in refusing
  }

  // ------------------------------------------------------------------------ the walk

  predicate NoDuplicates(s: seq<Path>) {
    forall i, j | 0 <= i < j < |s| :: s[i] != s[j]
  }

  lemma AppendNew(s: seq<Path>, p: Path)
    requires NoDuplicates(s) && p !in s
    ensures NoDuplicates(s + [p])
  {
  }

  lemma PrefixesExclusive(name: string)
    ensures !(IsSandboxName(name) && IsWorkspaceName(name))
  {
    assert SANDBOX_PREFIX[8] != WORKSPACE_PREFIX[8];
  }

  lemma WalkedChild(parent: Path, child: Path)
    requires IsWalked(parent) && parent < child && |child| == |parent| + 1
    ensures IsInspected(child) <==> IsWorkspaceName(child[|parent|])
    ensures IsWalked(child) <==> IsWorkspaceName(child[|parent|]) || IsSandboxName(child[|parent|])
  {
    assert child[..|parent|] == parent;
  }

  lemma {:induction false} AncestorIn(dirs: set<Path>, p: Path, n: nat)
    requires Closed(dirs) && p in dirs && 0 < n <= |p|
    ensures p[..n] in dirs
    decreases |p|
  {
    if n < |p| {
      AncestorIn(dirs, p[..|p| - 1], n);
      assert p[..|p| - 1][..n] == p[..n];
    } else {
      assert p[..n] == p;
    }
  }

  lemma ChildTowards(dirs: set<Path>, p: Path, q: Path)
    requires Closed(dirs) && q in dirs && p < q
    ensures q[..|p| + 1] in Children(dirs, p)
  {
    AncestorIn(dirs, q, |p| + 1);
  }

  lemma PrefixCases(path: Path, p: Path)
    ensures path <= p <==> p == path || path < p
    ensures path <= p ==> p[..|path|] == path
  {
    if path <= p && |path| == |p| { assert p == path; }
    if path <= p { assert p[..|path|] == path; }
  }

  /** The list gains exactly the stale directories at or below `top`, each once. */
  ghost predicate Gains(dirs: set<Path>, busy: set<Path>, top: Path, found: seq<Path>, all: seq<Path>) {
    && NoDuplicates(all)
    && forall p :: p in all <==> p in found || (IsStale(dirs, busy, p) && top <= p)
  }

  /** One entry of a directory the walk goes through. */
  method CollectEntry(dirs: set<Path>, busy: set<Path>, path: Path, found: seq<Path>) returns (all: seq<Path>)
    requires Closed(dirs) && path in dirs && |path| > 1 && IsWalked(path[..|path| - 1])
    requires NoDuplicates(found) && forall p | p in found :: !(path <= p)
    ensures Gains(dirs, busy, path, found, all)
    decreases Below(dirs, path) + {path}, 0
  {
    var name := path[|path| - 1];
    PrefixesExclusive(name);
    WalkedChild(path[..|path| - 1], path);
    all := found;
    if IsWorkspaceName(name) && IsEmptyLeaf(dirs, busy, path) {
      AppendNew(all, path);
      all := all + [path];
    }
    if IsWorkspaceName(name) || IsSandboxName(name) {
      assert Below(dirs, path) < Below(dirs, path) + {path} by { assert path !in Below(dirs, path); }
      all := Collect(dirs, busy, path, all);
    }
    forall p ensures p in all <==> p in found || (IsStale(dirs, busy, p) && path <= p) {
      PrefixCases(path, p);
      if IsStale(dirs, busy, p) && path < p { WalkedAbove(path, p); }
    }
  }

  lemma WalkedAbove(path: Path, p: Path)
    requires IsInspected(p) && path != [] && path < p
    ensures IsWalked(path)
  {
    assert forall i | 0 <= i < |path| :: path[i] == p[..|p| - 1][i];
  }

  /** The entries of `parent` in `done` have been gone through. */
  ghost predicate Gathered(
    dirs: set<Path>, busy: set<Path>, parent: Path, found: seq<Path>, done: set<Path>, all: seq<Path>) {
    && NoDuplicates(all)
    && forall p :: p in all <==>
         p in found || (IsStale(dirs, busy, p) && parent < p && p[..|parent| + 1] in done)
  }

  lemma NotYetThere(
    dirs: set<Path>, busy: set<Path>, parent: Path, found: seq<Path>, done: set<Path>, all: seq<Path>, path: Path)
    requires Gathered(dirs, busy, parent, found, done, all)
    requires path in Children(dirs, parent) && path !in done && forall p | p in found :: !(parent < p)
    ensures forall p | p in all :: !(path <= p)
  {
    forall p | p in all ensures !(path <= p) { PrefixCases(path, p); }
  }

  lemma GatherStep(
    dirs: set<Path>, busy: set<Path>, parent: Path, found: seq<Path>, done: set<Path>, all: seq<Path>, path: Path,
    all': seq<Path>)
    requires Gathered(dirs, busy, parent, found, done, all) && Gains(dirs, busy, path, all, all')
    requires path in Children(dirs, parent)
    ensures Gathered(dirs, busy, parent, found, done + {path}, all')
  {
    forall p ensures p in all' <==>
      p in found || (IsStale(dirs, busy, p) && parent < p && p[..|parent| + 1] in done + {path})
    {
      PrefixCases(path, p);
    }
  }

  /** `collect_workspace_cgroups`: appends the stale cgroups below a directory, each once. */
  method Collect(dirs: set<Path>, busy: set<Path>, parent: Path, found: seq<Path>) returns (all: seq<Path>)
    requires Closed(dirs) && IsWalked(parent)
    requires NoDuplicates(found) && forall p | p in found :: !(parent < p)
    ensures NoDuplicates(all)
    ensures forall p :: p in all <==> p in found || (IsStale(dirs, busy, p) && parent < p)
    decreases Below(dirs, parent), 1
  {
    all := found;
    var entries := Children(dirs, parent);
    ghost var done: set<Path> := {};
    while entries != {}
      invariant done + entries == Children(dirs, parent) && done !! entries
      invariant Gathered(dirs, busy, parent, found, done, all)
    {
      var path :| path in entries;
      entries := entries - {path};
      assert path[..|path| - 1] == parent;
      assert Below(dirs, path) + {path} <= Below(dirs, parent);
      NotYetThere(dirs, busy, parent, found, done, all, path);
      ghost var earlier := all;
      all := CollectEntry(dirs, busy, path, all);
      GatherStep(dirs, busy, parent, found, done, earlier, path, all);
      done := done + {path};
    }
    forall p | IsStale(dirs, busy, p) && parent < p ensures p in all { ChildTowards(dirs, parent, p); }
  }

  /** `empty_workspace_cgroups`: every stale workspace cgroup, each once. */
  method EmptyWorkspaceCgroups(dirs: set<Path>, busy: set<Path>) returns (all: seq<Path>)
    requires Closed(dirs)
    ensures NoDuplicates(all)
    ensures forall p :: p in all <==> IsStale(dirs, busy, p)
  {
    all := [];
    var entries := Children(dirs, []);
    ghost var done: set<Path> := {};
    while entries != {}
      invariant done + entries == Children(dirs, []) && done !! entries
      invariant Gathered(dirs, busy, [], [], done, all)
    {
      var path :| path in entries;
      entries := entries - {path};
      NotYetThere(dirs, busy, [], [], done, all, path);
      ghost var earlier := all;
      all := RootEntry(dirs, busy, path, all);
      GatherStep(dirs, busy, [], [], done, earlier, path, all);
      done := done + {path};
    }
    forall p | IsStale(dirs, busy, p) ensures p in all { ChildTowards(dirs, [], p); }
  }

  /** One entry of the cgroup root: a workspace here is looked at but not walked. */
  method RootEntry(dirs: set<Path>, busy: set<Path>, path: Path, found: seq<Path>) returns (all: seq<Path>)
    requires Closed(dirs) && path in dirs && |path| == 1
    requires NoDuplicates(found) && forall p | p in found :: !(path <= p)
    ensures Gains(dirs, busy, path, found, all)
  {
    PrefixesExclusive(path[0]);
    all := found;
    if IsWorkspaceName(path[0]) {
      if IsEmptyLeaf(dirs, busy, path) {
        AppendNew(all, path);
        all := all + [path];
      }
    } else if IsSandboxName(path[0]) {
      all := Collect(dirs, busy, path, all);
    }
    forall p ensures p in all <==> p in found || (IsStale(dirs, busy, p) && path <= p) {
      PrefixCases(path, p);
      if IsStale(dirs, busy, p) && path < p { WalkedAbove(path, p); }
    }
  }

  // --------------------------------------------------------------------- the removal

  lemma {:induction false} Deepest(paths: set<Path>) returns (deepest: Path)
    requires paths != {}
    ensures deepest in paths && forall p | p in paths :: |p| <= |deepest|
  {
    var p :| p in paths;
    if paths == {p} {
      deepest := p;
    } else {
      assert paths - {p} != {};
      var rest := Deepest(paths - {p});
      deepest := if |rest| < |p| then p else rest;
      assert forall q | q in paths :: q == p || q in paths - {p};
    }
  }

  lemma RelatedPassesUp(t: Path, p: Path, q: Path)
    requires p <= q
    ensures t <= q || q <= t ==> t <= p || p <= t
  {
  }

  lemma LeafIsAlone(dirs: set<Path>, p: Path)
    requires Closed(dirs) && Children(dirs, p) == {}
    ensures forall q | q in dirs && p <= q :: q == p
  {
    forall q | q in dirs && p <= q ensures q == p {
      if p < q { ChildTowards(dirs, p, q); }
    }
  }

  /** Being removable passes down to everything below. */
  lemma RemovablePassesDown(
    dirs: set<Path>, busy: set<Path>, refusing: set<Path>, ownership: Ownership, p: Path, q: Path)
    requires IsRemovable(dirs, busy, refusing, ownership, p) && q in dirs && p <= q
    ensures IsRemovable(dirs, busy, refusing, ownership, q)
  {
    forall t | t in ownership.tracked { RelatedPassesUp(t, p, q); }
    var s :| s in ownership.sandboxes && s <= p;
    assert s <= q;
  }

  /** Every removal so far was of a removable directory. */
  ghost predicate SoundSoFar(
    before: set<Path>, dirs: set<Path>, busy: set<Path>, refusing: set<Path>, ownership: Ownership) {
    && dirs <= before && Closed(dirs)
    && forall p | p in before && p !in dirs :: IsRemovable(before, busy, refusing, ownership, p)
  }

  /** A candidate that does not refuse is removable in the tree as it was at the start. */
  lemma CandidateIsRemovable(
    before: set<Path>, dirs: set<Path>, busy: set<Path>, refusing: set<Path>, ownership: Ownership, p: Path)
    requires Closed(before) && SoundSoFar(before, dirs, busy, refusing, ownership)
    requires IsCandidate(dirs, busy, ownership, p) && p !in refusing
    ensures IsRemovable(before, busy, refusing, ownership, p)
    ensures SoundSoFar(before, dirs - {p}, busy, refusing, ownership)
  {
    LeafIsAlone(dirs, p);
    forall q | q in dirs - {p} && |q| > 1 ensures q[..|q| - 1] in dirs - {p} {
      assert q in Children(dirs, q[..|q| - 1]);
    }
  }

  /** While something removable is left, some candidate does not refuse: the deepest of it. */
  lemma RemovableLeavesCandidate(
    before: set<Path>, dirs: set<Path>, busy: set<Path>, refusing: set<Path>, ownership: Ownership, p: Path)
    returns (q: Path)
    requires SoundSoFar(before, dirs, busy, refusing, ownership)
    requires p in dirs && IsRemovable(before, busy, refusing, ownership, p)
    ensures IsCandidate(dirs, busy, ownership, q) && q !in refusing
  {
    var subtree := set r | r in dirs && p <= r;
    assert p in subtree;
    assert forall r | r in subtree :: Children(dirs, r) <= subtree;
    q := Deepest(subtree);
    RemovablePassesDown(before, busy, refusing, ownership, p, q);
    assert Children(dirs, q) <= subtree;
  }

  /** Halfway through a pass: what is still to come is there, what was refused is all that is left. */
  ghost predicate PassInv(dirs: set<Path>, refusing: set<Path>, candidates: seq<Path>, i: nat) {
    && (forall j | i <= j < |candidates| :: candidates[j] in dirs)
    && (forall j | 0 <= j < i && j < |candidates| :: candidates[j] in dirs ==> candidates[j] in refusing)
  }

  lemma PassAdvances(was: set<Path>, dirs: set<Path>, refusing: set<Path>, candidates: seq<Path>, i: nat)
    requires NoDuplicates(candidates) && i < |candidates| && PassInv(was, refusing, candidates, i)
    requires dirs == if candidates[i] in refusing then was else was - {candidates[i]}
    ensures PassInv(dirs, refusing, candidates, i + 1)
  {
  }

  lemma CandidatesExist(dirs: set<Path>, busy: set<Path>, ownership: Ownership, candidates: seq<Path>)
    requires forall p | p in candidates :: IsCandidate(dirs, busy, ownership, p)
    ensures forall j | 0 <= j < |candidates| :: candidates[j] in dirs
  {
    forall j | 0 <= j < |candidates| ensures candidates[j] in dirs {
      assert IsCandidate(dirs, busy, ownership, candidates[j]);
    }
  }

  /** The cgroup filesystem of a host on which nothing else changes. A directory in `refusing` answers
      every removal with "directory not empty". */
  class Host {
    var dirs: set<Path>
    const busy: set<Path>
    const refusing: set<Path>

    constructor (dirs: set<Path>, busy: set<Path>, refusing: set<Path>)
      ensures this.dirs == dirs && this.busy == busy && this.refusing == refusing
    {
      this.dirs, this.busy, this.refusing := dirs, busy, refusing;
    }

    method RemoveDir(path: Path) returns (ok: bool)
      modifies this
      ensures ok == old(path in dirs && IsEmptyLeaf(dirs, busy, path) && path !in refusing)
      ensures dirs == if ok then old(dirs) - {path} else old(dirs)
    {
      ok := path in dirs && IsEmptyLeaf(dirs, busy, path) && path !in refusing;
      if ok { dirs := dirs - {path}; }
    }

    /** One pass over a list of candidates, in any order; each that does not refuse goes. */
    method RemovePass(ownership: Ownership, candidates: seq<Path>, ghost before: set<Path>) returns (removed: nat)
      requires Closed(before) && SoundSoFar(before, dirs, busy, refusing, ownership)
      requires NoDuplicates(candidates)
      requires forall p | p in candidates :: IsCandidate(dirs, busy, ownership, p)
      modifies this
      ensures SoundSoFar(before, dirs, busy, refusing, ownership)
      ensures dirs <= old(dirs) && removed == |old(dirs) - dirs|
      ensures forall p | p in candidates :: p in dirs ==> p in refusing
    {
      removed := 0;
      ghost var start := dirs;
      CandidatesExist(start, busy, ownership, candidates);
      for i := 0 to |candidates|
        invariant SoundSoFar(before, dirs, busy, refusing, ownership)
        invariant dirs <= start && removed == |start - dirs|
        invariant PassInv(dirs, refusing, candidates, i)
      {
        var path := candidates[i];
        StillCandidate(start, dirs, busy, ownership, path);
        ghost var was := dirs;
        var ok := RemoveCandidate(ownership, path, start, before);
        PassAdvances(was, dirs, refusing, candidates, i);
        removed := if ok then removed + 1 else removed;
      }
    }

    method RemoveCandidate(ownership: Ownership, path: Path, ghost start: set<Path>, ghost before: set<Path>)
      returns (ok: bool)
      requires Closed(before) && SoundSoFar(before, dirs, busy, refusing, ownership) && dirs <= start
      requires IsCandidate(dirs, busy, ownership, path)
      modifies this
      ensures SoundSoFar(before, dirs, busy, refusing, ownership)
      ensures ok == (path !in refusing) && dirs == if ok then old(dirs) - {path} else old(dirs)
      ensures |start - dirs| == |start - old(dirs)| + if ok then 1 else 0
    {
      ok := RemoveDir(path);
      if ok {
        CandidateIsRemovable(before, old(dirs), busy, refusing, ownership, path);
        assert start - dirs == (start - old(dirs)) + {path};
      }
    }

    /** `remove_empty_workspace_cgroups`: passes until nothing more goes. What goes is exactly what
        was removable at the start. */
    method RemoveEmptyWorkspaceCgroups(ownership: Ownership) returns (removed: nat)
      requires Closed(dirs)
      modifies this
      ensures dirs == old(dirs) - Removable(old(dirs), busy, refusing, ownership)
      ensures removed == |Removable(old(dirs), busy, refusing, ownership)|
      ensures forall t, p | t in ownership.tracked && p in old(dirs) && (t <= p || p <= t) :: p in dirs
      ensures forall p | p in dirs && IsOwned(ownership, p) && !IsTracked(ownership, p) ::
        IsBlocked(dirs, busy, refusing, p)
    {
      removed := 0;
      ghost var before := dirs;
      assert before - dirs == {};
      while true
        invariant SoundSoFar(before, dirs, busy, refusing, ownership)
        invariant removed == |before - dirs|
        decreases dirs
      {
        var stale := EmptyWorkspaceCgroups(dirs, busy);
        var candidates := Filter(stale, ownership);
        if candidates == [] {
          NothingRemovableLeft(before, dirs, busy, refusing, ownership, candidates);
          break;
        }
        ghost var earlier := dirs;
        var removedThisPass := RemovePass(ownership, candidates, before);
        assert before - dirs == (before - earlier) + (earlier - dirs);
        removed := removed + removedThisPass;
        if removedThisPass == 0 {
          assert earlier - dirs == {} && dirs == earlier;
          NothingRemovableLeft(before, dirs, busy, refusing, ownership, candidates);
          break;
        }
        assert earlier - dirs != {};
      }
      WhatStays(before, dirs, busy, refusing, ownership);
    }

    method Filter(stale: seq<Path>, ownership: Ownership) returns (candidates: seq<Path>)
      requires NoDuplicates(stale) && forall p :: p in stale <==> IsStale(dirs, busy, p)
      ensures NoDuplicates(candidates)
      ensures forall p :: p in candidates <==> IsCandidate(dirs, busy, ownership, p)
    {
      candidates := [];
      for i := 0 to |stale|
        invariant NoDuplicates(candidates)
        invariant forall p :: p in candidates <==>
          p in stale[..i] && IsOwned(ownership, p) && !IsTracked(ownership, p)
      {
        assert stale[..i + 1] == stale[..i] + [stale[i]];
        if IsOwned(ownership, stale[i]) && !IsTracked(ownership, stale[i]) {
          candidates := candidates + [stale[i]];
        }
      }
      assert stale[..|stale|] == stale;
    }
  }

  lemma NothingRemovableLeft(
    before: set<Path>, dirs: set<Path>, busy: set<Path>, refusing: set<Path>, ownership: Ownership,
    candidates: seq<Path>)
    requires SoundSoFar(before, dirs, busy, refusing, ownership)
    requires forall p :: p in candidates <==> IsCandidate(dirs, busy, ownership, p)
    requires forall p | p in candidates :: p in refusing
    ensures before - dirs == Removable(before, busy, refusing, ownership)
    ensures dirs == before - Removable(before, busy, refusing, ownership)
  {
    forall p | p in dirs ensures !IsRemovable(before, busy, refusing, ownership, p) {
      if IsRemovable(before, busy, refusing, ownership, p) {
        var q := RemovableLeavesCandidate(before, dirs, busy, refusing, ownership, p);
      }
    }
  }

  /** What stays although it is owned and untracked has a reason below it, which stays too. */
  lemma KeptHasReason(dirs: set<Path>, busy: set<Path>, refusing: set<Path>, ownership: Ownership, p: Path)
    returns (q: Path)
    requires p in dirs && IsOwned(ownership, p) && !IsTracked(ownership, p)
    requires p !in Removable(dirs, busy, refusing, ownership)
    ensures q in dirs && p <= q && (!IsInspected(q) || q in busy || q in refusing)
    ensures q !in Removable(dirs, busy, refusing, ownership)
  {
    q :| q in dirs && p <= q && (!IsInspected(q) || q in busy || q in refusing);
  }

  lemma WhatStays(before: set<Path>, dirs: set<Path>, busy: set<Path>, refusing: set<Path>, ownership: Ownership)
    requires dirs == before - Removable(before, busy, refusing, ownership)
    ensures forall t, p | t in ownership.tracked && p in before && (t <= p || p <= t) :: p in dirs
    ensures forall p | p in dirs && IsOwned(ownership, p) && !IsTracked(ownership, p) ::
      IsBlocked(dirs, busy, refusing, p)
  {
    forall p | p in dirs && IsOwned(ownership, p) && !IsTracked(ownership, p)
      ensures IsBlocked(dirs, busy, refusing, p)
    {
      var q := KeptHasReason(before, busy, refusing, ownership, p);
      assert q in dirs;
    }
  }

  /** A candidate stays one while other directories go. */
  lemma StillCandidate(start: set<Path>, dirs: set<Path>, busy: set<Path>, ownership: Ownership, p: Path)
    requires IsCandidate(start, busy, ownership, p) && dirs <= start && p in dirs
    ensures IsCandidate(dirs, busy, ownership, p)
  {
    assert Children(dirs, p) <= Children(start, p);
  }
}
