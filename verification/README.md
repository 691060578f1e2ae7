# Enclave: a verified model of its protocols and algorithms

Enclave is a daemon that runs sandboxes and workspaces on one Linux host. This project models the parts of
it whose correctness depends on many steps working together, in Dafny, and proves what those parts are for.
`dafny verify dfyconfig.toml` checks everything.

What is modelled, by file:

- `Leases.dfy`: the three tiers of shared/exclusive gates behind lifecycle leases, as a state machine over any
  number of threads: accounting, exclusion, writer preference, deadlock freedom, and that every state drains.
- `StateLock.dfy`: the lock file that keeps one daemon per state directory, interleaved at every open, flock,
  stat, unlink, unlock and crash of any number of processes.
- `Registry.dfy`: reading and changing the registry through a fingerprinted per-process cache, with lock,
  load, migration, save, cache update, I/O failure and crash as separate steps of any number of threads.
- `CancelMarkers.dfy`: command markers, cancellation and reuse of helper processes, with process exit, reaping
  and reuse of process ids going on at the same time.
- `Scrub.dfy`: removing secrets from UTF-8 output.
- `Cgroups.dfy`: removing empty cgroups pass by pass until nothing more goes.
- `AtomicWrite.dfy`: replacing a file through a temporary file, by any number of writers, on a disk that may
  lose what was not synced.
- `Histogram.dfy`: bucketed latencies and the percentile read from them.
- `RateLimiter.dfy`: the fixed-window limiter, per user and overall, over every interleaving of its two locks.
- `WorkerPool.dfy`: the bounded pool of threads that maps a job over a list, over every schedule.
- `LogFollow.dfy`, `LossyText.dfy`: following a log by offset and stream identity while others write it, and
  turning each slice of it into text.
- `SetupKey.dfy`: the bytes the setup cache key is a digest of.
- `Addresses.dfy`, `Veth.dfy`: address allocation from a bitmap, dotted addresses and interface names.
- `Credentials.dfy`: credential names, slots, provider aliases, and resolving and merging credentials.
- `Decimal.dfy`, `Text.dfy`: decimal printing and parsing and the few string operations the others share.

Code that changes shared state is a class whose methods are the code's own loops; between two steps they call a
method (`Wait`, `Preempt`) whose contract lets everybody else take any number of steps. What the methods
establish rests on invariants of the step systems, which hold over every run.

## Where the code does less than its comments say

- `scrub_secrets` is documented to replace every occurrence of every secret (src/auth/scrub.rs:12-20). A secret
  can begin inside the redaction of another and end after it, and then its end may be copied.
  `NothingLeaksIff` says for exactly which sets of secrets no byte is ever copied;
  `AllCoveredIffOverlapClosed` says for which each occurrence lies inside a single redaction.
- `with_registry_mut` can return an error although it has replaced the file: when the directory cannot be synced
  after the rename (src/fsutil/mod.rs:178-185), or the lock cannot be released afterwards
  (src/fsutil/mod.rs:88-105). `OutcomeTellsTrace` says for every way a call can end whether it left a version
  behind, and `FailureAfterRenameCommits` gives a run. The messages of the error tell the caller, with one
  exception: a lock that cannot be released after `ensure_registry` has made sure of the file
  (src/registry/mod.rs:106-116) is reported in the same words as one that cannot be released after a commit.
  `ReportTellsCommit` says that this is the only one, `SameReportEitherWay` gives the two runs, and it cannot
  happen when the file exists before the call.
- A publish reports failure and leaves its marker behind when the directory sync fails after the rename, or when
  the write succeeds and the lock cannot be released (src/workspace/cancel.rs:77). The command then runs without
  a marker of its own, its helper goes back to the pool, and a later cancel signals the idle helper through the
  marker that was left. Markers of such publishes are the only exception.
- A cancel checks a helper's identity right before it signals the helper's group, in two steps
  (src/workspace/session/process/mod.rs:189-192). In between, a command whose finish cannot take the lock may have its
  helper killed and reaped, and its process id may go to a stranger, which the signal then reaches.
  `KillIsSafeIffHeld` says that this can happen exactly if the pool no longer has the helper, and
  `ReleasedHelperIsMissed` gives a run.
- Finishing answers false when a cancel has removed the marker, unless the lock cannot be released: then the answer
  is an error. The helper is discarded either way.
- A cancel ignores a marker it cannot remove (src/workspace/cancel.rs:346-350) and still answers Ok. The command
  then finds its marker and finishes as if it had not been cancelled.
- `BestEffort` writes are described as keeping the previous content when interrupted (src/fsutil/mod.rs:108-121).
  They skip the sync of the new file, so in a crash model where unsynced data may be lost the path can be
  left naming a file with other content. `WholeIffSynced` gives the exact condition on the disk, and
  `WholeIffRequired` the one a caller can know: the write has to be durable.
- The rate limiter reads the clock before it waits for its lock, so readings can reach the lock out of order.
  Its bound holds when they do not. When they may, it holds exactly for limits of at most one; for larger limits
  any number of probes can pass within one window length.
- `map_bounded` documents entries that are `None` when a worker panicked. A panic of a scoped thread reaches the
  caller when the scope ends, so a vector that is returned has no such entry.
- The merged credential list is described as deduplicated. It is with respect to the second channel; a stored
  provider that is declared twice stays in it twice. Create and update collect providers into a set
  (src/workspace/create/definition.rs:30-46), so only a registry written by other means holds such a declaration.
- A token can be stored under a name that no environment token reads: one that starts with a digit or is longer
  than 64 (src/auth/names.rs:38-51), and "enclave-token", "github-token" and "npm-token", because the variables
  that would derive them read the provider's own token (src/auth/resolution.rs:214-219).
- A log that is cut and grows back to the follower's offset between two polls is not noticed
  (src/workspace/logs.rs:153), and the follower then shows the old beginning with the new end.
- Each slice of a log is decoded by itself (src/workspace/logs.rs:172-176), so a character that straddles two
  slices comes out as replacement characters. `TextIsWholeIff` says exactly which borders do that.
- The setup key is meant to separate its inputs. Suite and mirror are checked only for sandboxes bootstrapped
  with debootstrap (src/sandbox/lifecycle/create.rs:42-44). For one from a cached root filesystem the border between
  them is lost when either holds a NUL. `DeterminedIff` says that there is no other case.

## Model

| member | source | states |
|---|---|---|
| Leases.PlanDistinct | src/daemon/leases.rs:55-98 | gates are requested in strictly rising rank: global, workspace, sandbox |
| Leases.StepPreservesInv | src/daemon/leases.rs:164-229 | every step of every thread keeps the counters equal to the guards and waiters they count |
| Leases.GateAccounting | src/daemon/leases.rs:137-142 | in every reachable state the counters are exactly the live shared guards, the one exclusive guard and the exclusive waiters, and no decrement underflows |
| Leases.SharedHoldersShrinkWhileExclusiveWaits | src/daemon/leases.rs:126-130 | while an exclusive waits, no step adds a shared holder |
| Leases.NoStarvationByShared | src/daemon/leases.rs:126-130 | over any run during which an exclusive keeps waiting, shared holders only leave |
| Leases.PlansClashIffConflict | src/daemon/leases.rs:10-14 | two requests take incompatible claims on some gate exactly when their scopes conflict |
| Leases.LeaseExclusion | src/daemon/leases.rs:10-14 | in every reachable state, leases granted to two threads never conflict |
| Leases.Progress | src/daemon/leases.rs:164-187 | while any request is unfinished, some thread can be admitted or can release, without a timeout |
| Leases.StuckMeansDone | src/daemon/leases.rs:164-229 | deadlock freedom: a reachable state in which nothing can advance has no unfinished request |
| Leases.RunsWithoutBeginAreBounded | src/daemon/leases.rs:164-229 | without new requests every run ends within a number of steps fixed at its start |
| Leases.EveryReachableStateDrains | src/daemon/leases.rs:164-229 | from every reachable state some run without timeouts finishes every request |
| Leases.BlockedByConflict | src/daemon/leases.rs:10-14 | a request that is held back overlaps a request of another thread in flight |
| Leases.UnopposedIsGranted | src/daemon/leases.rs:55-98 | a request nothing in flight overlaps can take all its gates with no step of another thread |
| Leases.UnrelatedLeasesCoexist | src/daemon/leases.rs:10-14 | any list of scopes without conflicts can be held together |
| Leases.LeaseTable.AcquireGate | src/daemon/leases.rs:164-212 | the wait loop ends admitted, holding one more gate, or timed out, with its place in the queue given back |
| Leases.LeaseTable.DropGuards | src/daemon/leases.rs:215-229 | dropping the guards one by one, others moving in between, releases every gate held and ends the request |
| Leases.LeaseTable.Acquire | src/daemon/leases.rs:55-78 | acquire ends with every gate of its plan or with none, whatever the other threads do |
| StateLock.DaemonExclusion | src/daemon/state_lock.rs:38-139 | in every reachable state at most one process is between the check that completes its acquire and the removal of the file in its drop |
| StateLock.NextOwnsBeforeUnlock | src/daemon/state_lock.rs:156-169 | a run in which the next daemon owns the lock while the last has removed its file and not yet unlocked its descriptor |
| StateLock.ReleaseRemovesOwnFile | src/daemon/state_lock.rs:156-169 | a release that unlinks removes the file it holds the lock of, and no other process is in charge |
| StateLock.InChargeIsStable | src/daemon/state_lock.rs:38-139 | nothing the other processes do takes the lock file from the one in charge |
| StateLock.GivingUpNeedsRemovals | src/daemon/state_lock.rs:13-19 | an acquire runs out of attempts only after as many removals of the lock file since it began |
| StateLock.RefusalNamesALocker | src/daemon/state_lock.rs:38-139 | a refused acquire met another process holding the lock of the same file |
| StateLock.AcquireIsWaitFree | src/daemon/state_lock.rs:41-133 | an acquire always has a next call, and returns within a fixed number of its own calls |
| StateLock.AloneAcquires | src/daemon/state_lock.rs:41-133 | whatever crashes left behind, a daemon started alone owns the lock at its first attempt |
| StateLock.Kernel.AcquireStateLock | src/daemon/state_lock.rs:38-139 | the retry loop ends owning the lock, and then alone in charge, or out of the protocol |
| StateLock.Kernel.LockAndCheck | src/daemon/state_lock.rs:41-133 | after flock the path is compared again: only the file still at the path is kept |
| StateLock.Kernel.DropStateLock | src/daemon/state_lock.rs:156-169 | a drop ends out of the protocol holding no lock, and unless its removal fails it is this call that removed the very file it owned |
| RegistryRecords.Migrate | src/registry/migrate.rs:38-67 | migration succeeds exactly for versions not newer than the current one, changes the version only and reports one step for each version passed |
| RegistryCache.HitLinearizes | src/registry/storage.rs:64-81 | a cache hit answers as the query does on a version that was current during the call |
| RegistryCache.StepPreservesInv | src/registry/mod.rs:97-159 | every step of every thread, I/O failures and crashes included, keeps what caches and threads know true |
| RegistryCache.ReadsLinearize | src/registry/mod.rs:123-143 | each answered read, hit or miss, equals the query on the migrated content of a version current at some instant of the call |
| RegistryCache.WritesCommitAtomically | src/registry/mod.rs:145-159 | each successful write commits its mutation of the version right before it, with the generation raised by one until saturation |
| RegistryCache.NoUpdateIsLost | src/registry/mod.rs:145-159 | every version after the first is a mutation of the one right before it |
| RegistryCache.OutcomeTellsTrace | src/registry/mod.rs:145-159 | over every run, a finished mutation left exactly one version behind, its mutation of the one before, if its outcome is an answer, a failure after the rename or a failing unlock around either, and otherwise no version and no cache entry |
| RegistryCache.ReportTellsCommit | src/fsutil/mod.rs:88-105 | the messages the caller gets read as a commit exactly if there was one, for every outcome but a failing unlock in ensure_registry, which reads as a commit and is none |
| RegistryCache.SameReportEitherWay | src/registry/mod.rs:106-116 | for every operation that succeeds, two runs with the same report, one of which replaced the file while the other never began its mutation |
| RegistryCache.MutationEndTells | src/registry/mod.rs:145-159 | how the save ends and whether the operation failed decide whether the file was replaced, whatever the unlock does |
| RegistryCache.FailingMutationChangesNothing | src/registry/mod.rs:145-159 | a call that reports its operation's failure left no version and no cache entry, and the operation does fail on a version current during the call |
| RegistryCache.FailureAfterRenameCommits | src/fsutil/mod.rs:178-185 | for every operation that succeeds, a run in which the call reports failure and has replaced the file |
| RegistryCache.CurrentCacheAgreesWithFile | src/registry/storage.rs:83-118 | a cache whose fingerprint is the file's holds what the file loads as |
| RegistryCache.WriteOutcome | src/registry/mod.rs:145-159 | an answer is the operation's own on a version current during the call, committed right over it if it is a success |
| RegistryCache.Store.EnsureRegistry | src/registry/mod.rs:97-117 | creation as code, with directory, lock, write and unlock able to fail: on success there is a file, and if the file was there nothing but the directory can fail |
| RegistryCache.Store.WithRegistry | src/registry/mod.rs:123-143 | the read path as code: ensure, cached try, lock, second try, load, cache update, unlock; its answer linearizes |
| RegistryCache.Store.WithRegistryMut | src/registry/mod.rs:145-159 | the write path as code: ensure, lock, load, mutate, save, cache update, unlock; whatever fails on the way, its outcome is the one the faults decide and tells what it left behind, and if the file existed before the call its report says the same |
| MarkerIdentity.ParseFormatted | src/workspace/cancel.rs:272-288 | the identity a publish writes is the one a cancel reads back |
| CancelMarkers.StepPreservesInv | src/workspace/cancel.rs:72-207 | every step of commands, cancels, the helper pool and the host keeps the markers' meaning |
| CancelMarkers.SignalsTargetPublishedCommands | src/workspace/cancel.rs:149-207 | a signal through a marker is aimed at a helper that is not idle and that only the marker's own command can be using |
| CancelMarkers.LateMarkersAreNobodys | src/workspace/cancel.rs:72-87 | no command ever has an excepted marker, one left by a publish that reported failure |
| CancelMarkers.LatePublishFailureSignalsIdleHelper | src/workspace/cancel.rs:72-87 | runs, one for a failing sync and one for a failing unlock, in which a cancel is about to signal an idle helper through such a marker |
| CancelMarkers.SignalsHitTheirHelper | src/workspace/cancel.rs:149-207 | every signal ever sent was meant for the helper its marker was written for, and one to a whole group reached that very process if the pool still had it, whatever happened between check and kill |
| CancelMarkers.KillIsSafeIffHeld | src/workspace/session/process/mod.rs:175-226 | between check and kill: if the pool has the helper, no steps of others make the kill reach another process until the pool lets go; if it has not, some steps do; and it has it exactly while the marker's command runs or is yet to release it |
| CancelMarkers.ReleasedHelperIsMissed | src/workspace/session/persistent/mod.rs:400-411 | a run in which the helper is released between check and kill and the kill reaches a stranger under its process id |
| CancelMarkers.CancelledCommandsAreNotReused | src/workspace/cancel.rs:93-123 | after a cancel answered Ok, a marker it signalled is gone and no finish ever found it, unless its removal failed; its helper is not idle, a finish answers false, and releasing the helper discards it |
| CancelMarkers.FinishTells | src/workspace/cancel.rs:93-123 | finishing answers false exactly when the marker is gone, unless reading or removing it fails, and the helper is reusable exactly if the marker was found, removed and the lock released |
| CancelMarkers.StuckMarkerIsRetiredAgain | src/workspace/cancel.rs:346-350 | a run in which a removal failed, the cancel answered Ok and the command finishes as uncancelled |
| CancelMarkers.RefusedCancelSendsNothing | src/workspace/cancel.rs:210-313 | a cancel that met a malformed marker or a failed identity check sent no signal at all |
| CancelMarkers.IdleHelpersHaveNoMarker | src/workspace/session/persistent/mod.rs:293-377 | a helper in the pool has no marker a later cancel could signal through, other than the excepted ones |
| CancelMarkers.Workspace.CheckAll | src/workspace/cancel.rs:210-270 | the validation loop ends ready to signal, with nothing alive to signal, or refused |
| CancelMarkers.Workspace.CancelLocked | src/workspace/cancel.rs:149-207 | cancel as code: a refusal sent nothing, and after Ok every signalled marker is gone or could not be removed |
| Scrub.ScrubSecrets | src/auth/scrub.rs:21-57 | the answer renders the leftmost-longest scrubbing of the text, the index staying on character boundaries, and is UTF-8 |
| Scrub.LongestAt | src/auth/scrub.rs:21-57 | the longest secret matching at a position, or nothing exactly when none matches |
| Scrub.ScrubbingIsUnique | src/auth/scrub.rs:21-57 | there is only one leftmost-longest scrubbing of a text |
| Scrub.OccurrenceStartsRedacted | src/auth/scrub.rs:12-20 | the start of every occurrence of a secret is inside a redaction |
| Scrub.NoSecretInCopiedText | src/auth/scrub.rs:12-20 | no secret occurs wholly inside a run of copied text |
| Scrub.NothingLeaksIff | src/auth/scrub.rs:12-57 | in every text no byte of any occurrence is copied, exactly when whatever can stick out of the redaction an occurrence begins in is fully redacted when scrubbed by itself |
| Scrub.ContinuationHides | src/auth/scrub.rs:21-57 | a text that continues a fully redacted one hides all of it, whatever follows |
| Scrub.AllCoveredIffOverlapClosed | src/auth/scrub.rs:12-20 | in every text each occurrence lies inside one redaction, exactly when any text two overlapping secrets make is a secret too |
| Scrub.OpenOverlapEscapes | src/auth/scrub.rs:12-20 | for every other set of secrets, a text in which an occurrence reaches past the redaction it begins in |
| Scrub.OverlapLeavesFragment | src/auth/scrub.rs:12-20 | a text whose answer keeps the end of a secret |
| Cgroups.EmptyWorkspaceCgroups | src/doctor/cgroups.rs:158-197 | the recursion collects exactly the process-free leaf workspace cgroups reachable through prefixed names, each once |
| Cgroups.Collect | src/doctor/cgroups.rs:179-197 | the same below one directory, keeping what was found before |
| Cgroups.CandidateIsRemovable | src/doctor/cgroups.rs:105-156 | whatever a pass removes was removable in the tree as it was at the start |
| Cgroups.RemovableLeavesCandidate | src/doctor/cgroups.rs:105-156 | while something removable is left, some candidate can go |
| Cgroups.Host.RemovePass | src/doctor/cgroups.rs:105-156 | one pass removes every candidate that does not refuse and counts exactly what went |
| Cgroups.Host.RemoveEmptyWorkspaceCgroups | src/doctor/cgroups.rs:105-156 | the pass loop ends; it removes and counts exactly the cgroups whose whole subtree could go, keeps every tracked cgroup with its ancestors and descendants, and any other owned cgroup it keeps has below it one that is busy, refuses or is no workspace cgroup |
| AtomicWrite.ReadersSeeWholeFiles | src/fsutil/mod.rs:127-188 | in both durability modes a reader that opens the path finds the complete content of the last rename, whatever writers are halfway |
| AtomicWrite.OpenedFileStaysWhole | src/fsutil/mod.rs:127-188 | and reads that content in any later state of the run, however many pieces it reads in |
| AtomicWrite.CrashLeavesWholeFile | src/fsutil/mod.rs:127-188 | at every crash point of Required writes the path holds one complete version, none older than the last settled one |
| AtomicWrite.SuccessIsDurable | src/fsutil/mod.rs:127-188 | once a Required write has answered Ok, no crash goes back before it |
| AtomicWrite.SingleWriteIsAtomic | src/fsutil/mod.rs:127-188 | a lone Required write leaves the old or the new content, and the new after Ok |
| AtomicWrite.WholeIffSynced | src/fsutil/mod.rs:108-121 | a crash that finds a version finds it whole exactly when its data was synced |
| AtomicWrite.WholeIffRequired | src/fsutil/mod.rs:108-121 | a write comes back whole from every crash, whatever others and the disk do, exactly if it is Required |
| AtomicWrite.BestEffortMayTear | src/fsutil/mod.rs:108-121 | a run in which a successful BestEffort write is followed by a crash that leaves any other bytes |
| AtomicWrite.Disk.WriteFileAtomic | src/fsutil/mod.rs:127-188 | the write as code: on Ok the path was given the whole content in one rename, settled if Required; any call on the way may fail |
| Histogram.LaddersInUse | src/perf/histogram.rs:59-89 | both ladders in use rise strictly and end open |
| Histogram.BucketIndex | src/perf/histogram.rs:150-155 | the first bucket whose bound is not below the value |
| Histogram.Record | src/perf/histogram.rs:157-160 | recording keeps every counter equal to the number of samples in its bucket |
| Histogram.PercentileOfBuckets | src/perf/histogram.rs:120-139 | the loop returns the bound of the first bucket whose running sum reaches the target, and nothing exactly when none does |
| Histogram.PercentileRefinesRank | src/perf/histogram.rs:120-139 | it is the bound of the bucket that holds the sample of the target rank |
| Histogram.PercentileBoundsRank | src/perf/histogram.rs:141-148 | hence not below that sample, unless the sample is in the open top bucket, where it is below |
| Histogram.RankExists | src/perf/histogram.rs:120-139 | every rank up to the number of samples has a sample |
| Histogram.RankIsUnique | src/perf/histogram.rs:120-139 | and only one value |
| Histogram.TargetIsNearestRank | src/perf/histogram.rs:120-139 | the target is the nearest rank exactly while the product of total and percent is at most 18446744073709551700 |
| Histogram.TotalIsSampleCount | src/perf/histogram.rs:120-139 | the counters add up to the number of samples |
| Histogram.PercentileRises | src/perf/histogram.rs:101-139 | the result never falls as the percent rises |
| RateLimiter.RateBound | src/daemon/rate_limiter.rs:50-93 | any interval of one window length holds at most twice the limit of allowed probes, and one less when probes opened every window |
| RateLimiter.GlobalRateBound | src/daemon/rate_limiter.rs:50-68 | over every interleaving at most twice the global limit passes in any such interval |
| RateLimiter.UserRateBound | src/daemon/rate_limiter.rs:70-93 | and for every user at most twice the user limit, less one |
| RateLimiter.OpenWindowBoundIsTight | src/daemon/rate_limiter.rs:26-68 | the bound for the window open from the start is reached |
| RateLimiter.ProbedWindowBoundIsTight | src/daemon/rate_limiter.rs:70-93 | so is the bound for windows that probes open |
| RateLimiter.BoundedInAnyOrderIff | src/daemon/rate_limiter.rs:50-93 | with readings in any order the bound holds exactly for limits of at most one, or an empty window |
| RateLimiter.StaleReadingsHaveNoBound | src/daemon/rate_limiter.rs:50-58 | for limits of two and more, readings out of lock order with any number of allowed probes in one interval |
| RateLimiter.Shared.AllowGlobal | src/daemon/rate_limiter.rs:50-68 | the daemon-wide check answers and steps as specified |
| RateLimiter.Shared.AllowPerUid | src/daemon/rate_limiter.rs:70-93 | the check of one user, creating its window at the first probe, leaves every other user alone |
| RateLimiter.Shared.Allow | src/daemon/rate_limiter.rs:43-48 | both checks must pass, with any probes of other threads between the two locks, and a refused user has still used a global slot |
| WorkerPool.Clamp | src/parallel.rs:42 | at least one worker, never more than items, nor more than asked for |
| WorkerPool.StepPreservesInv | src/parallel.rs:51-66 | every step of every worker keeps each item queued, with one worker, or answered |
| WorkerPool.ClaimedOnceStoredRight | src/parallel.rs:51-66 | in every reachable state items were claimed in order, each once, and a stored result is the job's own for that index |
| WorkerPool.StepShrinksWork | src/parallel.rs:51-66 | every step of every schedule uses up work left in queue and workers |
| WorkerPool.RunsAreBounded | src/parallel.rs:51-66 | no schedule is longer than two steps an item and one a worker, and complete ones without panic are exactly that long |
| WorkerPool.PoolRefinesMap | src/parallel.rs:32-72 | for a job that always returns, every complete schedule yields the job's result for every item, in place |
| WorkerPool.FinishedMeansComplete | src/parallel.rs:32-72 | when all workers are gone and none panicked every item has its result |
| WorkerPool.Scope.Advance | src/parallel.rs:51-66 | one locked section of the worker loop |
| WorkerPool.MapBounded | src/parallel.rs:32-72 | for any worker count: no vector exactly when the job panics on some item, else every entry holds the job's result |
| LogFollow.SliceExtends | src/commands/workspace/logs.rs:20-52 | the next slice carries on exactly where the follower was, also after others appended |
| LogFollow.ResetShows | src/commands/workspace/logs.rs:20-52 | after a reset what is shown is the current tail |
| LogFollow.Host.FollowAfterChange | src/workspace/logs.rs:150-163 | after any change between two polls, what is shown is a stretch of the file exactly if another file is there, this one became shorter than the offset, or the bytes shown before are back; only the first two are noticed |
| LogFollow.RewriteShowsIff | src/workspace/logs.rs:150-163 | a follower that carries on in a rewritten file shows a stretch of it exactly when the bytes shown before are back |
| LogFollow.TextIsWholeIff | src/workspace/logs.rs:172-176 | the slices decoded one by one are the decoding of the stretch exactly if no border between them cuts a character |
| LogFollow.ValidTextIsWholeIff | src/workspace/logs.rs:172-176 | for a stretch of UTF-8 they are the stretch itself exactly if no slice starts with a continuation byte |
| LossyText.DecodeConcat | src/workspace/logs.rs:172-176 | two pieces decode to the decoding of the whole, or to something longer if the border cuts a character |
| LogFollow.RegrownLogIsMixed | src/workspace/logs.rs:150-163 | a run of the follow loop, for every rewrite that is long enough and differs in what was shown, in which the follower shows an old beginning with a new end |
| LogFollow.Host.ReadTail | src/workspace/logs.rs:198-221 | a tail read ends at or after everything written before it, and is cut only when longer than the limit |
| LogFollow.Host.ReadDelta | src/workspace/logs.rs:143-183 | a poll carries the next bytes, at most 128 KiB, says more is waiting only if so, and resets for a replaced or shortened file |
| LogFollow.Host.Poll | src/workspace/logs.rs:82-118 | the same through the request, where a missing log is a reset to the start |
| LogFollow.Host.Follow | src/commands/workspace/logs.rs:20-52 | for any appends between polls, what is shown is one stretch of the file, nothing lost or repeated |
| LogFollow.Host.FollowOnce | src/commands/workspace/logs.rs:30-52 | one turn extends what is shown, or resets; on a file at rest it resets exactly when the follower's place is in another file or past the end |
| LogFollow.Host.Drain | src/commands/workspace/logs.rs:24-38 | polling while more is waiting reaches the end of a finished log in one poll a slice |
| SetupKey.KeyFor | src/sandbox/setup_cache.rs:26-46 | the digest is fed exactly the encoding of its inputs |
| SetupKey.CurrentKeyFor | src/sandbox/setup_cache.rs:9-13 | under the current scheme tag, which holds no NUL |
| SetupKey.KeyBytesReadBack | src/sandbox/setup_cache.rs:26-46 | the encoding can be read back: every field and the ordered command list |
| SetupKey.KeyBytesInjective | src/sandbox/setup_cache.rs:26-46 | setups with NUL-free fields and UTF-8 commands have equal encodings only if they are equal |
| SetupKey.SharedKeyIsCollision | src/sandbox/setup_cache.rs:15-25 | so they share a key only where the digest collides on their two encodings |
| SetupKey.DeterminedIff | src/sandbox/setup_cache.rs:15-25 | among the setups sandboxes can have, the encoding determines the setup exactly when the sandbox is bootstrapped with debootstrap or neither its suite nor its mirror holds a NUL |
| SetupKey.OnlySourceIsAmbiguous | src/sandbox/setup_cache.rs:26-46 | two such setups with one encoding differ at most in where the suite ends and the mirror begins |
| SetupKey.CachedNulHasTwin | src/sandbox/lifecycle/create.rs:38-44 | for every cached sandbox with a NUL in its suite or mirror, another one with the same encoding |
| SetupKey.DeterminedIffNulFree | src/sandbox/setup_cache.rs:28-40 | of the encoding alone, for any strings in any field: it determines them exactly when none holds a NUL |
| SetupKey.NulHasTwin | src/sandbox/setup_cache.rs:28-40 | of the encoding alone: for any strings with a NUL among them, others with the same encoding |
| Ipam.IpBitmap.Mark | src/network/ipam.rs:28-34 | marking sets the octet's bit and no other, and nothing outside the pool |
| Ipam.IpBitmap.Allocate | src/network/ipam.rs:36-50 | the word loop returns the least free octet of the pool, and nothing exactly when all are marked |
| Ipam.FromUsed | src/network/ipam.rs:20-26 | the bitmap marks exactly the used octets of the pool |
| Ipam.AllocateIp | src/network/ipam.rs:53-68 | the address is that of the least free octet and parses back to it; failure means none is free |
| Ipam.AllocationIsUnique | src/network/ipam.rs:36-50 | there is one right answer, and exhaustion needs all 245 octets |
| Ipam.AllocationsAreDistinct | src/network/ipam.rs:53-68 | repeated allocation hands out free octets, pairwise distinct and rising |
| Ipam.PoolRunsOut | src/network/ipam.rs:53-68 | it fails exactly when the octets handed out and those used before are all 245 |
| Ipam.AddressRoundTrip | src/network/ipam.rs:79-97 | a text parses to a host octet exactly when it is that octet's formatted address |
| Veth.FoldFits | src/network/veth.rs:111-115 | the hash rounds stay within 32 bits |
| Veth.OneByteTellsApart | src/network/veth.rs:111-115 | workspace ids that differ in one byte never share a hash, although every round wraps and only 24 bits are kept |
| Veth.NameRoundTrip | src/network/veth.rs:60-109 | every name has at most 15 characters and yields back its octet and its hash |
| Veth.NamesClashIff | src/network/veth.rs:60-76 | two names are equal exactly when octet and hash are |
| Veth.PartsInvert | src/network/veth.rs:79-92 | a name is taken apart into exactly the parts it was put together from |
| Veth.ReadableIsBuiltIff | src/network/veth.rs:79-109 | a name that can be read is the one built from what it reads as exactly when its octet has no leading zeros and its hash is lower case |
| Veth.PaddedOctetReadsTheSame | src/network/veth.rs:106-109 | a name with a padded octet, never built, that reads the same as a built one |
| CredentialNames.SlotRoundTrip | src/auth/names.rs:85-92 | every valid variable has a slot, a valid token name, from which the variable can be read back |
| CredentialNames.SlotsAreInjective | src/auth/names.rs:75-92 | two valid variables have one slot exactly when they are equal |
| CredentialNames.StoredNameIsReadIff | src/auth/resolution.rs:214-219 | a stored name is read by some variable exactly when it is at most 64 long, does not start with a digit and is not a provider's variable written as a slot |
| CredentialNames.ShadowedSlotsAreNeverRead | src/auth/resolution.rs:214-219 | tokens stored as enclave-token, github-token or npm-token, all valid names, are read by no variable |
| CredentialNames.SlotsClashIff | src/auth/resolution.rs:214-219 | with provider aliases, two different variables read one slot exactly when both ask for one provider |
| CredentialNames.EveryProviderHasAlias | src/auth/providers.rs:22-34 | every provider has two such variables |
| Credentials.ResolveProviders | src/auth/resolution.rs:116-157 | the declared providers that are supported and stored, in order |
| Credentials.ResolveEnvTokens | src/auth/resolution.rs:159-205 | the declared variables that have a slot and a stored token, in order |
| Credentials.ProvidersAreHonest | src/auth/resolution.rs:116-157 | each token is what the store holds under its name, and no stored provider is left out |
| Credentials.EnvTokensAreHonest | src/auth/resolution.rs:159-205 | the same for variables |
| Credentials.MergeChannels | src/auth/resolution.rs:227-241 | the loop computes the merged list |
| Credentials.MergeKeepsNames | src/auth/resolution.rs:227-241 | the merged list starts with the first channel, loses no name of the second, invents nothing, and repeats a name only if the first channel does |
| Credentials.AllCredentials | src/auth/resolution.rs:104-114 | for one state of the store every value either channel injects is in the merged list, nothing else is, and each name is in it once exactly when no provider that resolves is declared twice |
| Credentials.MergedOnceIff | src/auth/resolution.rs:97-114 | for every store, providers and variables the merged list names each credential once exactly when no supported, stored provider is declared twice |
| Credentials.RepeatedProviderStaysTwice | src/auth/resolution.rs:97-114 | a stored provider declared twice is in the list twice |

## Left out

- Host commands, mounts, namespaces, interface setup, signals and cgroup writes: only the decisions around them are modelled.
- Command line parsing, table printing, configuration defaults and JSON or TOML serialisation; registry records carry their version, generation and a map.
- Wall-clock time and condition-variable wake-ups: a wait may end at any step, with the timeout as one of its outcomes.
- Poisoned mutexes and panics while a gate's lock is held.
- Inode numbers are not reused while a file is open; for a followed log they are assumed never to be reused, although a follower has no handle between two polls. Distinct committed registry files have distinct fingerprints.
- Registry caches are one per process and one state directory; the cache's path component is left out.
- The legacy cancel marker, and the other members of a process group: whether a group is live without its leader is a flag, and signalling its members one by one reaches no leader.
- Marker files in the form the daemon writes are assumed to be written by nobody else; other files may appear in the directory at any time.
- A helper the pool discards is killed and reaped in one step.
- Removal order within a cgroup pass: the code goes deepest first, the model allows any order.
- The trimming of the first answer to a number of lines, and the poll interval's back-off.
- The collision resistance of SHA-256, and how the rootfs identity is computed; it is taken to hold no NUL. What is asked of a debootstrap mirror is a parameter.
- The setup marker files, worker counts taken from the environment, and the subnet test on addresses with a prefix length.
- Token files, scopes of the token store and the warnings of credential resolution.
- Lifecycle start, stop and destroy, registry repair, the live job map and the port publisher.
