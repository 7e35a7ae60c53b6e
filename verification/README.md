# Cachet, verified

A Dafny model of Cachet, a consistent cache in front of sharded MySQL, and proofs of what it promises.
`dafny verify dfyconfig.toml` checks everything.

## What is modelled

**The consistency protocol** (`Hlc`, `CacheSlot`, `CacheNode`, `Protocol`, `Guarantees`,
`Histories`, `Deployments`, `Limits`, `EngineRead`).
Any number of engines share each shard, each with its own hybrid logical clock and wall time. `Protocol` is a
machine of fifteen steps: a write begins, locks and observes, stamps, commits, invalidates and is acknowledged; a
read samples its fill version, fetches, and lands its fill late, twice or never; entries are lost at any point.
`Guarantees` proves, over every run: read-own-writes and monotonic reads from fill versions alone, with the
interleavings in which they fail; visibility of a write whose invalidation was processed, for one clock and for many;
version dominance across engines; and BOUNDED(t). Two modules make the conditions exact. `Histories` shows that, once
all invalidations of a key were processed and kept, a write can be hidden in some run with its history if and only if
that history overwrote an outranking row without its lock: it inserts a read into an arbitrary run. `Deployments`
shows that read-own-writes without invalidation holds of a set of clocks if and only if one serves the shard.
`EngineRead` carries the theorems over to what the engine's read path serves.
"Reflects a write" speaks of the commit order of the key, never of versions, so the theorems are not circular.
`Limits` gives concrete runs showing that each condition is needed. The cache's Lua scripts are modelled statement by
statement, comparing twenty-digit strings as they do.

**The binlog tailer** (`Cdc`) as a machine that crashes and restarts over a binlog: at-least-once delivery behind
every saved checkpoint, checkpoints that never move back, replay that never lowers a cache slot.

**Conditional writes** (`Storage`, `Engine`): one shard's transaction, and the loop over shards with its contract
that the list of keys is exact or empty.

**State that must agree with a log**: the window of time slices (`SliceRing`) under the circuit breaker
(`Breaker`) and the count-min sketch (`Sketch`); recency lists (`Lru`) under the session token (`SessionToken`),
the tracer (`Tracer`) and the admission controller (`Admission`); and the staleness verifier (`Verifier`). Each is a
class whose fields are updated in place and whose ghost log records what happened; the theorems relate the two.

**Codecs, routing and text**: row encoding (`RowCodec`, `UintText`), row keys (`KeyGrammar`), consistent hashing
(`HashRing`), and the scan and splice of SQL text (`SqlScan`, `SqlSplice`). `Bytes` and `Common` hold what they share.

## Findings

- Read-own-writes from fill versions has a hole exactly as wide as the time between a write's stamp and its
  commit (`Limits.WindowHidesOwnWrite`). Synchronous invalidation closes it where one clock stamps the key, for every
  write that replaced a row or overlapped no earlier one (`Guarantees.SynchronousReadOwnWrites`).
- With several engines, what decides is on the writes and their invalidations: if every write of the key up to this one
  was invalidated in the pool and the pool kept that, and each locked the row it replaced, the write is visible
  (`Guarantees.AllInvalidatedShowsTheWrite`). Exactly, given those invalidations it can be hidden if and only if an
  earlier row that outranks everything up to it was overwritten without its lock
  (`Histories.ShownIffNotOverwrittenUnlocked`). An insert after another engine's delete learns no version from the
  missing row and may be stamped below the deleted row. It is then hidden by it, with no two writes overlapping, when the delete's own invalidation had not reached the pool
  (`Limits.InsertAfterDeleteIsOutranked`) or its marker had been lost (`Limits.LostMarkerOutranksToo`).
- Any two engines on one shard can break read-own-writes without invalidation, because a fill version from a clock
  that is ahead outranks a write it never saw (`Deployments.ClockAheadHidesOwnWrite`); one clock per shard is exactly the
  condition (`Deployments.OwnWritesKeptIffOneClock`).
- "Not found" advances no watermark, so after it reads are not monotonic: a session told that a row is gone can be
  served that row (`Limits.DeletedRowServedAfterNotFound`). Outside the window an entry filled at or above the
  deleting write never shows that row; an older entry is one whose read began before that write was stamped
  (`Guarantees.MonotonicReads`).
- A breaker configured with MinRequests = 0, which `New` accepts, divides zero by zero on an empty window and refuses
  every read and fill until a call that does not ask it, a tombstone, records an outcome, and again a window later
  (`Breaker.LatchedWhileOnlyGated`, `Breaker.UngatedOutcomeOpensTheLatch`).
- `Value.Uint64` accepts some numerals of 2^64 or more (`UintText.OverflowMissed`); its answer is right exactly
  below 2^64.
- Evictions are spaced by MinDwell for every table size if and only if DefaultAdmit is set
  (`Admission.SpacedIffDefaultAdmit`).
- A checkpoint save that fails is not tried again before the next position event, because taking the position clears
  the dirty mark (`Cdc.FailedSaveIsNotRetried`).
- The verifier's sampling loop passes no watermark and no read window, so it can only ever report EVENTUAL
  (`Verifier.SamplingBlamesEventualOnly`).

Where the code and its documentation disagree the model follows the code: a read advances the watermark by the row's
version, not its fill version (CONSISTENCY.md section 3.2); BOUNDED(t) adds the skew to the required fill time, which
is stricter than subtracting it (section 3.3); a shed GetOrLease answers "shed", not "wait"; the lease script returns
fewer fields than its header lists.

## Model

| member | source | states |
|---|---|---|
| Hlc.NewVersion | internal/storage/hlc.go:43-54 | packing succeeds exactly in the 48-bit range and both halves read back |
| Hlc.PackingOrders | internal/storage/hlc.go:24-54 | a plain integer compare of two versions orders them by physical time, then counter |
| Hlc.NextIsMax | internal/storage/hlc.go:83-158 | the three branches of Next, saturation included, are max(last + 1, this millisecond); it panics exactly outside 64 bits |
| Hlc.NowIsMax | internal/storage/hlc.go:112-128 | a sample is max(last, this millisecond) and consumes no tick |
| Hlc.ClockNeverGoesBack | internal/storage/hlc.go:83-146 | over any run of one clock, wall time jumping backwards included, an issued version exceeds everything issued, sampled or observed before it, and a sample is below none of it |
| Hlc.Clock.NextVersion | internal/storage/hlc.go:92-110 | the clock method issues Next of its state and stores it, strictly above the old state |
| Hlc.Clock.BumpLogical | internal/storage/hlc.go:148-158 | the saturated counter borrows a millisecond |
| Hlc.Clock.Sample | internal/storage/hlc.go:120-128 | a sample never falls below the clock and is remembered by it |
| Hlc.Clock.Adopt | internal/storage/hlc.go:137-146 | observing moves the clock forward only |
| CacheSlot.FillLevel | internal/cache/lua/fill_cas.lua:1-75 | after a fill, won or lost, the slot knows the larger of what it knew and the fill's row version, and serves nothing below its marker |
| CacheSlot.TombstoneLevel | internal/cache/lua/tombstone_cas.lua:1-39 | the same for a tombstone |
| CacheSlot.CasComputesNewest | internal/cache/entry.go:3-7 | after any sequence of fills and tombstones the slot is what the SET of them determines: newest version, served exactly when a fill carries it, from the freshest snapshot of it |
| CacheSlot.DeliveryOrderIsIrrelevant | internal/cache/client.go:315-352 | reordering and duplicating fills and tombstones changes neither the version nor the snapshot that is served |
| CacheSlot.TombstoneFloor | internal/cache/client.go:491-516 | once a tombstone at v was processed, applied or rejected, nothing later served has a row version below v |
| CacheSlot.VersionStringsOrder | internal/cache/version.go:24-35 | twenty-digit strings compare exactly as the 64-bit numbers do and decode back to them |
| CacheNode.FillByStrings | internal/cache/lua/fill_cas.lua:1-75 | the script's string comparisons decide as the versions would and leave the encoding of the slot Fill leaves, which is pinned: the entry when it wins, the slot unchanged when it loses |
| CacheNode.TombstoneByStrings | internal/cache/lua/tombstone_cas.lua:1-39 | the same for the tombstone script: it applies exactly what is newer than all the slot knows |
| CacheNode.Node.FillWithLease | internal/cache/client.go:315-352 | fill_cas.lua refines Fill, changes no other key, and gives a lease back only to its holder |
| CacheNode.Node.Invalidate | internal/cache/client.go:491-516 | tombstone_cas.lua refines Tombstone: applied exactly when newer than everything the slot knows |
| CacheNode.Node.GetOrLease | internal/cache/client.go:413-467 | a hit exactly when an entry of this shape is there, a lease exactly when there is neither entry nor lease |
| CacheNode.LeaseIsExclusive | internal/cache/lua/read_lease.lua:1-52 | in any run of the node's calls, between two grants of one key the first lease expired or was handed back by a fill under its own token |
| CacheNode.OnlyItsHolderFreesTheKey | internal/cache/lua/fill_cas.lua:1-75 | while a lease stands, a fill of the key frees it if and only if it carries the holder's token, whether the fill wins or loses |
| CacheNode.NextMissIsGranted | internal/cache/lua/read_lease.lua:1-52 | after the holder's own fill the next call is granted the lease exactly when it misses |
| CacheNode.AnotherShapeIsAMiss | internal/cache/lua/read_lease.lua:1-52 | in any run, after a fill that won, asking under its fingerprint gives that very entry and asking under any other a miss |
| CacheNode.TombstonedIsAMiss | internal/cache/lua/tombstone_cas.lua:1-39 | in any run, after a tombstone that was applied every shape is a miss |
| Protocol.StepKeepsInv | internal/engine/rows.go:47-126 | each of the fifteen steps keeps the protocol's invariant |
| Protocol.RunKeepsInv | internal/engine/rows.go:200-261 | every reachable state satisfies it |
| Guarantees.AckedWritesAreLogged | internal/storage/rows.go:134-200 | each key a finished write touched has that write in its commit order |
| Guarantees.FillVersionDatesTheRead | internal/storage/hlc.go:112-128 | on one clock, a read's fill version is at or above a write's version if and only if it began after the write was stamped |
| Guarantees.FillVersionProvesFreshness | internal/engine/freshness.go:37-63 | a read filled at or above a write's version from the same clock reflects the write, if and only if it did not fall wholly between the write's stamp and its commit |
| Guarantees.WatermarkKept | pkg/consistency/session.go:61-92 | a watermark never moves back over a run while it is held |
| Guarantees.LearnsExactly | internal/engine/rows.go:83-121 | what one step teaches a session, exactly: the acknowledged, read, hit or carried version if higher, nothing for an absence, and no other watermark moves |
| Guarantees.ReadOwnWrites | internal/engine/rows.go:47-126 | with any number of engines, a hit after the acknowledgement, from an entry read through the clock that stamped the write, reflects it from any pool, if and only if its read was not inside the stamp-to-commit window |
| Guarantees.CarriedWritesAreRead | pkg/consistency/session.go:138-155 | a session handed another's watermarks reads that other's acknowledged writes, with the same one exception |
| Guarantees.OneClockIsSame | internal/storage/hlc.go:61-66 | one clock per shard makes every entry such an entry |
| Guarantees.MonotonicReads | internal/engine/rows.go:83-121 | for any answer a session was given, a row or an absence: a later hit from an entry filled at or above the write behind it reflects that write, if and only if its read was not in the write's window; after a row every hit is from such an entry, and any other entry was read from before the write was stamped |
| Guarantees.InvalidationFloor | internal/engine/engine.go:523-561 | in every run, once an invalidation at v was processed, no later entry of that pool is below v until the pool loses the key |
| Guarantees.LockedWritesDominate | internal/storage/rows.go:148-226 | with any clocks, the last of a stretch of writes each replacing a locked row has the highest version of the stretch |
| Guarantees.DominatesIffStampedLast | internal/storage/rows.go:173-173 | where one clock stamps a key's writes, a write has the highest version so far if and only if it was stamped after every earlier one |
| Guarantees.LockedIsStampedLast | internal/storage/rows.go:148-226 | a write that replaced a row under its lock was stamped after every earlier write of its key, deletes among them or not |
| Guarantees.InvalidationMakesWritesVisible | internal/engine/engine.go:523-561 | with any clocks, of one invalidation alone: the pool's entry reflects the write unless it is the row of an earlier commit at a version no lower |
| Guarantees.AllInvalidatedShowsTheWrite | internal/engine/engine.go:523-561 | with any clocks and engines: once every write of the key up to n was invalidated in the pool and kept, an entry hides n only behind a row that was overwritten without its lock and that nothing up to n outranks; so never where each write locked the row it replaced |
| Histories.ShownIffNotOverwrittenUnlocked | internal/storage/rows.go:148-226 | exact over all runs: n is shown in every run with this history whose pool processed and kept all invalidations up to n, if and only if no outranking row before it was overwritten without its lock |
| Histories.OverwriteCanHide | internal/storage/rows.go:190-192 | from any run with such an overwrite, a run with the same history of the key whose pool, after all the invalidations, hides the write |
| Histories.StepStaysLike | internal/storage/rows.go:36-48 | a read that locks nothing changes no other step: every step of a run can be taken with one more read in place |
| Guarantees.SynchronousReadOwnWrites | internal/engine/rows.go:228-238 | with one clock stamping the key: the entry reflects the write if and only if it does not show one that was stamped no earlier and committed first; so always for a write that replaced a row, or that overlapped no earlier write |
| Guarantees.VersionDominance | internal/storage/rows.go:148-226 | with any number of engines and wall clocks, a write replacing a row under its lock is stamped above it |
| Guarantees.BoundedStaleness | internal/engine/freshness.go:52-60 | an entry accepted at T under BOUNDED(t) reflects a write committed at or before T - t, if and only if it is not the one tie of instants named in the contract |
| Guarantees.WallSkewBoundsClocks | internal/storage/hlc.go:120-128 | wall clocks within the skew keep every logical clock within it, which is what BoundedStaleness assumes |
| Limits.WindowHidesOwnWrite | internal/storage/rows.go:36-64 | a run with one clock in which a session is served an entry hiding its own acknowledged insert: the window exception is needed |
| Limits.TieHidesBoundedWrite | internal/engine/freshness.go:52-60 | a run in which BOUNDED(0) hides a write committed in the same instant: the tie is real |
| Deployments.ClockAheadHidesOwnWrite | internal/storage/hlc.go:120-146 | for any two clocks of a shard, a run in which a read older than the write outranks it and is served to the session that wrote |
| Deployments.OwnWritesKeptIffOneClock | internal/storage/hlc.go:61-66 | a deployment keeps read-own-writes on a shard, outside the window, in every run, if and only if it has one clock for the shard |
| Limits.InsertRaceInvertsVersions | internal/storage/rows.go:190-192 | two inserts of one missing key commit in the opposite order of their versions: an unlocked overwrite |
| Limits.DeletedRowServedAfterNotFound | internal/engine/rows.go:83-94 | a run with one clock, outside every window, in which a session that was told a row is gone is served that row: an absence advances no watermark |
| Limits.InsertAfterDeleteIsOutranked | internal/storage/rows.go:205-226 | a run with two clocks and no overlapping writes in which an acknowledged, invalidated insert is hidden by the row another engine deleted before it |
| Limits.LostMarkerOutranksToo | internal/cache/lua/tombstone_cas.lua:1-39 | the same when the delete's invalidation was processed and its marker then lost |
| EngineRead.ReadWaitingForAnyFill | internal/engine/engine.go:358-409 | the node is asked at most MaxAttempts + 1 times and the first answer other than wait decides: an entry is found, a lease held or the node unavailable exactly when that answer says so; waiting in vain or leaving is a miss without a lease |
| EngineRead.ServedIsFresh | internal/engine/engine.go:244-350 | an entry is served only if a pool returned it and the freshness rule accepts it, the standby pool included; a lease is held only when the home node granted it, and always then if nothing is served |
| EngineRead.ServesExactlyTheHits | internal/engine/engine.go:244-350 | an entry that was found is served if and only if the cache is on, the key admitted and the protocol allows that hit of that session on that pool |
| EngineRead.ServedByLevel | internal/engine/freshness.go:37-63 | with the cache on and the key admitted, of the entry a pool returned: EVENTUAL serves it, SESSION serves it exactly from the watermark up and always without one, BOUNDED(t) exactly when also recent enough, STRONG never |
| EngineRead.LevelsAreNested | internal/engine/freshness.go:37-63 | what BOUNDED serves SESSION serves, and what SESSION serves EVENTUAL serves |
| EngineRead.FresherIsServed | internal/engine/freshness.go:37-63 | raising the fill version of an entry never turns it from served to refused, at any level |
| EngineRead.ServedReflectsOwnWrites | internal/engine/rows.go:47-82 | read-own-writes of the read path itself, with any steps between asking the pool and judging its answer: whatever is served reflects every write acknowledged to the session by then, home node or standby pool, with the window as the one exception |
| Cdc.Tailer.Freeze | internal/cdc/tailer.go:110-120 | the first failure fixes the frozen position; later ones do not move it |
| Cdc.Tailer.SetPosition | internal/cdc/tailer.go:240-245 | the position is the one given and there is something to save; what is frozen stays |
| Cdc.Tailer.TakeSave | internal/cdc/tailer.go:263-283 | what is handed to the store is the frozen position if there is one |
| Cdc.Retry | internal/cdc/tailer.go:296-329 | tries go on through every wait to the first that settles it, with the doubling, capped waits in between |
| Cdc.Tailer.Invalidate | internal/cdc/tailer.go:296-329 | an invalidation is delivered or the checkpoint is frozen, and nothing else changes |
| Cdc.BackoffIsExponential | internal/cdc/tailer.go:296-329 | the n-th wait is min(100 ms * 2^n, 2 s) |
| Cdc.StepKeepsInv | internal/cdc/tailer.go:174-283 | starts, deliveries, syncs, saves, crashes and refills keep: everything before the safe position is delivered |
| Cdc.AtLeastOnce | internal/cdc/tailer.go:174-283 | in every run, a usable row image between where the first checkpointed run started and the saved checkpoint was answered by the cache in some earlier step |
| Cdc.CheckpointsAdvance | internal/cdc/tailer.go:263-283 | saved checkpoints never move backwards, across restarts too |
| Cdc.RestartResumes | internal/cdc/tailer.go:174-200 | a start reads from the saved checkpoint, or from where the shard stands if there is none, with nothing frozen |
| Cdc.LastEndIsLast | internal/cdc/tailer.go:455-458 | that end is the last: no transaction ends after it in the stretch, and one ends there unless none did |
| Cdc.SavedIsLastSynced | internal/cdc/tailer.go:174-283 | in every run, what a save leaves is exactly the end of the last transaction its process had synced, or had synced before its first failed delivery |
| Cdc.SyncIsSaved | internal/cdc/tailer.go:240-283 | after a sync, if no delivery of the process failed, the next save written leaves the position just past that transaction |
| Cdc.FailedSaveIsNotRetried | internal/cdc/tailer.go:263-283 | after a save that failed the checkpoint stays what it was until the next sync, however often saving is attempted |
| Cdc.ReplayNeverLowers | internal/cdc/tailer.go:343-417 | no delivery, replay or refill lowers the version a cache slot knows |
| Cdc.DeliveredImagesStayVisible | internal/cdc/tailer.go:343-417 | after a delivery nothing older is served until eviction, and delivering again changes nothing |
| Cdc.CheckpointedImagesAreVisible | internal/cdc/tailer.go:263-329 | nothing older than an image behind the checkpoint is served for its key if the key was never evicted |
| Storage.Shard.GetRow | internal/storage/rows.go:36-64 | the fill version is sampled before the read; the row is the one stored; its version is folded into the clock; it fails exactly when the clock cannot be sampled |
| Storage.Shard.PutRow | internal/storage/rows.go:134-200 | succeeds exactly when max(max(clock, old version) + 1, this millisecond) fits in 64 bits, at that version; then the row is replaced, otherwise nothing is |
| Storage.Shard.DeleteRow | internal/storage/rows.go:230-270 | succeeds exactly when the row exists and such a version is left, at that version; deleting nothing is NotFound and still moves the clock |
| Storage.LockedIsExact | internal/storage/update.go:155-204 | one row over the budget is enough to know: under it, the locked rows are exactly the matching rows |
| Storage.LockedAnswerExists | internal/storage/update.go:164-172 | the locking read has an answer on every table, of at most one row more than the budget |
| Storage.HighestIsMaximum | internal/storage/update.go:168-204 | the version folded into the clock is the largest of the locked rows |
| Storage.Shard.ResolveAffected | internal/storage/update.go:168-204 | every locked row's version is below the clock afterwards, and all keys are returned |
| Storage.Shard.UpdateWhere | internal/storage/update.go:69-162 | succeeds exactly with a positive budget and a version left above the clock and every locked row, at that version. With other transactions changing anything but the locked rows in between: within budget exactly the rows that matched when locked are written, listed and dominated; over budget the rows matching at the write, with an empty, flagged list; an invalid budget changes nothing |
| Storage.ArgsInDeclaredOrder | internal/storage/update.go:206-233 | succeeds exactly when each declared column is given once, and each value goes to its own column whatever the request order |
| Storage.MatchesIsEquality | internal/storage/update.go:69-162 | each column of a predicate asks for equality and all of them hold; NULL matches nothing |
| Storage.AssignedColumns | internal/storage/update.go:69-162 | a write leaves the given columns as given and the others as they were, at its version |
| Engine.ExactWhenNotDegraded | internal/engine/rows.go:293-351 | with no shard degraded: keys reported, keys tombstoned, rows matching at lock time and rows written are the same set, each tombstone at its shard's version; a row that came to match later is left as it was |
| Engine.DegradedStillWrites | internal/storage/update.go:112-122 | over budget on a shard, every row matching at the write is written and nothing is listed |
| Engine.SentByShard | internal/engine/rows.go:310-340 | a tombstone was sent exactly for a key some shard listed, at that shard's version |
| Engine.UpdateRowsWhere | internal/engine/rows.go:293-351 | the shard loop succeeds exactly when the budget is positive and every shard has a version left, each shard at its own; outcome, tombstones and watermarks on success; the prefix of shards that committed on failure; a degraded list is empty, never partial; the token covers every shard, and the outcome names the highest version stamped, either way |
| Engine.TotalIsRowsWritten | internal/engine/rows.go:313-315 | the total reported is the number of rows written across the shards, each holding the assignment afterwards |
| SliceRing.RollTracks | internal/admission/sketch.go:204-226 | rolling keeps every slot equal to the log's slice of time, through the early return, the partial roll and the full reset |
| SliceRing.RecordTracks | internal/breaker/breaker.go:129-144 | recording keeps it so |
| SliceRing.RingCountsTheLog | internal/breaker/breaker.go:204-237 | the ring's total is the log's, cut at the oldest live slice, wherever the ring wraps |
| SliceRing.WindowBounds | internal/admission/sketch.go:204-226 | everything of age up to (buckets - 1) slices is counted and nothing of age buckets slices or more |
| Breaker.ShedRange | internal/breaker/breaker.go:178-202 | the shed fraction is a number unless nothing was counted and MinRequests is 0, and lies in [0, MaxShed] with MaxShed below 1 |
| Breaker.ShedsNothingIff | internal/breaker/breaker.go:178-202 | of a counted window nothing is shed if and only if there are fewer than MinRequests outcomes, failures are at or below the floor's share, or MaxShed is 0 |
| Breaker.ShedIsProportional | internal/breaker/breaker.go:178-202 | above the floor, shed * (1 - floor) * total = (failures - floor * total) * MaxShed |
| Breaker.ShedMonotone | internal/breaker/breaker.go:178-202 | more failures never shed less |
| Breaker.TotalFailureShedsMax | internal/breaker/breaker.go:107-111 | a node failing every request sheds exactly MaxShed, so probes get through |
| Breaker.FirstComplaint | internal/breaker/breaker.go:91-112 | the options are accepted exactly when none of the checks in order complains |
| Breaker.EmptyWindowRefusesIffNoThreshold | internal/breaker/breaker.go:147-160 | a call on an empty window is refused if and only if MinRequests is 0 |
| Breaker.LatchedWhileOnlyGated | internal/breaker/breaker.go:147-202 | from an empty window with MinRequests = 0, any number of calls that ask Allow are all refused and leave it empty |
| Breaker.UngatedOutcomeOpensTheLatch | internal/cache/client.go:491-516 | one call that does not ask ends that for as long as its outcome is in the window, exactly: gated calls go through after a success, and from MaxShed up after a failure; a window later the latch is shut again |
| Breaker.QuietWindowStopsShedding | internal/breaker/breaker.go:178-237 | a full window without failures sheds nothing |
| Breaker.Breaker.Roll | internal/breaker/breaker.go:214-237 | the in-place roll of the buckets refines the ring's |
| Breaker.Breaker.RecordOutcome | internal/breaker/breaker.go:129-144 | an outcome is appended to the log the counters stand for |
| Breaker.Breaker.CountAll | internal/breaker/breaker.go:204-212 | the loop sums the live buckets |
| Breaker.Breaker.ShedProbability | internal/breaker/breaker.go:156-161 | the fraction is that of the logged outcomes in the live slices, the one ShedsNothingIff and ShedIsProportional pin |
| Breaker.Breaker.Admit | internal/breaker/breaker.go:147-154 | asking rolls the window, decides on the counts and records nothing |
| Breaker.Breaker.Serve | internal/cache/client.go:315-352 | one call to a node refines the latch lemmas' step: only a call that was made records its outcome |
| Sketch.EstimateBrackets | internal/admission/sketch.go:144-161 | at least the key's true count over (buckets - 1) slices; at most the younger operations sharing its cell, in every hash row |
| Sketch.AloneIsExact | internal/admission/sketch.go:144-190 | only collisions in every row make it too large: a key whose residue no other key of the window has in some row is counted by its own operations |
| Sketch.Sketch.Roll | internal/admission/sketch.go:204-226 | the in-place roll clears exactly the expired buckets of both tables |
| Sketch.Sketch.RecordOp | internal/admission/sketch.go:112-131 | one operation is counted in its own table, every hash row, head bucket |
| Sketch.Sketch.EstimateTable | internal/admission/sketch.go:149-161 | the nested loops compute the sum of row minima, in 32 bits |
| Sketch.Sketch.Counts | internal/admission/sketch.go:134-142 | both estimates are bracketed as above by the log of operations |
| Lru.OrderIsMostRecent | pkg/sextant/trace.go:131-155 | the bounded list is the front of the list of all keys ever used, by last use |
| Lru.HeldIff | pkg/sextant/trace.go:131-155 | a key is held exactly when fewer than the bound of distinct keys were used since |
| Lru.SinceIsFromEntry | pkg/sextant/trace.go:131-155 | what is remembered of a key is the log from its latest entry on |
| Lru.VictimIsLeastRecent | pkg/consistency/session.go:94-112 | the one key pushed out was used less recently than every other held |
| SessionToken.Token.constructor | pkg/consistency/session.go:50-59 | an empty token; a non-positive cap is 64 |
| SessionToken.Token.Advance | pkg/consistency/session.go:65-92 | one advance refines one entry of the log; the empty shard is ignored |
| SessionToken.Token.EvictOldest | pkg/consistency/session.go:96-112 | the scan, in any map order, drops a least recently used shard and remembers it |
| SessionToken.LeastUsedIsLast | pkg/consistency/session.go:96-112 | and that shard is unique |
| SessionToken.Token.Merge | pkg/consistency/session.go:142-155 | merging advances each named shard once, in whatever order the map is walked |
| SessionToken.Token.Position | pkg/consistency/session.go:117-123 | known exactly for the most recently used shards up to the cap, with the largest version given since the shard entered |
| SessionToken.Token.Degraded | pkg/consistency/session.go:130-136 | touched and no longer held; held and evicted partition the shards touched, and at most the cap are held |
| SessionToken.AdvanceNeverRegresses | pkg/consistency/session.go:61-92 | no advance lowers a held watermark or touches another shard's |
| SessionToken.NothingEvictedWithinCap | pkg/consistency/session.go:50-92 | a session touching no more shards than its cap holds the highest version it was ever given, for each |
| SessionToken.MergeIsPointwiseMax | pkg/consistency/session.go:138-155 | within the cap, merging is the pointwise maximum, independent of map order |
| Tracer.Tracer.constructor | pkg/sextant/trace.go:115-128 | non-positive bounds take the defaults |
| Tracer.Tracer.Record | pkg/sextant/trace.go:131-155 | a record appends to the log the rings stand for |
| Tracer.Tracer.Trace | pkg/sextant/trace.go:161-179 | exactly the last EventsPerKey events since the key last came in, oldest first; nothing for an untracked key |
| Tracer.Tracer.TrackedKeys | pkg/sextant/trace.go:182-196 | the tracked keys are the KeysTracked most recently recorded distinct ones |
| Tracer.PushRings | pkg/sextant/trace.go:149-154 | the ring buffer holds the newest events through every wrap |
| Admission.NewPolicy | internal/admission/policy.go:74-88 | whatever is configured, the policy that results is usable; a usable configuration is kept as it is, and each unusable field takes its default |
| Admission.SameEvidenceSameDecision | internal/admission/policy.go:115-152 | when a decision moves a key, the same counts never move it back |
| Admission.DecisionByCounts | internal/admission/policy.go:115-164 | on enough evidence past the dwell, a key is cached exactly when its reads reach a fixed multiple of its writes, the evict multiple if already admitted and the admit multiple if not |
| Admission.DecisionFormula | internal/admission/policy.go:115-164 | the whole decision from the numbers: default under MinSamples, the state within MinDwell, else reads against a multiple of writes |
| Admission.DwellKeeps | internal/admission/policy.go:115-152 | a state younger than MinDwell stands, either way, unless the samples are too few |
| Admission.NewKeysServeTheirDwell | internal/admission/controller.go:109-130 | a key not in the table starts admitted and serves its dwell before the evidence counts |
| Admission.EvictedStaysOut | internal/admission/controller.go:85-130 | over every run, a key evicted less than MinDwell ago that stayed in the table is not readmitted on evidence |
| Admission.EvictionsAreSpaced | internal/admission/controller.go:85-130 | with DefaultAdmit and MinDwell positive, any two evictions of one key are at least MinDwell apart, over every run, through the bounded table and the too-few-samples path |
| Admission.SpacedIffDefaultAdmit | internal/admission/policy.go:115-152 | for every table size that promise holds if and only if DefaultAdmit is set |
| Admission.Controller.Explain | internal/admission/controller.go:85-106 | a call decides against the state its log implies and leaves the table in step with it |
| Admission.Controller.StateLocked | internal/admission/controller.go:109-130 | the state is moved to the front, or created admitted in place of the oldest; no other changes |
| Verifier.BehindIsOlder | pkg/sextant/verifier.go:292-307 | comparing versions, an entry is behind exactly when it is strictly older than the row; level or ahead is caught up |
| Verifier.BehindIsDifferent | pkg/sextant/tier.go:99-101 | comparing values, with both images present, behind exactly when the bytes differ and caught up exactly when they are equal |
| Verifier.FailedExactly | pkg/sextant/verifier.go:222-307 | a check fails exactly when a side did not answer, an adapter withheld what the tier needs, or a key behind has no shard; it finds the key gone exactly when both answered and one has no row |
| Verifier.BlameIsSupported | pkg/sextant/verify.go:126-182 | EVENTUAL is always blamed, STRONG never, SESSION exactly when versions and a watermark above the fill are known, BOUNDED exactly when versions and a window exceeded by more than the skew are; key, shard, difference and time behind are those observed |
| Verifier.MarkerStartsTheStreak | pkg/sextant/verifier.go:316-335 | the marker is the time of the first check of the current unbroken streak, absent exactly when there is none |
| Verifier.ReportedExactlyWhenLate | pkg/sextant/verifier.go:222-285 | a violation is reported if and only if the check found the key behind and an unbroken streak began more than the bound earlier |
| Verifier.ReportCarries | pkg/sextant/verifier.go:253-285 | a report carries the key, shard and difference of its check and the time since the first check of the streak |
| Verifier.CatchUpRestarts | pkg/sextant/verifier.go:232-252 | a catch-up, a miss or a missing row restarts the timing |
| Verifier.SamplingBlamesEventualOnly | pkg/sextant/verifier.go:259-266 | the sampling loop knows no watermark and no window, so it blames EVENTUAL alone |
| Verifier.Verifier.Check | pkg/sextant/verifier.go:222-285 | one check reports its verdict, which BehindIsOlder, BehindIsDifferent, ReportedExactlyWhenLate and ReportCarries pin, and keeps every key's marker right; a failed one changes nothing |
| Verifier.Verifier.RunOnce | pkg/sextant/verifier.go:197-220 | a round reports the verdict of every key up to the batch and counts them |
| HashRing.NewRing | internal/hashring/ring.go:54-99 | the ring holds exactly the placements of the SET of names, in order, ties by name |
| HashRing.VirtualNamesAreDistinct | internal/hashring/ring.go:77-84 | no two virtual nodes hash the same text, whatever bytes the node names hold |
| HashRing.AllPointsPlaced | internal/hashring/ring.go:77-84 | a node has all its 256 points if and only if the hash tells its 256 virtual names apart |
| HashRing.Lookup | internal/hashring/ring.go:103-114 | the answer is the owner of the key's clockwise successor, or no-nodes on an empty ring |
| HashRing.Search | internal/hashring/ring.go:109-112 | the binary search finds the first point at or after the hash |
| HashRing.OneOwner | internal/hashring/ring.go:101-114 | every key has exactly one owner, a member of the set |
| HashRing.OrderAndRepeatsDoNotMatter | internal/hashring/ring.go:51-64 | rings over the same set in any order with any repeats route alike |
| HashRing.OnlyItsKeysMove | internal/hashring/ring.go:31-41 | a node joining or leaving changes the owner only of keys it gains or held |
| HashRing.JoinerTakesWhatItPrecedes | internal/hashring/ring.go:85-92 | a key goes to a joining node exactly when one of its placements precedes the old owner's, ties included |
| RowCodec.RowRoundTrip | internal/schema/row.go:161-247 | a row encodes if and only if it has the arity and nullability of its descriptor, and then decodes to itself |
| RowCodec.EncodingIsInjective | internal/schema/row.go:161-198 | two rows with one encoding are one row |
| RowCodec.DecodesToAFullRow | internal/schema/row.go:205-247 | any bytes are refused or give a full row with no NULL in a NOT NULL column, whose encoding is no longer and decodes the same |
| RowCodec.NothingFollowsARow | internal/schema/row.go:243-247 | no accepted encoding is a proper prefix of another |
| RowCodec.LengthRoundTrip | internal/schema/row.go:194-196 | every 64-bit length reads back, whatever follows |
| RowCodec.EncodingLayout | internal/schema/row.go:150-198 | the layout byte by byte: format 1, column i's NULL bit at bit i mod 8 of byte 1 + i / 8, the values after |
| RowCodec.EncodeRow | internal/schema/row.go:161-198 | the loops compute the encoding, the bitmap set bit by bit, with the first offending column reported |
| RowCodec.DecodeRow | internal/schema/row.go:205-247 | the loop computes the decoding, with the same errors in the same order |
| UintText.ParseIsRightIffItFits | internal/schema/row.go:50-69 | a digit string parses to its value if and only if that is below 2^64 |
| UintText.OverflowMissed | internal/schema/row.go:62-65 | 30000000000000000000 is accepted, with a wrapped value |
| UintText.UintRoundTrip | internal/schema/row.go:31-69 | Uint64 inverts Uint |
| UintText.Uint64 | internal/schema/row.go:50-69 | the loop computes the parse, 64-bit wrap-around included |
| UintText.AppendUint | internal/schema/row.go:127-139 | the digits laid backwards in a twenty-byte buffer are the decimal numeral |
| KeyGrammar.EscapeRoundTrip | internal/schema/key.go:141-180 | unescaping inverts escaping on every byte string, and an escaped value holds no separator |
| KeyGrammar.PlainEscapesToItself | internal/schema/key.go:17-20 | a value is its own escape if and only if it has no special byte |
| KeyGrammar.EscapedIsPrintable | internal/schema/key.go:137-152 | an escaped value is printable without a separator, exactly the special bytes are escaped |
| KeyGrammar.HexDigitsReadBack | internal/schema/key.go:182-193 | each of the sixteen digits reads back, the letters in either case, and nothing else is a digit |
| KeyGrammar.IdentifierByByte | internal/schema/schema.go:119-125 | which byte may start a table name and which may follow, up to 64 |
| KeyGrammar.KeyRoundTrip | internal/schema/key.go:29-37 | every key with a valid table and one or more values of any bytes parses back to itself |
| KeyGrammar.RenderingIsInjective | internal/schema/key.go:11-13 | two keys are never rendered alike |
| KeyGrammar.RenderedIsNormalForm | internal/schema/key.go:111-133 | rendering whatever was parsed is a normal form that names the same key |
| KeyGrammar.Render | internal/schema/key.go:29-37 | the loops render the key |
| KeyGrammar.WriteEscaped | internal/schema/key.go:141-152 | the loop escapes byte by byte |
| KeyGrammar.Unescape | internal/schema/key.go:154-180 | the loop and its shortcut compute the unescaping, errors included |
| KeyGrammar.ParseKey | internal/schema/key.go:111-133 | cut, identifier, split and unescape, with the first error |
| KeyGrammar.FitsExactlyTheCanonical | internal/schema/key.go:222-229 | an unsigned key column takes exactly the canonical numerals of its range |
| KeyGrammar.FitsExactlyTheCanonicalSigned | internal/schema/key.go:230-234 | and a signed one those of 64-bit integers |
| SqlScan.TopLevelWhere | internal/proxy/rewrite.go:57-133 | on every string the one-pass scan finds w exactly when the statement lexes and w is the only standalone WHERE outside literals and parentheses |
| SqlScan.ForbiddenIsText | internal/proxy/rewrite.go:87-109 | outside literals exactly ";", "#", "--" and the opening of a block comment are refused |
| SqlScan.WhereIsAWord | internal/proxy/rewrite.go:119-133 | the keyword is the five letters in either case, with no identifier byte on either side |
| SqlScan.Chain | internal/proxy/rewrite.go:69-109 | lexing may be cut at any place outside literals |
| SqlSplice.SplicedOwn | internal/proxy/rewrite.go:51-54 | the spliced text scans again to the same WHERE, at the start of the same tail |
| SqlSplice.SplicedPlaceholders | internal/proxy/server.go:404-406 | every placeholder is kept, in order: before the cut in place, after it moved with the tail |
| SqlSplice.BlankBoundary | internal/proxy/rewrite.go:54-54 | the white space trimmed before WHERE is outside all literals |
| SqlSplice.AssignmentAddsOne | internal/proxy/rewrite.go:51-54 | the inserted text, read back, sets the column to itself plus one |
| SqlSplice.RewriteWithVersionBump | internal/proxy/rewrite.go:25-55 | bumped exactly when it is an update with a WHERE of its own that does not assign the version yet; the text differs by the assignment, which adds one, and trimmed white space only |

## Left out

- gRPC, protobuf, configuration, the command-line tools, metrics, packaging, the web site and the benchmarks: plumbing.
- MySQL, Redis and canal internals: contracts only. A locking SELECT answers as LIMIT and FOR UPDATE say, a script is
  atomic, and a transaction's row events come before its position event. A binlog position is an index.
- Batch reads and the version 1 API: the same steps, several keys at a time.
- Guarantees.ReadOwnWrites: fingerprints are the same for all engines of a run; a cached row of another shape reads as
  a miss in CacheNode only.
- Guarantees.VersionDominance: not claimed for a write that locked no row: two concurrent inserts of one missing key and
  an insert after another engine's delete, where it is false (Limits), nor for the rows of a conditional write over
  budget, where the code observes only the first ones.
- Storage.Shard.UpdateWhere: other transactions change the table between the two statements, and the clock only before
  or after them.
- Cdc.DeliveredImagesStayVisible: for a DELETE event only delivery is meant; it carries the row's own old version, which
  the compare-and-set does not apply over the entry of that version.
- The acknowledgement of a conditional write that matched no row on a shard: the code still advances the token there.
  The protocol acknowledges writes that wrote something; a higher watermark only rejects more entries.
- Writes made through the SQL proxy: they stamp old + 1 without the clock and are outside the protocol model.
- The proxy's classification of statements and its patterns for UPDATE, DELETE and an existing version assignment:
  parameters of SqlSplice.RewriteWithVersionBump, which therefore does not claim that every update is bumped. Trimming
  white space around the statement comes before it.
- How many readers reach the origin for stale hits and negative fills: the code bounds neither.
- SLO arithmetic on what the verifier observes, and the trace it attaches to a violation.
- Breaker.Breaker.constructor: a window shorter than one nanosecond per bucket is excluded, because rolling then divides
  by zero; the same for the sketch. Breaker.Stats, which counts before it rolls, is not modelled.
- Sketch.EstimateBrackets: counters are 32 bits and wrap; the bracket is claimed while fewer than 2^32 operations are in
  the window.
- Tracer.Tracer.Record: a key's ring is a value in a map, so sharing of ring buffers between keys is not modelled.
- Engine.UpdateRowsWhere: the token is the plain map of its watermarks; SessionToken shows what the bounded token keeps.
- Storage.Shard.UpdateWhere: arguments arrive already matched to columns; lining them up is Storage.ArgsInDeclaredOrder.
- Hash quality, the even spread of keys, floating-point rounding and formatting, and sleeping: fractions are real numbers,
  clocks, random draws and waits are parameters.
