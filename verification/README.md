# kioshun, modelled and verified

kioshun is a sharded in-memory cache with a peer-to-peer replication layer. This
project models its state-changing core in Dafny and proves what holds over every run.

- **Hinted handoff** (`Heap.dfy`, `HandoffSpec.dfy`, `HandoffBackoff.dfy`, `HandoffLaws.dfy`,
  `HintQueue.dfy`): the per-peer queue of undelivered writes. A value-level specification carries the theorems; a class with
  list elements, heap positions and a key index is proved equal to it.
- **Heavy hitters** (`SpaceSaving.dfy`): the Space-Saving counter and its accuracy theorem.
- **The cache** (`Lfu.dfy`, `CacheSpec.dfy`, `Shard.dfy`, `Cache.dfy`, `ShardedCache.dfy`): the LFU bucket list,
  a shard with its intrusive list under four eviction policies, runs of all shards, and the cache object
  whose shards recycle nodes through one pool.
- **Replication** (`Hlc.dfy`, `Lww.dfy`, `Cluster.dfy`, `Replication.dfy`): the hybrid logical clock, a last-writer-wins
  replica, clusters of such replicas and the write-concern protocol as a state machine.
- **Placement and backfill** (`Rendezvous.dfy`, `Paging.dfy`, `Digests.dfy`, `Backfill.dfy`): weighted rendezvous
  hashing, paging by hash cursor, XOR digests, and a bucket's whole exchange.
- **Admission** (`Sketch.dfy`): the packed 4-bit frequency sketch, on bit-vectors.
- **HTTP invalidation** (`Paths.dfy`, `PatternIndex.dfy`): the path trie and pattern invalidation.

Clock readings, hash functions, codecs, map iteration order, the admission verdict and
failures of the network are parameters or left open, so every result holds for all of them.
An operation under a lock is one atomic step.

Several statements that the code or its comments suggest do not hold on all inputs. Each
comes with the exact condition under which it does:

- the byte change reported for an undone replacement has the wrong sign (`HandoffSpec.BytesDeltaExactIff`);
- the clock is strictly monotonic, as the comment at cluster/hlc.go:56 says, only while its 48-bit
  milliseconds last (`Hlc.NextRisesIff`, `Hlc.ObserveThenNextRisesIff`);
- a failed bulk write may have had an effect (`Lww.FailedBulkChangesNothingIff`), and a backfilled batch
  may lower versions or run ahead of the clock (`Lww.BatchRisesIff`, `Lww.BatchBehindIff`);
- paging is complete exactly when no hash is zero and no group of keys with one hash is split between
  pages (`Paging.PagingCompleteIff`), and the running digest is right for owned keys not yet held
  (`Digests.RunningDigestIff`); together they say when a backfilled bucket is in sync (`Backfill.BucketSyncedIff`);
- a retried hint waits for its backoff unless it replaces an older hint in the FIFO
  (`HandoffBackoff.EnqueueKeepsDueIff`);
- a delete is confirmed by an owner only if the owner stored the key (`Lww.DeleteAnswer`), so deleting a
  key no remote owner has never meets a write concern that needs one
  (`Replication.DeleteOfAbsentKeyNeverConfirmed`, `Replication.ConfirmedIff`).

`dafny verify dfyconfig.toml` checks the whole project.

## Model

| member | source | states |
|---|---|---|
| `BinaryHeap.RootIsMinimal` | cluster/handoff.go:42-67 | In heap order the root is due no later than any other hint. |
| `BinaryHeap.PushOrders` | cluster/handoff.go:42-58 | Pushing keeps heap order; with PushKeeps it adds exactly the pushed element. |
| `BinaryHeap.PopOrders` | cluster/handoff.go:59-67 | Popping the root keeps heap order; with PopKeeps it loses exactly the root. |
| `BinaryHeap.DeleteOrders` | cluster/handoff.go:96-107 | Removing from the middle, with its sift in both directions, keeps heap order. |
| `BinaryHeap.DeleteKeeps` | cluster/handoff.go:96-107 | Removing from the middle loses exactly that element. |
| `HandoffSpec.EnqueueKeepsWellFormed` | cluster/handoff.go:174-295 | Every enqueue, for all three drop policies and every branch, leaves one hint per key in one container, heap order and both caps intact, and reports the exact change in the number of hints. |
| `HandoffSpec.EnqueueContents` | cluster/handoff.go:174-295 | An accepted hint is the one queued for its key (with the inherited backoff if it replaced a delayed one); a rejected one leaves the queued hint alone; no other key gains a hint. |
| `HandoffSpec.InsertContents` | cluster/handoff.go:257-294 | A new key is queued exactly when accepted, as offered; other keys gain nothing. |
| `HandoffLaws.StaleRefused` | cluster/handoff.go:178-188 | A hint past the TTL or its own expiry, and one not newer than the queued hint of its key, is refused and changes nothing. |
| `HandoffLaws.MakeRoomTrims` | cluster/handoff.go:134-172 | Room is made from the front of the FIFO, then, once the protected hint or nothing is at its front, from the heap by earliest time, never the protected hint, and no more goes than needed. |
| `HandoffLaws.NewReadyTakenIff` | cluster/handoff.go:257-294 | A hint of a new key that is due is taken if and only if the caps have room for one more, or under DropOldest allow it alone; it then is last in the FIFO and what went is as MakeRoomTrims says; otherwise it changes nothing, or under DropOldest leaves the queue empty. |
| `HandoffLaws.NewDelayedTakenIff` | cluster/handoff.go:257-294 | A hint of a new key that must wait is taken if and only if the caps have room for one more, or under DropOldest allow it with the hints due after it; the outcome of both verdicts is stated. |
| `HandoffLaws.NewDelayedTakenExactly` | cluster/handoff.go:257-294 | If nothing else is due at that very time, these are the hints due no earlier, so a caller can tell the verdict beforehand. |
| `HandoffLaws.NewerReadyTakenIff` | cluster/handoff.go:185-255 | A newer hint of a key in the FIFO takes its place if and only if the caps have room for the difference, or under DropOldest allow it with the hints behind it; otherwise the queued hint stays, under DropOldest with only those behind it. |
| `HandoffLaws.NewerDelayedTakenIff` | cluster/handoff.go:185-255 | Likewise for a key that waits, with the hints due after it; the newer hint inherits time and tries. |
| `HandoffLaws.NewerDelayedTakenExactly` | cluster/handoff.go:185-255 | If nothing else is due at that very time, the verdict can be told beforehand. |
| `HandoffLaws.PopTakesFirstLive` | cluster/handoff.go:298-319 | The due hints join the FIFO by rising time; of the FIFO and these the first that has not lapsed is returned, and exactly it and the lapsed ones before it are gone. |
| `HandoffSpec.CoalesceCounts` | cluster/handoff.go:185-255 | Replacing a queued hint keeps the queue well formed; the item change is exact, and the byte change is exact unless the replacement is undone, where it has the opposite sign. |
| `HandoffSpec.CoalesceContents` | cluster/handoff.go:185-255 | After a coalesce the key is still queued, with the new hint if accepted and the previous one otherwise. |
| `HandoffSpec.RoomIffCoreFits` | cluster/handoff.go:128-172 | Dropping makes room exactly when the part that may not be dropped (the hint itself and what it shields) fits the caps. |
| `HandoffSpec.BytesDeltaExactIff` | cluster/handoff.go:210-242 | The reported byte change is the net change if and only if the call is not an undone replacement after something was dropped: line 237 returns the dropped bytes with the wrong sign. |
| `HandoffSpec.MisreportExample` | cluster/handoff.go:237 | A concrete queue of 90 bytes and a hint for which 60 bytes are dropped, 30 remain and a growth of 60 is reported. |
| `HandoffSpec.CoreOfReady` | cluster/handoff.go:128-172 | For a protected ready hint the undroppable part is that hint and the ready hints behind it. |
| `HandoffSpec.CoreInHeap` | cluster/handoff.go:149-172 | A protected delayed hint shields itself and all hints due later, and none due earlier. |
| `HandoffSpec.CoreOfWaiting` | cluster/handoff.go:128-172 | For a protected delayed hint that shares its due time with no other, it is the delayed hints due no earlier: their number and total size. |
| `HandoffSpec.MakeRoomDropsReadyFirst` | cluster/handoff.go:128-172 | Room is made from the front of the FIFO; a delayed hint goes only once no ready hint may be dropped. |
| `HandoffSpec.MakeRoomDropsEarliest` | cluster/handoff.go:149-172 | A delayed hint that is dropped was due no later than any delayed hint that is kept. |
| `HandoffSpec.MoveDueShape` | cluster/handoff.go:109-119 | Exactly the due hints join the back of the FIFO, behind what was there. |
| `HandoffSpec.PopReadyKeepsWellFormed` | cluster/handoff.go:298-319 | A pop keeps the queue well formed and adds nothing. |
| `HandoffSpec.PopReadyReturns` | cluster/handoff.go:298-319 | A popped hint has not expired, was ready already or its backoff is over, and has left the queue; no due hint stays in the heap; none is returned only if none is ready. |
| `HandoffSpec.PopReadyLosesOnlyExpired` | cluster/handoff.go:306-318 | Whatever a pop removes without returning it had expired. |
| `HandoffSpec.RunKeepsWellFormed` | cluster/handoff.go:174-319 | Every run of offers, retries and pops, with any clock readings, keeps one hint per key, heap order and both caps. |
| `HandoffSpec.StepVersions` | cluster/handoff.go:185-188 | A step never lowers the version queued for a key that stays queued. |
| `HandoffSpec.VersionNeverFalls` | cluster/handoff.go:174-324 | While a key stays queued, over any run including retries of popped hints, its version never falls. |
| `Handoff.HintQueue.constructor` | cluster/handoff.go:82-94 | A new queue is valid, empty and owns no element or item. |
| `Handoff.DelayHeap.PushItem` | cluster/handoff.go:49-58 | The heap with back-pointers pushes as the heap of hints does and keeps every heapIndex exact. |
| `Handoff.DelayHeap.PopItem` | cluster/handoff.go:49-67 | Likewise for the minimum; the popped item has heapIndex -1. |
| `Handoff.DelayHeap.RemoveAt` | cluster/handoff.go:96-107 | Likewise for removal by position. |
| `Handoff.HintQueue.RemoveItem` | cluster/handoff.go:96-107 | Takes the item out of whichever container holds it and out of the counts and the key index; the rest is untouched. |
| `Handoff.HintQueue.MoveDue` | cluster/handoff.go:109-119 | Promotes exactly what the specification promotes. |
| `Handoff.HintQueue.DropOldest` | cluster/handoff.go:128-172 | Drops one hint, never the protected one, and reports its size. |
| `Handoff.HintQueue.DropUntilFits` | cluster/handoff.go:220-241 | The dropping loop ends with the specification's queue, tells whether it fits, and adds up what was dropped. |
| `Handoff.HintQueue.Enqueue` | cluster/handoff.go:174-295 | The pointer-level enqueue returns the specification's queue, verdict and deltas, and keeps index, list elements, heap positions and counters consistent. |
| `Handoff.HintQueue.PopReady` | cluster/handoff.go:298-319 | The pointer-level pop returns the specification's hint and queue; the returned item is in no container. |
| `Handoff.HintQueue.ScheduleRetry` | cluster/handoff.go:541-546 | A retry is an enqueue of the hint with one more try and the new time; the queue reaches no other item than before. |
| `Handoff.Serve` | cluster/handoff.go:174-324 | A client that builds a queue and submits, takes and retries hints in any order leaves the queue of the specification's run of these calls. |
| `HandoffSpec.TrafficOffers` | cluster/handoff.go:541-546 | The calls of such a client are offers with positive sizes and pops, so all theorems about runs apply to them. |
| `HandoffBackoff.PopRespectsBackoffIff` | cluster/handoff.go:298-319 | A popped hint's backoff is over if and only if the first unexpired ready hint was due or there was none. |
| `HandoffBackoff.EnqueueKeepsDueIff` | cluster/handoff.go:190-208 | If all ready hints are due, they are after an enqueue if and only if it does not let a hint that is not due replace an older ready one. |
| `HandoffBackoff.RunRespectsBackoff` | cluster/handoff.go:174-319 | In any run whose clock does not go back and in which no offer does that, no hint is taken before it is due. |
| `HandoffBackoff.JumpExample` | cluster/handoff.go:191-201 | A retry scheduled for time 100 replaces an older ready hint at time 0 and is taken at once. |
| `SpaceSaving.AddSat64` | cluster/heat.go:158-164 | The wrap-around test computes addition saturating at 2^64 - 1. |
| `SpaceSaving.Counter.constructor` | cluster/heat.go:55-63 | Holds nothing and has room for at least one key. |
| `SpaceSaving.Counter.SiftUp` | cluster/heat.go:115-124 | Restores heap order upwards and keeps the key index exact. |
| `SpaceSaving.Counter.SiftDown` | cluster/heat.go:128-148 | Restores heap order downwards and keeps the key index exact. |
| `SpaceSaving.Counter.Add` | cluster/heat.go:67-100 | Heap and index implement the Space-Saving step: grow a tracked key, insert while there is room, else replace a key of globally minimal count. |
| `SpaceSaving.StepStaysAccurate` | cluster/heat.go:67-100 | One step keeps all Space-Saving guarantees, whichever minimum is replaced. |
| `SpaceSaving.SpaceSavingTheorem` | cluster/heat.go:67-100 | For every stream of total weight below 2^64: counts sum to the stream, no tracked key is under-counted or over-counted by more than the minimum, no untracked key outweighs the minimum, and counts are exact while there is room. |
| `SpaceSaving.HeavyHittersAreTracked` | cluster/heat.go:67-100 | Every key with more than a 1/k share of the stream is tracked. |
| `SpaceSaving.CountAll` | cluster/heat.go:55-100 | Counting any stream with a total weight below 2^64 on the class leaves counts with all Space-Saving guarantees. |
| `Lfu.LfuList.constructor` | lfu.go:21-30 | An empty circular list with its sentinel. |
| `Lfu.LfuList.EnsureIndex` | lfu.go:111-130 | Returns the bucket of a frequency, splicing in a new one in ascending position. |
| `Lfu.LfuList.RemoveFreqNode` | lfu.go:143-147 | Unlinks an empty bucket from list and map. |
| `Lfu.LfuList.Add` | lfu.go:33-40 | Refines setting the item's count to 1; buckets stay ascending, non-empty and exactly indexed. |
| `Lfu.LfuList.Increment` | lfu.go:43-71 | Refines adding 1 to the item's count, or counting it as new. |
| `Lfu.LfuList.Remove` | lfu.go:96-108 | Refines forgetting the item's count. |
| `Lfu.LfuList.RemoveLFU` | lfu.go:75-93 | Returns and forgets an item whose count is minimal over the whole index; null only if it is empty. |
| `CacheSpec.StepWellFormed` | cache.go:211-520 | Every operation keeps list, map and counts on the same keys, each once, and the shard within its cap. |
| `CacheSpec.RunWellFormed` | cache.go:211-520 | So in every reachable state. |
| `CacheSpec.HoldsLastWrite` | cache.go:327-487 | In every reachable state, what a shard holds for a key is what was last written for it, and was written after the key's last Delete and the last Clear, despite eviction, refusal and cleanup. |
| `CacheSpec.StepKeeps` | cache.go:211-520 | No operation takes a held entry away except a Delete of its key, a Clear, a get, Exists or cleanup after its expiry, or a write of a new key to a full shard whose victim it is, and then it alone goes; entries not overwritten stay as they are. |
| `CacheSpec.StepDrops` | cache.go:211-520 | Delete, Clear and a get, Exists or cleanup after its expiry do take an entry away. |
| `CacheSpec.StepHolds` | cache.go:327-399 | A written key is held with what was written, unless its Set was refused under AdmissionLFU by a full shard, which then stays as it was. |
| `CacheSpec.HeldIff` | cache.go:211-520 | Over every run a shard holds a key if and only if it was written, neither deleted nor cleared since, and not lost by expiry, eviction or refusal since that write. |
| `CacheSpec.OrderedByFronting` | shard.go:43-85 | Over any run the list is sorted by the last move to the front: last hit or write under LRU, insertion otherwise. |
| `CacheSpec.VictimIsOldest` | eviction.go:23-106 | The victim under LRU is the key whose last touch is oldest, under FIFO the one inserted first. |
| `CacheSpec.UsesAreCounted` | cache.go:284-287 | Under LFU the count kept for a cached key is the number of uses since its last write. |
| `CacheSpec.LfuVictimIsLeastUsed` | eviction.go:54-78 | So the LFU victim is a least used key. |
| `CacheSpec.HeatIsRecorded` | cache.go:288-290 | Under AdmissionLFU the frequency and last access kept for a cached key are those of its last write, the hits since then and the cleanups that halved it. |
| `CacheSpec.AdmissionVictimIsColdest` | eviction.go:114-145 | So in every reachable state the AdmissionLFU victim is the least frequent, then least recently used, of five keys, or of all if there are no more. |
| `Shards.Sentinels` | shard.go:34-40 | Two linked sentinels make an empty list. |
| `Shards.Shard.constructor` | cache.go:165-171 | A new shard is valid and empty. |
| `Shards.Shard.Link` | shard.go:43-51 | Splices a node in after the head; all others keep their order. |
| `Shards.Shard.Unlink` | shard.go:54-64 | Splices a node out; all others keep their order. |
| `Shards.Shard.MoveToHead` | shard.go:67-85 | Moves the key to the front; all others keep their order. |
| `Shards.Shard.ViewWellFormed` | shard.go:34-85 | The nodes of the list are exactly the map's nodes, and the LFU index counts exactly these. |
| `Shards.Shard.Get` | cache.go:211-309 | Returns the stored entry exactly if it is present and not expired (its expiry is 0 or not before now), drops it if expired, and otherwise counts the use by policy; dropped nodes go to the pool and no pooled node is reachable. |
| `Shards.Shard.Exists` | cache.go:490-520 | True exactly for a present, unexpired key; an expired one is dropped; nothing else changes. |
| `Shards.Shard.Delete` | cache.go:439-463 | Removes the key and tells whether it was there. |
| `Shards.Shard.Set` | cache.go:327-399 | Overwrites, inserts, or evicts one victim of the policy (under AdmissionLFU the coldest of five keys) and inserts; under AdmissionLFU a full shard takes the newcomer exactly if it is admitted, and otherwise stays as it was; nodes come from the shard, the pool or are new. |
| `Shards.Shard.Import` | snapshot.go:58-94 | Overwrites, or evicts victims of the policy, AdmissionLFU's sample minimum included, until there is room, from any fill level, and inserts; never refused; nodes as for Set. |
| `Shards.Shard.Apply` | cache.go:211-520 | Every operation is a step of the specification with its answer, only a new key of a full AdmissionLFU shard is refused and only if not admitted, and nodes move only between shard and pool. |
| `CacheSpec.EvictsWrites` | snapshot.go:64-75 | From within the cap the evicting loop of an import removes at most one victim, so the import is a write that is never refused. |
| `Shards.Shard.EvictLast` | eviction.go:23-50 | LRU and FIFO evict the last node and recycle it; only an empty shard fails. |
| `Shards.Shard.EvictLFU` | eviction.go:54-78 | LFU evicts a key of minimal count. |
| `Shards.Shard.PickVictim` | eviction.go:114-145 | The coldest (least frequent, then least recent) of a sample of keys of the configured size, or of all if fewer. |
| `Shards.Shard.Evict` | eviction.go:161-176 | Every policy evicts exactly one of its victims unless the shard is empty: the last of the list, a least used key, or the coldest of five keys. |
| `Shards.Shard.Cleanup` | shard.go:90-121 | Drops exactly the keys with an expiry before now; the others keep their order, entries and counts, and under AdmissionLFU their frequencies are halved, but not below one. |
| `Shards.Shard.Clear` | cache.go:466-487 | Empties the shard and gives every node to the pool. |
| `Caches.NextPowerOf2IsLeast` | internal/mathutil/mathutil.go:7-12 | The result is a power of two that covers the argument, and the least such. |
| `Caches.Sizing` | cache.go:120-154 | A power of two of shards; with a size limit each shard holds at least one entry, all together at most the limit and short of it by less than one entry per shard; fewer shards than asked for only if twice as many would not fit. |
| `Caches.RunSharded` | cache.go:205-208 | In every reachable state each shard is well formed, within its cap and holds only keys hashed to it. |
| `Caches.SizeNeverExceedsMax` | cache.go:366-398 | For every policy, shard count and interleaving of Set, Import, get, Exists, Delete, cleanup and Clear, the number of held keys never exceeds MaxSize. |
| `Caches.CacheHoldsLastWrite` | cache.go:211-487 | Whatever any shard holds for a key is what was last written for it through the whole cache, after the key's last Delete and its shard's last Clear. |
| `Caches.ShardRun` | cache.go:205-208 | What happens at one shard of a cache is a run of that shard, so the theorems about shards hold of every shard. |
| `Caches.CacheStepHeld` | cache.go:211-520 | An operation on one key leaves what the cache holds for every other key as it is, unless it writes a new key to a full shard and the other is the victim. |
| `ShardedCaches.Operate` | cache.go:114 | One operation on one shard leaves every other shard, and every node, sentinel and bucket it reaches, untouched; nodes move only between that shard and the pool they all share, and all stay apart. |
| `ShardedCaches.MakeShards` | cache.go:165-196 | New shards reach disjoint objects. |
| `ShardedCaches.Cache.constructor` | cache.go:120-196 | A new cache is sized within its limit, empty, and its shards share one pool and nothing else. |
| `ShardedCaches.Cache.Perform` | cache.go:205-208 | Every operation on the objects is a step of the recorded run, with its answer, and keeps all shards apart from each other and from the pool. |
| `ShardedCaches.Cache.Get` | cache.go:301-309 | A hit is what was last written for the key, not deleted or cleared since, with no expiry or one not before now; a held key is missed if and only if its expiry is before now, and then it alone is dropped. |
| `ShardedCaches.Cache.Set` | cache.go:327-399 | The entry is the last written, and held; other keys keep what they have, except one victim of a full shard; under AdmissionLFU a new key that is not admitted to a full shard changes nothing. |
| `ShardedCaches.Cache.Exists` | cache.go:490-520 | True exactly for a held key with no expiry or one not before now; an expired one is dropped, and nothing else changes. |
| `ShardedCaches.Cache.Delete` | cache.go:439-463 | Tells whether the key was held, removes it and leaves every other key as it was. |
| `ShardedCaches.Cache.Import` | snapshot.go:58-94 | The items become steps of the run in order, each at its own shard; the last one is held afterwards. |
| `ShardedCaches.Cache.Cleanup` | cache.go:623-633 | Exactly the keys with an expiry before now are gone; the others are kept and aged. |
| `ShardedCaches.Cache.Clear` | cache.go:466-487 | Every shard is emptied. |
| `ShardedCaches.Cache.Size` | cache.go:545-551 | Adding up the shards' counters gives the number of keys held, which never exceeds MaxSize. |
| `Hlc.UnpackPack` | cluster/hlc.go:107-122 | Unpacking a version gives back its fields up to their widths. |
| `Hlc.NodesNeverCollide` | cluster/hlc.go:26-30 | Versions of nodes that differ in the low 8 bits never collide. |
| `Hlc.HybridClock.Next` | cluster/hlc.go:34-53 | The method is the clock function; it returns the packed new state. |
| `Hlc.HybridClock.Observe` | cluster/hlc.go:57-104 | The four-way switch with 16-bit sequence arithmetic is the observe function. |
| `Hlc.NextIsLamport` | cluster/hlc.go:34-53 | On ticks (milliseconds times 256 plus sequence) Next is the larger of the next tick and the wall clock, whatever the wall clock says. |
| `Hlc.ObserveIsLamport` | cluster/hlc.go:57-104 | Observe is the same with the remote version as one more reading. |
| `Hlc.NextRisesIff` | cluster/hlc.go:32-53 | With a 48-bit wall clock Next yields a larger version if and only if the last tick is not used up. |
| `Hlc.ObserveThenNextRisesIff` | cluster/hlc.go:55-104 | Next after Observe exceeds the observed version and the clock before it if and only if neither is within two ticks of the end of the range. |
| `Hlc.LastTickFails` | cluster/hlc.go:106-110 | One observed version leads to the last tick, after which Next falls. |
| `Hlc.StaysInRange` | cluster/hlc.go:34-104 | Each event moves the clock at most one tick past all readings so far. |
| `Hlc.IssuedExceedsEarlier` | cluster/hlc.go:34-104 | In any run with backward clock readings allowed, each issued version exceeds every version issued or observed before. |
| `Lww.Node.RpcSet` | cluster/node.go:796-881 | The handler, check by check, is the replica function: state and answer. |
| `Lww.Node.RpcDel` | cluster/node.go:964-1003 | Likewise for deletes. |
| `Lww.Node.RpcSetBulk` | cluster/node.go:885-961 | If all items are sound it equals applying them one by one; otherwise it answers false, keeps what it recorded for the items before the unsound one, and stores nothing. |
| `Lww.Node.Write` | cluster/client.go:244-301 | A local Set or Delete takes the next version; the primary owner stores it and records the version. |
| `Lww.ApplyJoins` | cluster/node.go:839-875 | An acceptable message replaces its key's value and version exactly if it is not older, and touches no other key. |
| `Lww.AppliedIsNewest` | cluster/node.go:839-875 | After any messages a key's value and version are those of its newest message, or the initial ones if newer than all. |
| `Lww.Convergence` | cluster/node.go:796-1003 | Replicas that agree on a key and take the same set of valid Set and Delete messages, in any order and with any repetition, agree on its value and version, if a key and version determine the operation. |
| `Lww.TiesDiverge` | cluster/node.go:845-851 | That condition is needed: two sets with one version, in either order, agree if and only if they set the same thing. |
| `Lww.SetHandled` | cluster/node.go:796-881 | A set is answered OK exactly if key and value are within the limits, decompress and decode, or a newer version is known; in all cases the new store, version and clock are stated. |
| `Lww.DelHandled` | cluster/node.go:964-1003 | A delete that cannot be read or is older changes nothing; any other removes its key alone and answers whether it was there. |
| `Lww.BulkAnswered` | cluster/node.go:885-961 | A bulk is answered OK if and only if every item can be read and decoded. |
| `Lww.LocalWriteSets` | cluster/client.go:266-300 | A local write at the primary owner sets its key to the issued version and value and touches no other key; elsewhere it only takes a version. |
| `Lww.OkMeansHeld` | cluster/node.go:839-880 | A replica that answers OK holds that version or a newer one. |
| `Lww.RunBehind` | cluster/node.go:870-875 | In every reachable state of local writes and handlers, the clock has passed every recorded version. |
| `Lww.VersionsNeverFall` | cluster/node.go:839-997 | Over any run of local writes, rpcSet, rpcSetBulk and rpcDel, malformed and failing ones included, no key's recorded version falls. |
| `Lww.LocalWriteOutranks` | cluster/client.go:244-301 | Each local write's version exceeds every version recorded on its node. |
| `Lww.FailedBulkChangesNothingIff` | cluster/node.go:885-961 | A failed bulk leaves the replica unchanged if and only if every item before the unsound one is older than what is recorded. |
| `Lww.FailedBulkLosesWrite` | cluster/node.go:948-956 | A failed bulk stores nothing but records the version of every sound item before the unsound one, so that an older write of such a key is then refused; for every replica and bulk. |
| `Lww.Node.ImportBatch` | cluster/bf_join.go:221-234 | A backfilled batch is stored, its versions written unconditionally, and only the last one observed. |
| `Lww.BatchRisesIff` | cluster/bf_join.go:223-228 | A backfilled batch lowers no recorded version if and only if no key's last item is older than what is recorded. |
| `Lww.BatchBehindIff` | cluster/bf_join.go:230-233 | Afterwards the clock has passed every recorded version if and only if it has passed each key's last item, of which it observed only the very last. |
| `Lww.BatchLowersExample` | cluster/bf_join.go:223-228 | A batch of one older item lowers a recorded version. |
| `Lww.BatchAheadExample` | cluster/bf_join.go:230-233 | A batch whose last item is older than another leaves the clock behind, and the node's next write is outranked by what it holds. |
| `Lww.UnobservedOutranksWrite` | cluster/bf_join.go:230-233 | A recorded version the clock has not passed outranks the node's own next write. |
| `Clusters.TicksNeverFall` | cluster/hlc.go:34-124 | Over any run of a node the clock never falls, while its milliseconds last. |
| `Clusters.IssuedOnce` | cluster/client.go:244-301 | A node's later writes take larger versions, whatever it receives in between. |
| `Clusters.WritesAreDetermined` | cluster/client.go:244-301 | In messages that carry writes of nodes with distinct numbers, one version means one write. |
| `Clusters.ClusterConverges` | cluster/node.go:796-1003 | So replicas that take the same messages of a cluster's writes, in any order and with any repetition, agree on every key, with no further condition on the messages. |
| `Replication.StepInv` | cluster/replication.go:82-140 | Every action of caller, goroutines, peers and other traffic keeps the bookkeeping exact. |
| `Replication.NilMeansHeld` | cluster/replication.go:21-141 | A nil result means at least WriteConcern distinct owners, and always one, hold the write or a newer one, for every order of answers, failures and other writes, on both paths, for sets and deletes. |
| `Replication.ReturnsAtOnceIff` | cluster/replication.go:22-31 | Once the loop is over a call returns without waiting if and only if the sender is the first owner and WriteConcern is at most 1; otherwise it can only wait. |
| `Replication.ReportsNeverBlock` | cluster/replication.go:82-125 | A goroutine about to report always finds room in the channel. |
| `Replication.AckedOrOffered` | cluster/replication.go:82-126 | Once the goroutines are done each remote owner has acknowledged and holds the write, or was offered to hinted handoff. |
| `Replication.DeleteOfAbsentKeyNeverConfirmed` | cluster/replication.go:143-251 | A delete that needs a remote acknowledgement never succeeds for a key no remote owner has, since each answers not OK. |
| `Replication.ConfirmedIff` | cluster/replication.go:21-251 | If every answer arrives, a call that waits for acknowledgements is confirmed if and only if the remote owners willing at the start, with the sender if it is the first owner, number at least WriteConcern and at least 1; for a delete, willing are owners that stored the key or had a newer version. |
| `Rendezvous.WorseIsAfter` | cluster/rendezvous.go:57-67 | Comparing high and low words and then IDs is the order by full 128-bit product and then ID. |
| `Rendezvous.RankedSorts` | cluster/rendezvous.go:42-68 | The ranking is sorted and has exactly the ring's nodes. |
| `Rendezvous.SortedUnique` | cluster/rendezvous.go:68 | Any two sorted lists of the same nodes are equal, so the sorting algorithm does not matter. |
| `Rendezvous.OwnersAreTheBest` | cluster/rendezvous.go:42-79 | The owners are rf nodes, or all if fewer, by falling product of score and weight and at equal products by rising ID, and every other node has a smaller product, or an equal one and a larger ID. |
| `Rendezvous.OwnsIffFewAhead` | cluster/rendezvous.go:42-79 | A node owns a key if and only if fewer than rf nodes have a larger product, or an equal one and a smaller ID. |
| `Rendezvous.IdLessIff` | cluster/rendezvous.go:66 | IDs compare byte by byte: a proper prefix, or a smaller byte at the first difference. |
| `Rendezvous.OrderDoesNotMatter` | cluster/rendezvous.go:42-79 | The owners do not depend on the order of the ring's node list. |
| `Rendezvous.OwnersArePrefix` | cluster/rendezvous.go:83-124 | The owners head every longer candidate list. |
| `Rendezvous.OwnersAfterRemoval` | cluster/rendezvous.go:42-79 | Removing a non-owner changes no owner; removing an owner closes the gap and lets the next node in last; hence adding a node displaces at most the last owner. |
| `Rendezvous.TopIsOwners` | cluster/rendezvous.go:153-176 | Any set of rf nodes that outrank all others is the owner list. |
| `Rendezvous.FindWorst` | cluster/rendezvous.go:169-174 | The inner loop finds the slot ranked last. |
| `Rendezvous.OwnsHash` | cluster/rendezvous.go:127-184 | The one-pass scan is true exactly when the node is in the sorted owner list, that is, in the ring with fewer than rf nodes of larger product, or equal product and smaller ID, for every rf. |
| `FrequencySketch.IncrementStaysInside` | admission.go:212-223 | Incrementing a 4-bit counter below 15 adds 1 to it and carries into no neighbour. |
| `FrequencySketch.AgingStaysInside` | admission.go:227-234 | Shifting and masking a word halves each of its counters. |
| `FrequencySketch.Sketch.IncrementCounter` | admission.go:212-223 | The packed increment refines a saturating increment of one counter. |
| `FrequencySketch.Sketch.EstimateFrequency` | admission.go:183-208 | The minimum of the four counters. |
| `FrequencySketch.Sketch.Age` | admission.go:227-234 | Halves every counter and restarts the count of increments. |
| `FrequencySketch.Sketch.Record` | admission.go:150-180 | Refines the unpacked increment, aging included; returns the estimate before it plus 1, at most 15. |
| `FrequencySketch.TotalIsSinceAging` | admission.go:175-178 | The running total is the number of uses since the last aging and stays below the threshold, so each threshold-th use since then ages the sketch. |
| `FrequencySketch.EstimateCoversUses` | admission.go:150-200 | After any run of uses and resets a key's estimate is at least its own count, saturated at 15 and halved at each aging, scheduled or forced by a reset, whatever keys or hashes collide. |
| `FrequencySketch.EstimateExactIfPrivate` | admission.go:150-234 | If one counter of a key is hit once per use by it and by no other key, the estimate is exactly that count. |
| `FrequencySketch.Track` | admission.go:134-234 | Running uses and resets on the packed class ends in what the unpacked run describes, so both bounds on estimates hold of it. |
| `Paging.BackfillKeys` | cluster/bf_rpc.go:88-145 | A page holds the lowest-hashed candidates past the cursor, in hash order: as many as asked for if that is between 1 and 4096, else 1024, or all if fewer; it is empty exactly if none is past the cursor. |
| `Paging.FetchBucket` | cluster/bf_join.go:165-245 | The joiner's loop ends, and collects what paging from the zero cursor until an empty page yields. |
| `Paging.FetchedInOrder` | cluster/bf_rpc.go:111-145 | For every limit the collected keys ascend by hash, without repetition, all past the cursor. |
| `Paging.FetchedIsComplete` | cluster/bf_rpc.go:111-145 | With distinct hashes no key past the cursor is left out, whatever the limit. |
| `Paging.ZeroHashIsSkipped` | cluster/bf_rpc.go:113-137 | A key whose hash is zero is never sent. |
| `Paging.FetchedCompleteIff` | cluster/bf_rpc.go:113-145 | From any cursor the keys past it are all collected if and only if no group of keys with one hash is split between pages. |
| `Paging.PagingCompleteIff` | cluster/bf_rpc.go:113-145 | For every limit paging a bucket sends all its keys if and only if no hash is zero and no group of keys with one hash is split between two pages, that is, the first and the last of the group in hash order are on one page. |
| `Paging.SinglesCompleteIff` | cluster/bf_rpc.go:135-145 | In particular, paging one key at a time is complete if and only if hashes are distinct and non-zero. |
| `Paging.TieOnOnePage` | cluster/bf_rpc.go:135-145 | Two keys with one hash on one page are both sent. |
| `Paging.TieSplitLosesKey` | cluster/bf_rpc.go:135-145 | Split between two pages, one of two keys with one hash is lost. |
| `Digests.ComputeLocalDigests` | cluster/bf_join.go:256-290 | The loop yields the digest of any list of the owned keys with their recorded versions, 0 if there is none. |
| `Digests.UpdateWithBatch` | cluster/bf_join.go:295-313 | The loop adds the batch to the digest. |
| `Digests.OrderDoesNotMatter` | cluster/bf_rpc.go:43-70 | The digest depends on which items there are, not on their order. |
| `Digests.OneVersionIsDetected` | cluster/bf_rpc.go:43-69 | Two nodes that differ in one key's version alone have different digests in its bucket. |
| `Digests.ComputedVersionIsDetected` | cluster/bf_join.go:256-290 | Two nodes with the same keys, of which one has recorded another version of an owned key, compute different digests in its bucket. |
| `Digests.OneKeyIsDetected` | cluster/bf_rpc.go:43-69 | If one of them lacks a single key, the counts of its bucket differ by one. |
| `Digests.RunningDigestIff` | cluster/bf_join.go:235-237 | Adding an imported batch gives what recomputing would give if and only if the batch repeats no key, brings none already held and owned, and only keys the joiner owns. |
| `Digests.RunningDigestExample` | cluster/bf_join.go:295-313 | Importing a newer version of one held key makes the running digest differ from the recomputed one. |
| `Backfill.SigOfBucket` | cluster/bf_rpc.go:43-69 | A bucket's signature depends on the items of that bucket alone. |
| `Backfill.SignaturesAgreeIff` | cluster/bf_join.go:165-245 | After importing what was sent of a bucket of which it held nothing, the joiner has the donor's signature there if and only if every key was sent. |
| `Backfill.BucketSyncedIff` | cluster/bf_join.go:165-245 | A joiner that held no key of its own in the bucket, and pages and imports it, then has a running digest equal to the recomputed one, with the donor's signature for the bucket if and only if no hash is zero and no group of keys with one hash is split between two pages. |
| `Paths.NormalizePath` | internal/httpcache/index.go:60-78 | Trimming, splitting and filtering yields the maximal runs of characters other than the slash. |
| `Paths.TrimKeeps` | internal/httpcache/index.go:65 | Leading and trailing slashes do not matter. |
| `Paths.SegmentsProper` | internal/httpcache/index.go:70-77 | No segment is empty or holds a slash. |
| `Paths.JoinRoundTrip` | internal/httpcache/index.go:40-60 | Joining segments and normalizing gives the segments back. |
| `Paths.SlashSeparates` | internal/httpcache/index.go:60-78 | A slash separates the segments before it from those after it, and what has no slash is one segment. |
| `PatternIndexes.PatternIndex.constructor` | internal/httpcache/index.go:26-35 | A new index is valid and empty. |
| `PatternIndexes.StarMatches` | internal/httpcache/index.go:121-143 | A pattern with a final star matches the paths that begin with what is before the star; any other matches its own path only. |
| `PatternIndexes.PatternIndex.FindNode` | internal/httpcache/index.go:145-155 | Finds the node of a path, or null exactly if there is none. |
| `PatternIndexes.PatternIndex.AddKey` | internal/httpcache/index.go:81-94 | Adds exactly the pair of normalized path and key. |
| `PatternIndexes.PatternIndex.RemoveKey` | internal/httpcache/index.go:97-106 | Removes exactly that pair. |
| `PatternIndexes.PatternIndex.CollectAllKeys` | internal/httpcache/index.go:169-178 | The keys of every path at or below the node, and no others. |
| `PatternIndexes.PatternIndex.GetMatchingKeys` | internal/httpcache/index.go:121-143 | Exactly the keys whose path extends the pattern's segments if it ends in a star, or equals them otherwise. |
| `PatternIndexes.PatternIndex.Clear` | internal/httpcache/index.go:181-185 | Empties the index. |
| `PatternIndexes.HttpCache.Store` | middleware.go:140-145 | Keeps every cached key that has a path indexed under it, whether or not the cache admits the key or evicts others. |
| `PatternIndexes.HttpCache.Invalidate` | middleware.go:184-198 | Afterwards no cached key with a path matches the pattern, all other keys are still cached, and the answer is the number removed. |
| `PatternIndexes.HttpCache.Clear` | middleware.go:178-181 | Cache and index are emptied together. |

## Left out

- Transport, framing, CBOR, compression, TLS and peer connections: input and output.
- Gossip membership, weights and the ring's construction: `seen[from] = now` is not a monotone join, and weights are floating point.
- GetOrLoad, leases, hot-key shadowing and hedged reads: they add no state to the modelled core.
- Lww.VersionsNeverFall: backfilled batches and `rebalanceOnce` are not among the steps, since they overwrite or re-stamp recorded versions; `Lww.BatchRisesIff` says when a batch would keep it.
- The handoff replay loop, autopause and its counters over peers: scheduling around the modelled queue.
- The adaptive admission filter's verdict, doorkeeper, scan detection and probabilities: the verdict is the parameter `admit`; their quality is statistical.
- Stats, callbacks, manager, adapters, TTL arithmetic: easy members.
- Concurrency below a lock: an operation under its lock is one step; `get` under FIFO and AdmissionLFU takes a read lock first and is one step too.
- Shards.Shard.Get: the closed flag and the statistics are not modelled.
- Handoff.HintQueue: container/list's owner field and 64-bit overflow of byte counts are not modelled; hint sizes are positive, as the constructor of a hint makes them.
- HandoffLaws.NewDelayedTakenIff: of hints due at the very same time as the protected one, the heap's layout decides which go; the rest is exact. The same holds of HandoffLaws.NewerDelayedTakenIff.
- Lfu.LfuList.Increment: use counts are unbounded where the source has 64 bits; the shard always owns an index and consults it only under LFU.
- Shards.Shard.Import: takes one item, the body of the loop that `ShardedCaches.Cache.Import` runs.
- ShardedCaches.Cache.Size: its result is not taken while other steps run.
- ShardedCaches.Cache.Perform: masking a hash by a power of two less one is modelled as the remainder.
- Clusters.ClusterConverges: node numbers below 256 are distinct, no clock uses up its 48-bit milliseconds, and backfilled batches, after which a clock may be behind (`Lww.BatchBehindIff`), are not among the steps.
- Replication.ConfirmedIff: connections hold, no answer is lost or times out, and no other write interferes.
- Lww.Convergence: the store has no capacity limit, expiry is data, keys decode injectively, and each handler is atomic.
- Lww.Node.Write: errors before the version is taken leave the node unchanged and are not steps.
- Replication.NilMeansHeld: claims nothing about the sender when it is an owner but not the first, since then it neither applies the write nor sends it to itself.
- Rendezvous.OwnsHash: the score of a node for a key is a parameter, and a negative rf, for which the owner list cannot be built, counts as none.
- FrequencySketch.Sketch.Record: the four hash functions are a parameter with indices below the size.
- Paging.FetchBucket: the donor does not change and its keys do not expire while it is paged.
- Digests.RunningDigestIff: fewer than 2^32 keys are involved, since counts are 32 bits wide.
- Backfill.BucketSyncedIff: donor and joiner agree on which keys the joiner owns, every item sent decodes, and the joiner has room for all of them.
- PatternIndexes.HttpCache.Invalidate: sequential runs with a fixed path extractor; the cache is the set of its keys.
