# Verification of the buffer cache

This project models a write-back block cache written in C and proves what its parts promise.

- **Hash map** (`RobinHood`, `HashTable`, `TableMeaning`, `HashMap`, `HashMapRuns`, `HashWraps`): the
  open-addressing table that finds buffers by block number, with displacement on insert, backward shift on
  delete, growth and shrinking. Its loops are proved to compute what `HashTable` says, 16-bit distances
  included, for any contents; and all runs that store at most `n` items at a time, whatever the hash function
  and also when memory is refused, behave as a finite map if and only if `n` is below 65536.
- **Cache and flusher** (`CacheMachine`, `CacheInvariant`, `CachePreservation`, `CacheAppPreservation`,
  `CacheTheorems`, `CacheWraps`, `CacheSizes`, `CacheProgress`, `CacheLiveness`, `CachePolicies`,
  `CacheBatches`, `CacheQueue`, `CacheIndex`, `CachePolicyRuns`, `BufferCache`, `BufferCacheRuns`,
  `UndisturbedFlush`): one application thread, one polling
  thread and any number of flusher threads as a step machine whose interleaving is arbitrary. One inductive
  invariant gives the main claims: no dirty block is forgotten, eviction is safe, the flushers cannot
  deadlock, a waiting application is released after a bounded number of background steps, and every os_read
  delivers the data of the last os_write to its block if and only if the cache has room for the whole disk or
  every product of block number and block size fits an `int`.
  `BufferCache` holds the code itself, updating buffers, batch array and the bytes of the mapped disk in
  place; each entry point of a thread is proved to take exactly one step of the machine, and
  `BufferCacheRuns` carries the main claim over to whole runs of that code. `CacheIndex` and
  `CachePolicyRuns` put the bucket table of the hash map and the deques of the policies behind the machine;
  `CacheBatches` and `CacheQueue` say when a flusher is launched and joined.
- **Replacement policies** (`Deque`, `ReplacementPolicy`, `PolicyOrder`, `PolicyTraces`): the doubly
  linked deque and the FIFO, LFU and LRU orders kept on it by swapping neighbours.
- **Priority heap** (`HeapOrder`, `HeapRuns`, `LinkedHeap`): the pointer-based heap behind the flush queue, with
  nodes found by the bits of their index.
- **MD5** (`Md5Rfc`, `Md5Spec`, `Md5Stream`, `Md5`): incremental hashing against sections 3.1 to 3.5 of RFC 1321,
  whose block step `Md5Rfc` writes out on its own.
- **Disk bytes** (`DiskBytes`, `DiskWrite`): the blocks as bytes of the mapped disk, the buffers, and the
  two write paths.

The configuration is the shipped one: a memory-mapped disk and evictions flushed by a thread of their
own. Block count, block size, capacity, batch length, thread count and policy are parameters; with the
shipped numbers (config.h:14-15) every single write fits.

## Where the code differs from what its names and comments say

The model follows the code in each case.

- The policy called FIFO moves a touched node to the end of its deque, so it keeps last-access order
  (`PolicyTraces.FifoRunIsAccessOrder`).
- A pop of the heap ranks a missing child before a present one and so passes over a lone left child.
  The heap order can be lost there, and `HeapOrder.PopKeepsOrderIff` says exactly when; over runs,
  `HeapRuns.RunIsOrderedIff`.
- The hash map keeps the distance of an item from its home in 16 bits. With 65536 items that hash alike the
  distance of the last wraps to 0, its bucket reads as empty, and the item is lost although it is counted
  (`HashWraps.LosingRunLoses`); `HashWraps.AlwaysAsMapIff` gives the exact bound.
- LFU counts accesses in 32 bits. When a count wraps, its buffer can stay behind buffers used more often
  (`PolicyTraces.LfuTraceFailsAcrossWrap`); `PolicyOrder.LfuAccessSorted` and
  `PolicyTraces.LfuRunIsSortedIff` are the exact conditions.
- LRU compares timestamps cut to 32 bits. Across a wrap it can leave the latest buffer first in line;
  `PolicyOrder.LruAccessIsFifoAccess` is the exact condition.
- The single write multiplies block number and block size as `int`, the merged write as 64-bit numbers;
  `DiskBytes.OffsetsAgreeIff` says when they agree, and `CacheWraps.AlwaysLastWrittenIff` what that means
  for the cache: an eviction writes its victim on the single path.

## How the steps of the cache machine are cut

Application: a read or write up to the point where it is done or has to wait for a victim; the end of
an eviction's busy wait with everything after it; putting an entry on the queue. Polling thread: one
pick with its batching decision, one wait, one idle flush. Flusher: each lock, the copy loop, the
merged write, and each release, separately. Policy updates happen at once, and the position a policy
gives an entry is a parameter of the step, so that the claims hold for every policy; `CachePolicies`
shows that the orders of FIFO, LFU and LRU are among those the steps allow.

## Model

| member | source | states |
|---|---|---|
| RobinHood.NextIsMaskedIncrement | shared/hashmap.c:249 | stepping around the table is the increment masked by the power-of-two size |
| RobinHood.DibAtMostCount | shared/hashmap.c:31-34 | in an ordered table every `dib` is between 1 and the item count, so its 16 bits suffice below 65536 items |
| RobinHood.RidingDibAtMostCount | shared/hashmap.c:290-313 | the `dib` of an entry still being carried is at most the item count plus one |
| RobinHood.EmptyBucketExists | shared/hashmap.c:332-342 | fewer items than buckets leaves an empty bucket, the target of the cyclic termination measure |
| RobinHood.ProbeReachesKey | shared/hashmap.c:331-342 | every bucket between a key's home and its place is full and at least as far from home as the probe |
| RobinHood.KeyAbsent | shared/hashmap.c:289-313 | an entry that beats a bucket before meeting its key is new: a present key is met before any displacement |
| RobinHood.PutKeepsOrder | shared/hashmap.c:305-308 | writing a carried entry over an emptier or richer bucket keeps distance and gradient of every bucket |
| RobinHood.RideOn | shared/hashmap.c:305-312 | after a swap or a pass the carried entry is again legally placed, one step nearer to the empty bucket |
| RobinHood.InsertAtEmpty | shared/hashmap.c:292-296 | the carried entry dropped in an empty bucket completes the table of the updated map, one bucket fuller |
| RobinHood.InsertAtMatch | shared/hashmap.c:298-304 | a match is only possible before any displacement, and replacing there gives the updated map |
| RobinHood.InsertSwap | shared/hashmap.c:305-312 | a displacement keeps the insertion invariant with the displaced item now carried |
| RobinHood.InsertPast | shared/hashmap.c:311-312 | passing a bucket keeps the insertion invariant and shortens the way to the empty bucket |
| RobinHood.OpenHole | shared/hashmap.c:381-382 | emptying the bucket of a key removes exactly that key and leaves one hole in the order |
| RobinHood.MoveHole | shared/hashmap.c:383-393 | shifting the next bucket back moves the hole one step and keeps the stored items |
| RobinHood.CloseHole | shared/hashmap.c:387-390 | a hole before an empty or home bucket is no hole: the table is ordered again |
| HashTable.PlaceIsSane | shared/hashmap.c:289-313 | whatever is stored and however it is hashed, placing an entry fills at most one more bucket and keeps every stored distance within its 16 bits |
| HashTable.RehashIsSane | shared/hashmap.c:231-252 | a resize fills no more buckets than the old table used, even where it loses items |
| HashTable.ShiftIsSane | shared/hashmap.c:382-393 | backward shifting empties exactly one bucket, for any table |
| HashTable.ShrinkFits | shared/hashmap.c:395-400 | halving above the base capacity stays at or above it, and what triggers it fits |
| HashTable.SetIsSane | shared/hashmap.c:270-314 | for any contents a set keeps the sizes powers of two, the occupied buckets at most the count and the count within the load factor, so every loop meets an empty bucket |
| HashTable.DeleteIsSane | shared/hashmap.c:366-405 | the same for a delete: its count never wraps below zero, and halving never overfills |
| HashTable.GrowthDueIff | shared/hashmap.c:275 | growth is due exactly when one more item would use more than six tenths of the buckets |
| HashTable.ShrinkDueIff | shared/hashmap.c:395 | a shrink is due exactly when a table above its base capacity has at most a tenth in use |
| HashTable.SetIsLoaded | shared/hashmap.c:270-314 | a set with memory granted keeps between a tenth and six tenths of the buckets in use, or the base capacity |
| HashTable.DeleteIsLoaded | shared/hashmap.c:366-405 | so does a delete |
| TableMeaning.InsertingDibFits | shared/hashmap.c:311-312 | the distance of an entry on its way is at most the number of items there will be |
| TableMeaning.PlaceInserts | shared/hashmap.c:289-313 | with 16-bit distances, the loop of a set or a resize turns a table of `m` into one of `m` with the item and yields the replaced one, if at most 65535 items result |
| TableMeaning.ProbeStep | shared/hashmap.c:332-342 | one probe step: an empty bucket means absent, a match is the item, otherwise the key lies ahead |
| TableMeaning.FoundIsHeld | shared/hashmap.c:332-342 | the probe loop finds the item of a present key, and nothing for an absent one |
| TableMeaning.MovedPrefixGrows | shared/hashmap.c:231-252 | a bucket not yet moved holds a key not yet moved |
| TableMeaning.MovedAll | shared/hashmap.c:231-252 | after the last bucket the moved items are all items |
| TableMeaning.ResizeKeepsMeaning | shared/hashmap.c:226-261 | a resize of at most 65535 items keeps exactly the same items |
| TableMeaning.ShiftCloses | shared/hashmap.c:382-393 | shifting back closes the hole: the table stores the other items in order |
| TableMeaning.GetMeans | shared/hashmap.c:327-343 | a get on a table of `m` answers what `m` holds |
| TableMeaning.SetMeans | shared/hashmap.c:270-314 | a set that leaves at most 65535 items updates `m` and doubles a table of which one more item would use more than six tenths, or reports lack of memory and changes nothing |
| TableMeaning.DeleteMeans | shared/hashmap.c:366-405 | a delete that leaves at most 65535 items removes the key and nothing else, and halves a table above its base of which at most a tenth is used |
| HashMap.RoundCapacity | shared/hashmap.c:115-123 | the least power of two that is at least 16 and at least the request |
| HashMap.RobinHoodMap.constructor | shared/hashmap.c:104-162 | a new map is empty and well formed over the least fitting power of two of buckets, with hashes clipped to 48 bits |
| HashMap.RobinHoodMap.New | shared/hashmap.c:128-152 | returns no map exactly when one of its two allocations is refused, and otherwise a new one |
| HashMap.RobinHoodMap.Reinsert | shared/hashmap.c:236-251 | the inner loop of a resize, its distance wrapping at 16 bits, does to the new table what the specification says, for any table; up to 65535 items that adds exactly the item |
| HashMap.RobinHoodMap.Rehash | shared/hashmap.c:231-252 | every old bucket in turn goes to the new table; up to 65535 items that stores exactly the same |
| HashMap.RobinHoodMap.Resize | shared/hashmap.c:226-261 | a resize gives the rehashed table, and up to 65535 items keeps the map; a failed one changes no field |
| HashMap.RobinHoodMap.MakeRoom | shared/hashmap.c:274-280 | the head of a set doubles a table of which one more item would use more than six tenths, or reports lack of memory and changes nothing |
| HashMap.RobinHoodMap.Set | shared/hashmap.c:270-314 | for any contents the table doubles, or lack of memory is reported, exactly when ten times the count plus one exceeds six times the buckets; table, count and answer are those of the specification, and while at most 65535 items result the finite map is updated and the replaced item or nothing returned |
| HashMap.RobinHoodMap.Insert | shared/hashmap.c:282-313 | the displacement loop, its distance wrapping at 16 bits, terminates with the specified table and answer; up to 65535 items that is the table of `m` with the item |
| HashMap.RobinHoodMap.Probe | shared/hashmap.c:371-381 | finds the one bucket of a present key, and stops for an absent one |
| HashMap.RobinHoodMap.Get | shared/hashmap.c:327-343 | returns what the probe of the table finds, which is what the finite map holds as long as the table stores it |
| HashMap.RobinHoodMap.Delete | shared/hashmap.c:366-405 | does what the specification says for any contents and halves a table above its base of which at most a tenth is left in use; leaving at most 65535 items it removes the key and nothing else, returns the removed item and survives a failed shrink |
| HashMap.RobinHoodMap.RemoveAt | shared/hashmap.c:380-394 | the item leaves the table and the count, and every other item stays |
| HashMap.RobinHoodMap.ShiftBack | shared/hashmap.c:382-393 | backward shifting gives the specified table, which is the table without the key |
| HashMap.RobinHoodMap.ShrinkIfSparse | shared/hashmap.c:395-400 | halves a sparse table that has grown past its base capacity, up to 65535 items keeping the map; refused memory changes nothing |
| HashMap.RobinHoodMap.Count | shared/hashmap.c:414-416 | the count is below the number of buckets, and the number of keys as long as the table stores the map |
| HashMapRuns.Run | shared/hashmap.c:270-405 | every run of sets, gets and deletes, with any pattern of refused allocations, gives the answers of the bucket table; while at most 65535 items are stored at a time, those of a finite map and a bucket count, with lack of memory reported exactly when growth is due and refused |
| HashMapRuns.SetSizesTable | shared/hashmap.c:270-314 | in every run at most six tenths of the buckets are in use, and a set doubles the table, or when refused reports lack of memory, exactly when one more item would use more |
| HashMapRuns.RunIsLoaded | shared/hashmap.c:395-400 | in every run with memory granted more than a tenth of the buckets is in use, or the table has its base capacity |
| HashMapRuns.SmallRunGives | shared/hashmap.c:270-405 | in a run of at most 65535 items at a time the table gives each answer of the finite map, for every hash function and size |
| HashMapRuns.ReplayIsLastChange | shared/hashmap.c:316-322 | the map of a run holds the item of the last successful change to a key |
| HashMapRuns.GetAnswersLastSet | shared/hashmap.c:345-349 | in every executed run of at most 65535 items at a time a get answers with the item last set and not deleted since, and only then |
| HashWraps.PassesChain | shared/hashmap.c:311-312 | past a chain of items of one home an entry counts its distance in 16 bits up to the first empty bucket |
| HashWraps.LastItemIsLost | shared/hashmap.c:292-296 | after 65536 sets of keys that hash alike the count is 65536, but the last item was stored with distance 0 and its bucket reads as empty |
| HashWraps.LosingRunLoses | shared/hashmap.c:327-343 | executed on a map of any size that avoids a resize, that run followed by a get of the last key ends with no answer, and no finite map explains it |
| HashWraps.AlwaysAsMapIff | shared/hashmap.c:31-34 | the hash map answers as a finite map in every run of at most `n` items at a time, for every size and hash function, if and only if `n` is below 65536 |
| CacheIndex.StepGives | shared/memory_buffer.c:125-342 | the gets, sets and deletes that a step of the machine makes turn the map of the machine before the step into the one after |
| CacheIndex.TableIsCache | shared/memory_buffer.c:162-188 | along every run of a cache of at most 65535 buffers, for every hash function, the bucket table finds exactly the buffers that the map of the machine holds, and counts them |
| BufferCache.CacheSystem.constructor | buffer.c:191-222 | a new system over the bytes of a disk represents an initial state of the machine |
| BufferCache.CacheSystem.OsRead | buffer.c:38-106 | is exactly the read step of the machine, returns what that step emits, and sets the byte count on a hit only |
| BufferCache.CacheSystem.OsWrite | buffer.c:108-173 | is exactly the write step of the machine |
| BufferCache.CacheSystem.AdmitNew | buffer.c:85-102 | a new buffer is mapped at once, or waits for a victim when the cache is full |
| BufferCache.CacheSystem.EvictPoll | shared/memory_buffer.c:259-338 | evicts if and only if the victim is neither being written nor requested; otherwise nothing changes |
| BufferCache.CacheSystem.EvictVictim | shared/memory_buffer.c:278-342 | flushes a dirty victim at the offset of a single write, invalidates and unmaps it, then puts the new buffer |
| BufferCache.CacheSystem.FlushVictim | shared/memory_buffer.c:285-302 | the bytes of the disk become those of the single write of the victim, wherever its offset falls inside the mapping |
| BufferCache.CacheSystem.PutBuffer | shared/memory_buffer.c:125-160 | maps the buffer by its block and gives it its place in the policy |
| BufferCache.CacheSystem.AddQueue | delayed_write/thread_pool.c:502-513 | adds one queue entry |
| BufferCache.CacheSystem.PollOnce | delayed_write/thread_pool.c:240-448 | one round of the polling loop is exactly a pick, a wait or an idle flush |
| BufferCache.CacheSystem.PickEntry | delayed_write/thread_pool.c:244-273 | drops the entry of an invalid, busy or clean buffer and batches any other |
| BufferCache.CacheSystem.TakeBuffer | delayed_write/thread_pool.c:296-392 | appends, drops or launches by comparing block numbers with the last of the batch, and keeps the permit exactly when it launches |
| BufferCache.CacheSystem.FlushBatch | delayed_write/thread_pool.c:375-385 | launches the batch and starts an empty one in a fresh array |
| BufferCache.CacheSystem.WaitInternalThread | delayed_write/thread_pool.c:468-485 | joins the oldest flusher, if any, and posts its permit |
| BufferCache.CacheSystem.LockOne | delayed_write/disk_write.c:221-230 | is exactly the lock step of a flusher |
| BufferCache.CacheSystem.CopyAll | delayed_write/disk_write.c:231-250 | the copy loop takes the contents of all locked buffers |
| BufferCache.CacheSystem.WriteOut | delayed_write/disk_write.c:251-253 | the merged write replaces exactly the bytes of the blocks of the batch |
| BufferCache.CacheSystem.ReleaseOne | delayed_write/disk_write.c:258-265 | is exactly the release step of a flusher |
| UndisturbedFlush.FlushUndisturbed | delayed_write/disk_write.c:205-275 | all the steps of one flusher in a row replace the bytes and leave the headers that the sequential merged write does |
| BufferCacheRuns.PerformAt | delayed_write/thread_pool.c:240-448 | one step of any thread on the fields follows the run and delivers, on an os_read, the data of the last os_write to its block before it, or the initial content |
| BufferCacheRuns.RunCache | buffer.c:38-173 | running the code on the bytes of a disk along any run of the machine, every os_read delivers the data of the last os_write to its block, or the initial content, and the bytes stay those of the machine, where the single writes fit |
| CacheInvariant.InitInv | delayed_write/thread_pool.c:103-137 | the invariant holds of the initial state |
| CacheInvariant.InvInRange | delayed_write/thread_pool.c:206-210 | under the invariant every reference a step follows is in range |
| CacheInvariant.TotalUpdate | delayed_write/disk_write.c:221-230 | changing one flusher changes the count of a buffer over all flushers by exactly the difference |
| CachePreservation.HeldOnce | delayed_write/disk_write.c:221-230 | two flushers never hold the lock of the same buffer |
| CachePreservation.LockKeeps | delayed_write/disk_write.c:221-230 | locking keeps the invariant |
| CachePreservation.CopyKeeps | delayed_write/disk_write.c:231-250 | copying keeps the invariant |
| CachePreservation.WriteOutBlock | delayed_write/disk_write.c:251-253 | a disk block changed by a flusher belongs to a cached buffer it holds, and gets that buffer's content |
| CachePreservation.WriteOutKeeps | delayed_write/disk_write.c:251-253 | the merged write keeps the invariant: clean buffers stay synced, other flushers' promises stand |
| CachePreservation.ReleaseKeeps | delayed_write/disk_write.c:258-265 | cleaning and unlocking keeps the invariant |
| CachePreservation.WaitKeeps | delayed_write/thread_pool.c:468-485 | joining a finished flusher keeps the invariant |
| CachePreservation.LaunchKeeps | delayed_write/thread_pool.c:339-348 | launching the batch keeps the invariant |
| CachePreservation.AppendKeeps | delayed_write/thread_pool.c:360-366 | appending the next consecutive buffer keeps the invariant |
| CachePreservation.DuplicateIsCounted | delayed_write/thread_pool.c:367-370 | a picked buffer with the block of the last batch entry is that entry, so dropping it forgets nothing |
| CachePreservation.SkipIsSafe | delayed_write/thread_pool.c:258-272 | dropping the entry of a buffer that the skip rules pass over keeps the invariant |
| CachePreservation.PickKeeps | delayed_write/thread_pool.c:244-392 | every outcome of a pick keeps the invariant |
| CacheAppPreservation.ReadKeeps | buffer.c:38-106 | os_read keeps the invariant |
| CacheAppPreservation.WriteKeeps | buffer.c:108-173 | os_write keeps the invariant, also while its buffer is batched |
| CacheAppPreservation.EvictKeeps | shared/memory_buffer.c:236-349 | an eviction keeps the invariant: no flusher still refers to the victim |
| CacheAppPreservation.PoolStepCounts | delayed_write/thread_pool.c:240-448 | the batch stays within its bound and permits stay accounted for |
| CacheAppPreservation.NextKeeps | delayed_write/thread_pool.c:240-448 | the invariant is inductive over every step of every thread |
| CacheTheorems.StepWrites | buffer.c:108-173 | a step that misplaces no write changes the content of a block exactly if it is an os_write to it, whose data it then is; a write that waits for a victim is held by its buffer |
| CacheTheorems.PlacedIsLastWritten | buffer.c:38-173 | as long as no eviction has written at a wrapped offset, each block has the data of the last os_write among the steps, or its initial content |
| CacheTheorems.NeverMisplaced | delayed_write/disk_write.c:185 | no run misplaces a write if the cache has room for the whole disk or the largest product of block number and size fits the `int` |
| CacheTheorems.LatestIsLastWritten | buffer.c:38-173 | where the single writes fit, in every reachable state, under every interleaving, each block has the data of the last os_write among the steps, or the initial disk content |
| CacheWraps.LostBlock | delayed_write/disk_write.c:185 | where they do not fit, a run that ends with an os_read which does not deliver what was last written |
| CacheWraps.AlwaysLastWrittenIff | buffer.c:38-173 | for every configuration and disk, every os_read of every run delivers the data of the last os_write to its block, or the initial content, if and only if the cache has room for the whole disk or the largest product of block number and size is below 2^31 |
| CacheTheorems.LastWrittenIsLastWrite | buffer.c:108-173 | the replayed content of a block is the data of the last os_write to it among the steps, or the initial content if there is none |
| CacheTheorems.ReadsLastWritten | buffer.c:57-69 | where the single writes fit, every os_read delivers the data of the last os_write to its block before it |
| CacheTheorems.CleanMeansSynced | delayed_write/disk_write.c:231-262 | in every reachable state a mapped buffer is valid and keyed by its block, and where the single writes fit a clean one equals the disk block |
| CacheTheorems.DirtyIsNotForgotten | delayed_write/thread_pool.c:258-272 | in every reachable state a dirty cached buffer is queued, batched, with an unfinished flusher, or about to be queued |
| CacheTheorems.EvictionIsSafe | shared/memory_buffer.c:259-272 | request counts are exactly the unlocked batch entries, locks have one holder, and the busy wait ends if and only if no batch or flusher has the buffer |
| CacheTheorems.CacheIsBounded | shared/memory_buffer.c:210-213 | mapped buffers and policy entries are the same set, once each, within a positive capacity |
| CacheTheorems.PermitsAreAccounted | delayed_write/thread_pool.c:242-427 | permits plus unjoined flushers equal threads plus idle flushes, so a failed attempt finds a thread to join |
| CacheTheorems.BatchesAreConsecutive | delayed_write/thread_pool.c:206-210 | the batch and every launched batch hold consecutive blocks, fit the array of the maximum length plus one, and a launched one exceeds the maximum only when that is one |
| CacheBatches.BatchIsNotFull | delayed_write/thread_pool.c:310-366 | between two steps of any run the batch is shorter than the maximum length, or than two |
| CacheBatches.PickOutcome | delayed_write/thread_pool.c:244-392 | what a pick does in every run: it drops, starts a batch, continues it, launches it together with the block that fills it, or launches it before a block that does not continue it |
| CacheBatches.PickLaunchesIff | delayed_write/thread_pool.c:310-385 | a pick launches if and only if its block fills the batch to exactly the maximum length (never less than two) or neither repeats nor continues it |
| CacheBatches.IdleLaunches | delayed_write/thread_pool.c:425-448 | with the queue empty the whole batch is launched and no permit is taken |
| CacheQueue.EntriesAreConserved | delayed_write/thread_pool.c:502-513 | in every run the entries on the queue, the picks so far and the write that is not queued yet are together exactly the os_writes so far |
| CacheQueue.JoinedInOrder | delayed_write/thread_pool.c:468-485 | in every run the flushers are joined in the order of their launch |
| CachePolicyRuns.PolicyIsTrace | shared/memory_buffer.c:125-160 | in every run whose orders are those of a policy, the deque of the machine is that policy's after the accesses and deletes of the run |
| CachePolicyRuns.VictimIsFirst | shared/memory_buffer.c:217-232 | a miss that has to wait finds the cache full and evicts the first buffer of the policy's deque |
| CachePolicyRuns.FifoEvictsOldest | shared/replacement_policy.c:3-48 | under the policy called FIFO the buffer evicted is, of all cached ones, the one accessed longest ago |
| CachePolicyRuns.LruEvictsOldest | shared/replacement_policy.c:143-206 | under LRU too, where the truncated timestamps fit |
| CachePolicyRuns.LfuEvictsLeastUsed | shared/replacement_policy.c:50-140 | under LFU, in runs of fewer than 2^32 accesses and deletes, it is the one accessed least often and, among ties, longest ago |
| CacheSizes.NextIsSized | buffer.c:85-86 | every step keeps the blocks on the disk, in valid buffers and in merge buffers at the block size |
| CachePolicies.AccessOrderIsAllowed | shared/replacement_policy.c:251-273 | an access under FIFO, LFU or LRU yields an order that the machine's read and write steps allow |
| CachePolicies.EvictionOrderIsAllowed | shared/memory_buffer.c:217-232 | deleting the victim a policy names and inserting the new buffer yields an order that the eviction step allows |
| CacheProgress.LocksIncrease | delayed_write/disk_write.c:221-230 | a flusher takes its locks in strictly increasing block order and none twice |
| CacheProgress.NoCircularWait | delayed_write/disk_write.c:221-230 | no circular wait among flushers is reachable |
| CacheProgress.FlushersProgress | delayed_write/disk_write.c:205-275 | while a flusher is unfinished some flusher can step |
| CacheProgress.BackgroundWorks | delayed_write/thread_pool.c:240-448 | every background step that changes anything leaves strictly less work |
| CacheProgress.DrainIsBounded | delayed_write/thread_pool.c:240-448 | with the application pausing, the number of effective background steps is bounded by the work at the start |
| CacheProgress.PoolProgress | delayed_write/thread_pool.c:241-427 | with an entry queued and at least one thread, some background step changes the state |
| CacheProgress.QuiescentUnblocks | shared/memory_buffer.c:259-272 | when the background has nothing left to do, no buffer is locked, marked or requested, so no application wait lasts |
| CacheProgress.QuiescentIsSynced | delayed_write/disk_write.c:258-265 | then, with the application idle, no cached buffer is dirty, and unless a write was misplaced the disk alone holds every visible value |
| CacheLiveness.WaitingIsBounded | shared/memory_buffer.c:259-272 | whatever the background does while the application waits, it takes at most as many effective steps as there was work, and when these are done or none is left the application can evict or overwrite |
| CacheLiveness.BackgroundReleases | buffer.c:149 | from every reachable state some background steps, no more than there is work, lead to a state in which the application can go on |
| HeapOrder.ComparatorLaws | delayed_write/thread_pool.c:46-70 | higher priority ranks first and, at equal priority, the lower block; the order is total up to equal keys and does not overflow on non-negative keys |
| HeapOrder.FrontIsLeast | shared/linked_heap.c:171-184 | the front of an ordered heap is a least value |
| HeapOrder.FrontIsMostUrgent | shared/linked_heap.c:171-184 | the front of an ordered heap has the highest priority and, among those that have it, the lowest block |
| HeapOrder.SiftUpFront | shared/linked_heap.c:125-147 | climbing brings to the front, in any heap, the least value on the way and, of equal ones, the lowest |
| HeapOrder.PushFront | shared/linked_heap.c:99-161 | a value pushed onto an ordered heap becomes the front if it ranks equal to or before the old front; otherwise the front keeps its rank |
| HeapOrder.PushKeepsOrder | shared/linked_heap.c:99-161 | a push adds its value, loses none and keeps the heap order |
| HeapOrder.PopRemovesFront | shared/linked_heap.c:199-275 | a pop removes the front value and no other |
| HeapOrder.PopFront | shared/linked_heap.c:240-269 | which value is the front after a pop, in any heap: the lesser child, of equal ones the right, if less than the last value, else the last value, also past a lone left child |
| HeapOrder.PopKeepsOrderExceptLone | shared/linked_heap.c:242-269 | from such a heap, a pop leaves every edge ordered, except possibly the one to the last node when the remaining count is even |
| HeapOrder.PopKeepsOrderIff | shared/linked_heap.c:243-252 | a pop leaves the heap ordered if and only if the heap before was not of the recognisable kind: even remaining count, path of lesser children ending at the parent of the last node, moved value greater; a break left by the pop before does not matter |
| HeapOrder.PopCanBreakOrder | shared/linked_heap.c:245-252 | a heap of three values that a pop leaves out of order |
| HeapOrder.DrainKeepsOrderExceptLone | shared/linked_heap.c:199-275 | however many pops follow each other, at most the edge to a lone last node is out of order |
| HeapOrder.DrainLosesNothing | shared/linked_heap.c:199-275 | the values delivered by a drain and those left are the values at its start |
| HeapOrder.DrainDeliversLeast | shared/linked_heap.c:171-184 | each value a drain delivers is least among all left, except possibly the last of an even number |
| HeapOrder.PushCanKeepBreak | shared/linked_heap.c:125-144 | a push after a broken pop can leave the broken edge above a node that is no longer last |
| HeapRuns.RunIsOrderedIff | shared/linked_heap.c:99-275 | from the empty heap on, a run of pushes and pops in any order keeps the heap ordered throughout if and only if no pop meets a heap of the recognisable shape |
| HeapRuns.PopDeliversLeast | shared/linked_heap.c:199-275 | until such a pop, and by that pop too, every value delivered is a least one of those in the heap |
| HeapRuns.RunLosesNothing | shared/linked_heap.c:99-275 | in every run, broken or not, the values popped and those left are the values pushed |
| LinkedHeap.StackHalvings | shared/linked_heap.c:40-50 | the stacked halvings lead from the index to 1 and fit the stack of either lookup for every 32-bit index |
| LinkedHeap.Heap.Descend | shared/linked_heap.c:82-96 | one round reaches the child with the wanted index |
| LinkedHeap.Heap.FindNodeByIndex | shared/linked_heap.c:71-98 | index lookup returns the node with that index |
| LinkedHeap.Heap.FindParentNode | shared/linked_heap.c:39-70 | returns the node that a node with this index hangs below |
| LinkedHeap.Heap.PushValue | shared/linked_heap.c:99-161 | keeps the complete tree, adds one node, and the values are those of a push |
| LinkedHeap.Heap.LinkLast | shared/linked_heap.c:113-122 | hanging the new node where its index asks completes the tree |
| LinkedHeap.Heap.SiftUpFrom | shared/linked_heap.c:125-144 | the climbing loop computes the sift-up of the value sequence |
| LinkedHeap.Heap.Get | shared/linked_heap.c:171-184 | returns the first value, or nothing from an empty heap |
| LinkedHeap.Heap.PopValue | shared/linked_heap.c:199-275 | keeps the complete tree without its last node, and the values are those of a pop |
| LinkedHeap.Heap.UnlinkLast | shared/linked_heap.c:220-231 | cutting the last node from its parent leaves a complete tree |
| LinkedHeap.Heap.SiftDownFromRoot | shared/linked_heap.c:240-269 | the sinking loop computes the sift-down, passing over a lone left child |
| Deque.LinkedDeque.PushFirst | shared/doubly_linked_deque.c:121-148 | adds one node at the front of a well-formed deque |
| Deque.LinkedDeque.PushLast | shared/doubly_linked_deque.c:149-175 | adds one node at the end of a well-formed deque |
| Deque.LinkedDeque.PopFirst | shared/doubly_linked_deque.c:10-45 | takes the first node out, or reports an empty deque |
| Deque.LinkedDeque.PopLast | shared/doubly_linked_deque.c:46-83 | takes the last node out, or reports an empty deque |
| Deque.LinkedDeque.PopAt | shared/doubly_linked_deque.c:84-120 | takes out exactly the given node, wherever it stands |
| Deque.LinkedDeque.SwitchNode | shared/doubly_linked_deque.c:221-285 | swaps exactly the positions of a node and its successor, at either end and in a deque of two |
| ReplacementPolicy.Policy.GetEvictable | shared/replacement_policy.c:274-287 | the victim is the first entry, if there is one |
| ReplacementPolicy.Policy.WalkRight | shared/replacement_policy.c:62-81 | the pointer walk computes the walk of the entry sequence |
| ReplacementPolicy.Policy.UpdateAccessInfo | shared/replacement_policy.c:251-273 | an access or first sight does to the deque what the policy's specification does to the sequence |
| ReplacementPolicy.Policy.UpdateFifo | shared/replacement_policy.c:3-22 | FIFO moves the touched node to the end |
| ReplacementPolicy.Policy.UpdateLfu | shared/replacement_policy.c:50-114 | LFU counts with 32-bit wrap, and walks the node right while its count is not less |
| ReplacementPolicy.Policy.UpdateLru | shared/replacement_policy.c:143-175 | LRU stamps the header and walks the node right on truncated timestamps |
| ReplacementPolicy.Policy.DeleteAt | shared/replacement_policy.c:288-310 | removes exactly the entry of the header, and does nothing for a header without a node |
| PolicyOrder.WalkMoves | shared/replacement_policy.c:66-81 | a walk takes one entry out and puts it back further right, changing no other order |
| PolicyOrder.WalkStops | shared/replacement_policy.c:66-81 | a walk passes only keys not above its own and stops before a greater one |
| PolicyOrder.LfuAccessSorted | shared/replacement_policy.c:58-81 | an access keeps the order by (count, last access) if and only if the count does not wrap, the entry is first, or only a zero count precedes it |
| PolicyOrder.LfuInsertSorted | shared/replacement_policy.c:86-109 | a new buffer walks to its sorted place |
| PolicyOrder.LfuDeleteSorted | shared/replacement_policy.c:126-140 | a delete keeps the order |
| PolicyOrder.LfuVictim | shared/replacement_policy.c:115-124 | the victim is the least used and, among ties, the one touched longest ago |
| PolicyOrder.LruAccessIsFifoAccess | shared/replacement_policy.c:143-167 | an LRU access gives the FIFO order if and only if no truncated timestamp behind it exceeds the truncated present |
| PolicyOrder.LruFailsAcrossWrap | shared/replacement_policy.c:153-157 | across a wrap the most recently used buffer can be left first in line |
| PolicyTraces.RunIsSound | shared/replacement_policy.c:251-310 | on every trace each buffer has one entry |
| PolicyTraces.ShortTracesFit | shared/replacement_policy.c:58 | a trace of fewer than 2^32 operations wraps no count |
| PolicyTraces.LfuRunIsSortedIff | shared/replacement_policy.c:50-140 | the LFU deque is sorted by (count, last access) all along a trace if and only if every access wraps no count, or its buffer is first or has only zero counts before it |
| PolicyTraces.LfuTraceFailsAcrossWrap | shared/replacement_policy.c:58 | one access to a buffer and 2^32 to another leave the latter with count 0 behind the former, and the deque unsorted |
| PolicyTraces.LfuRunIsSorted | shared/replacement_policy.c:50-140 | after every trace that wraps no count the LFU deque is sorted by (count, last access) |
| PolicyTraces.LruStepIsFifoStep | shared/replacement_policy.c:143-206 | from equal orders LRU and FIFO stay equal if and only if the timestamps fit |
| PolicyTraces.LruRunIsFifoRun | shared/replacement_policy.c:143-206 | after every trace whose timestamps fit, the LRU and FIFO deques hold the same order |
| PolicyTraces.LruRunIsFifoRunIff | shared/replacement_policy.c:143-206 | LRU and FIFO hold the same order all along a trace if and only if its timestamps fit |
| PolicyTraces.LruTraceFailsAcrossWrap | shared/replacement_policy.c:153-157 | a trace of three accesses across a wrap after which the buffer accessed last is first in line |
| PolicyTraces.TimelyStampsFit | shared/replacement_policy.c:150-165 | on every trace whose timestamps do not decrease and stay in one 32-bit period, that condition holds throughout |
| PolicyTraces.FifoRunIsAccessOrder | shared/replacement_policy.c:3-48 | on every trace the FIFO deque holds exactly the buffers accessed and not deleted, by last access |
| PolicyTraces.EntriesTellTrace | shared/replacement_policy.c:251-310 | on every trace and under every policy the deque holds exactly the buffers accessed and not deleted since, each with the time of its last access and, under LFU, the number of its accesses in 32 bits |
| PolicyTraces.LfuVictimOfTrace | shared/replacement_policy.c:115-124 | on every trace of fewer than 2^32 operations the LFU victim has the fewest accesses and, among ties, the oldest last one |
| PolicyTraces.FifoVictimOfTrace | shared/replacement_policy.c:3-48 | on every trace the FIFO victim is the buffer accessed longest ago |
| Md5Rfc.RoundFByBits | shared/md5.c:55 | the function of round 1 by its truth table: where x has a 1 the bit of y, elsewhere that of z |
| Md5Rfc.RoundGByBits | shared/md5.c:56 | the function of round 2 by its truth table: where z has a 1 the bit of x, elsewhere that of y |
| Md5Rfc.RoundHWhereSame | shared/md5.c:57 | the function of round 3 where y and z have the same bit: the bit of x |
| Md5Rfc.RoundHWhereDifferent | shared/md5.c:57 | the function of round 3 where they differ: the opposite of the bit of x |
| Md5Rfc.RoundIByBits | shared/md5.c:58 | the function of round 4 by its truth table: where x has a 1 or z a 0 the opposite of the bit of y, elsewhere that bit |
| Md5Rfc.PlusCounts | shared/md5.c:190-193 | what the addition of words is: adding one to a summand adds one to the sum, modulo 2^32 |
| Md5Spec.EntryIsComputed | shared/md5.c:18-40 | word index, rotation and constant of each operation are those that section 3.4 of RFC 1321 writes out one by one |
| Md5Spec.RotationOf | shared/md5.c:63-65 | for each rotation amount the two shifts are the rotation of a 32-bit word |
| Md5Spec.OperateIsRfcOperate | shared/md5.c:163-187 | one operation of the source is that of section 3.4, with its own round function, word, rotation and constant |
| Md5Spec.RoundsAreInPlace | shared/md5.c:163-188 | moving values through fixed roles equals the standard's moving of roles over fixed registers |
| Md5Spec.StepIsRfcStep | shared/md5.c:153-194 | the condensed block step is the block step that section 3.4 of RFC 1321 writes out operation by operation |
| Md5Stream.LowByteFirst | shared/md5.c:104-107 | a word has the value of its four bytes with the low-order byte first |
| Md5Stream.BytesLowFirst | shared/md5.c:141-146 | the bytes written for a word are its value with the low-order byte first |
| Md5Stream.WordBytesRoundTrip | shared/md5.c:104-107 | decoding the little-endian bytes of a word gives the word back |
| Md5Stream.InitialBytes | shared/md5.c:13-16 | the initial registers have the bytes that section 3.3 of RFC 1321 lists |
| Md5Stream.PaddedShape | shared/md5.c:121-137 | a padded message is the message, a byte 0x80, the fewest zeros that make whole blocks, and the length in bits as two words, the low-order word first |
| Md5Stream.PaddedLength | shared/md5.c:121-137 | padding and length fill whole blocks |
| Md5Stream.PaddingLength | shared/md5.c:122 | the source's padding length is that of the standard |
| Md5Stream.WrappedSize | shared/md5.c:136-137 | the wrapping 64-bit size gives the right offset and the right length words for messages of any length |
| Md5Stream.AbsorbPrefix | shared/md5.c:86-113 | the state after some blocks depends on those blocks only |
| Md5Stream.TakeByte | shared/md5.c:92-93 | one more byte, short of a block, is held |
| Md5Stream.FillBlock | shared/md5.c:99-111 | the byte that fills a block absorbs it |
| Md5Stream.LastStep | shared/md5.c:124-139 | the last block step gives the final registers of the padded message |
| Md5.SixtyFour | shared/md5.c:163-188 | the loop computes the sixty-four operations of section 3.4 of RFC 1321 |
| Md5.Md5Step | shared/md5.c:153-194 | the in-place block step on the registers is the standard's |
| Md5.Md5Context.constructor | shared/md5.c:71-78 | a new context has absorbed the empty message |
| Md5.Md5Context.TakeOne | shared/md5.c:92-112 | one round of the byte loop accounts for one more byte |
| Md5.Md5Context.Update | shared/md5.c:86-113 | an update appends its chunk to what the context accounts for |
| Md5.Md5Context.Pad | shared/md5.c:121-126 | the padding update leaves the size as it was |
| Md5.Md5Context.LastWords | shared/md5.c:128-137 | the sixteen words are those of the held bytes and the length |
| Md5.Md5Context.Finalize | shared/md5.c:119-148 | the digest is that of the whole message hashed so far |
| Md5.HashChunks | shared/md5.c:209-224 | for every way of cutting a message into chunks the digest is the standard's digest of the whole |
| DiskBytes.OffsetsAgreeIff | delayed_write/disk_write.c:185 | the single and the merged write address the same bytes if and only if the product fits the `int` |
| DiskBytes.LargeBlockHitsBlockZero | delayed_write/disk_write.c:185 | with 4096-byte blocks, block 2^20 is written over block 0 |
| DiskBytes.WriteBlockIsSingleWrite | delayed_write/disk_write.c:185-186 | what the machine does to its blocks in a single write is, on their bytes, one write at the wrapped offset |
| DiskBytes.ScatteredMisses | delayed_write/disk_write.c:185-186 | a write at a wrapped offset never touches the block it was meant for |
| DiskBytes.OverwriteIsPatch | delayed_write/disk_write.c:220-252 | what the machine does to its blocks in a merged write is, on their bytes, one write at the 64-bit offset |
| DiskBytes.JoinSlice | buffer.c:75 | the bytes at a block's offset are that block |
| DiskBytes.MergedBlocks | delayed_write/disk_write.c:231-252 | a merged write puts every buffer's content in its own block |
| DiskBytes.MergedElsewhere | delayed_write/disk_write.c:231-252 | a merged write changes no byte outside its run |
| DiskBytes.SinglesBlocks | delayed_write/disk_write.c:161-191 | single writes put the content of every valid dirty buffer in its block and leave the blocks of skipped ones |
| DiskBytes.SinglesElsewhere | delayed_write/disk_write.c:161-191 | single writes change no byte outside the run |
| DiskBytes.MergedIsSinglesIff | delayed_write/disk_write.c:157-274 | one merged write of consecutive buffers equals the single writes if and only if every skipped buffer is synced |
| DiskWrite.WriteSingle | delayed_write/disk_write.c:161-200 | writes a valid dirty buffer at the single offset and cleans it; skips any other without touching its request count |
| DiskWrite.Gather | delayed_write/disk_write.c:231-250 | the merge buffer holds the contents one after another |
| DiskWrite.WriteMerged | delayed_write/disk_write.c:205-274 | replaces exactly the run of bytes from the first block on, and leaves every buffer clean, unmarked, unlocked and with one request fewer |

## Left out

Cache and flusher:

- System calls, `mmap`, `msync`, thread creation, sleeps, timing counters, printing and `main`.
- Interleavings inside a pick and inside an eviction after its busy wait: each is one step. A pick spans
  the queue's front and pop (delayed_write/thread_pool.c:244-245), the checks up to the lock (:258-273)
  and, after a launch, the sleep before the picked buffer is marked (:350-389). Finer steps would admit
  an eviction in between: it sees the picked buffer neither marked nor requested, so it flushes,
  invalidates and unmaps it, and the pool then batches a buffer whose content is gone. Inside an
  eviction (shared/memory_buffer.c:278-338) a pick could likewise batch the victim after the busy wait.
- The thread that updates the policy after a put; the update is part of the put.
- Block numbers outside the disk; the code would touch memory out of bounds.
- The unbatched pool (maximum length 0) and the variants that use `pwrite`; in the former a skipped
  write leaves its request count behind, as `DiskWrite.WriteSingle` shows.
- Shutting the pool down, which clears the queue without flushing it: the claims are about running pools.
- Evictions flushed through the thread pool, which the shipped configuration does not choose.
- The data structures as fields of the cache: `BufferCache.CacheSystem` keeps its map, its policy and its
  queue as a finite map, a sequence and a multiset. `CacheIndex` follows the hash map, `CachePolicyRuns` the
  policies and `HeapRuns.RunLosesNothing` the heap, each by itself; no theorem runs all of them at once.
- Md5Rfc.RoundFByBits: with the other truth tables it fixes the round functions; the sine function behind the
  additive constants is not modelled, they are the ones that the standard lists.
- The order of the queue inside the machine: it is a multiset and every pick is allowed.
- CacheIndex.TableIsCache: grants memory to every set. The source does not look at a set that was refused;
  its buffer would then be in no map.
- Torn copies: the content of a buffer is a value, copied in one step under the buffer's lock.
- A single write that does not lie wholly inside the mapping faults. The machine lets none of it reach
  the disk and goes on; so `CacheWraps.LostBlock` covers this case too.
- CacheWraps.LostBlock: presupposes that the whole disk is mapped. `init` computes the length of the mapping
  as an `int` (buffer.c:224), so a disk of 2^31 bytes or more is not mapped there as it stands.
- BufferCache.CacheSystem.EvictPoll: requires a dirty victim to be written inside the mapping, because
  the source faults otherwise; `BufferCacheRuns.RunCache` shows that it is where the single writes fit.
- DiskWrite.WriteSingle: requires the same of its buffer.
- CacheWraps.AlwaysLastWrittenIff: requires a block size below 2^31, because a single write keeps the block
  size in an `int` too.

Hash map:

- The hash functions: any function of the key, clipped to 48 bits as in the source.
- HashMap.RobinHoodMap.constructor: models the case in which its two allocations succeed; the other case
  is in HashMap.RobinHoodMap.New.
- HashMap.RobinHoodMap.Rehash: carries a copy of each old bucket, where the source carries the bucket
  itself and frees the old table afterwards.
- Setting another load factor or growth power, clearing, scanning, iterating and freeing. Load factors
  are whole percentages.

Policies and deque:

- `insertLeftAt`, `insertRightAt` and switching nodes that are not neighbours: unused, and incomplete as written.
- The three node fields of a header are one, since only the primary policy ever sets its own.
- Deque.LinkedDeque.SwitchNode: requires the successor of the node, the only one the policies switch with.
- ReplacementPolicy.Policy.UpdateAccessInfo: requires that a deleted header is not touched again. For FIFO
  and LRU a delete leaves it pointing at another header's node, which the contract of `DeleteAt` says;
  the cache makes a new buffer for every miss.
- ReplacementPolicy.Policy.DeleteAt: requires the same of its header. Deleted a second time under FIFO or LRU,
  it would take out the node it was left with, which belongs to another header.
- Locks around single calls of deque, heap and policies: each call is one step.

Heap:

- What mixed pushes and pops keep after a pop has broken the order, beyond `HeapOrder.PushCanKeepBreak`.
- Clearing and releasing the heap, and comparisons of keys outside the 32-bit range that
  `HeapOrder.ComparatorLaws` covers.

MD5:

- Md5.Md5Context.Update: chunks of 2^32 bytes or more, on which the 32-bit loop counter of the source
  never reaches the length.
- Opening and reading files; a file is its list of chunks. The wrappers that compare digests.

Elsewhere:

- `crc32`, whose compiled variant returns 0 before its loop; array queue, stacks, linked queue, doubly
  linked list and linked hash map; random access sequences; the external tools.
