/** The cache as the source writes it: buffers and the mapped disk updated in place, a batch array with
    a count, branch by branch. Every entry point of a thread takes exactly one step of the machine. */
module BufferCache {
  import opened Wrappers
  import opened DiskBytes
  import opened DiskWrite
  import opened CacheMachine
  import opened CacheInvariant
  import opened CacheSizes

  class CacheSystem {
    const config: Config
    const blockSize: nat
    const blocks: nat
    /** The mapped disk. */
    const disk: array<Byte>
    var heap: seq<MemoryBuffer>
    var cache: map<nat, nat>
    var policy: seq<nat>
    var queue: multiset<nat>
    var batch: array<nat>
    var batchCount: nat
    var running: seq<Flusher>
    var permits: nat
    ghost var idleFlushes: nat
    var app: App
    ghost var model: State

    /** The fields represent the state of the machine. */
    ghost predicate Matches()
      reads this, disk, batch, heap
    {
      && config.Valid()
      && batch.Length == config.maxLength + 1 && batchCount <= batch.Length
      && model == model.(cache := cache, policy := policy, queue := queue, batch := batch[..batchCount],
                         running := running, permits := permits, idleFlushes := idleFlushes, app := app)
      && DiskMatches() && HeapMatches()
    }

    /** The mapped bytes are the blocks laid out one after another. */
    ghost predicate DiskMatches()
      reads this, disk
    {
      model.blockSize == blockSize && |model.disk| == blocks && disk[..] == Join(model.disk)
    }

    ghost predicate HeapMatches()
      reads this, heap
    {
      && |model.heap| == |heap|
      && (forall i | 0 <= i < |heap| ::
            heap[i].index == i && heap[i].blockSize == blockSize && heap[i].Snapshot() == model.heap[i])
    }

    /** A cache over a disk of `blocks` blocks: nothing cached, queued or running. */
    constructor (config: Config, disk: array<Byte>, blockSize: nat, blocks: nat)
      requires config.Valid() && disk.Length == blocks * blockSize
      ensures Matches() && Init(config, model)
      ensures this.config == config && this.disk == disk && this.blockSize == blockSize
      ensures disk.Length == Start(blocks, blockSize) && model.disk == Split(disk[..], blockSize, blocks)
      ensures fresh(batch) && heap == []
    {
      StartIsProduct(blocks, blockSize);
      JoinOfSplit(disk[..], blockSize, blocks);
      this.config, this.disk, this.blockSize, this.blocks := config, disk, blockSize, blocks;
      heap, cache, policy, queue := [], map[], [], multiset{};
      batch := new nat[config.maxLength + 1];
      batchCount, running, permits, idleFlushes, app := 0, [], config.threads, 0, App.Idle;
      model := State(Split(disk[..], blockSize, blocks), blockSize, false, [], map[], [], multiset{}, [], [],
                     config.threads, 0, App.Idle);
    }

    // ---------- The application thread ----------

    /** os_read: the cached content, or the disk block, which then enters the cache. Only a hit sets the
        returned byte count. */
    method OsRead(block: nat, order: seq<nat>) returns (value: Content, count: Option<nat>)
      requires Matches() && SizedBlocks(model.disk, blockSize) && Enabled(config, model, ReadStep(block, order))
      modifies this
      ensures Matches() && model == Next(config, old(model), ReadStep(block, order))
      ensures value == Visible(old(model), block)
      ensures count == if block in old(cache) then Some(blockSize) else None
      ensures batch == old(batch) && old(heap) <= heap && fresh(heap[|old(heap)|..])
    {
      if block in cache {
        value, count := heap[cache[block]].content, Some(heap[cache[block]].blockSize);
        policy := order;
        model := ReadNext(config, model, block, order);
      } else {
        value := CopyOut(block);
        count := None;
        var buffer := new MemoryBuffer(block, blockSize, value, false, |heap|);
        AdmitNew(buffer, order);
      }
    }

    /** The bytes of one block on the mapped disk. */
    method CopyOut(block: nat) returns (value: Content)
      requires DiskMatches() && SizedBlocks(model.disk, blockSize) && block < blocks
      ensures value == model.disk[block]
    {
      StartIsProduct(block, blockSize);
      JoinSlice(model.disk, blockSize, block);
      InRun(0, blockSize, blocks, block);
      var offset := block * blockSize;
      value := disk[offset..offset + blockSize];
    }

    /** os_write: a cached buffer is overwritten under its lock; otherwise a dirty buffer enters the cache. */
    method OsWrite(block: nat, data: Content, order: seq<nat>)
      requires Matches() && Enabled(config, model, WriteStep(block, data, order))
      modifies this, heap
      ensures Matches() && model == Next(config, old(model), WriteStep(block, data, order))
      ensures batch == old(batch) && old(heap) <= heap && fresh(heap[|old(heap)|..])
    {
      if block !in cache {
        var buffer := new MemoryBuffer(block, blockSize, data, true, |heap|);
        AdmitNew(buffer, order);
      } else {
        var id := cache[block];
        var buffer := heap[id];
        policy := order;
        buffer.Overwrite(data);
        app := App.Enqueueing(id);
        model := WriteNext(config, model, block, data, order);
      }
    }

    /** putMemoryBufferAt */
    method PutBuffer(id: nat, order: seq<nat>)
      requires Matches() && id < |heap|
      modifies this`cache, this`policy, this`model
      ensures Matches() && model == Put(old(model), id, order)
    {
      cache := cache[heap[id].block := id];
      policy := order;
      model := Put(model, id, order);
    }

    method SetApp(next: App)
      requires Matches()
      modifies this`app, this`model
      ensures Matches() && model == old(model).(app := next)
    {
      app := next;
      model := model.(app := next);
    }

    method AddToHeap(buffer: MemoryBuffer)
      requires Matches() && buffer.index == |heap| && buffer.blockSize == blockSize
      modifies this`heap, this`model
      ensures Matches() && heap == old(heap) + [buffer]
      ensures model == old(model).(heap := old(model).heap + [buffer.Snapshot()])
    {
      heap := heap + [buffer];
      model := model.(heap := model.heap + [buffer.Snapshot()]);
    }

    /** The tail of a miss: look for a victim when the cache is full, otherwise put at once. */
    method AdmitNew(buffer: MemoryBuffer, order: seq<nat>)
      requires Matches() && buffer.index == |heap| && buffer.blockSize == blockSize
      modifies this
      ensures Matches() && model == Admit(config, old(model), buffer.Snapshot(), order)
      ensures batch == old(batch) && heap == old(heap) + [buffer]
    {
      var id := |heap|;
      AddToHeap(buffer);
      if config.manageable <= |cache| && |policy| > 0 {
        SetApp(App.Evicting(policy[0], id));
      } else {
        PutBuffer(id, order);
        SetApp(if buffer.dirty then App.Enqueueing(id) else App.Idle);
      }
    }

    /** A dirty victim is written inside the mapping. */
    ghost predicate VictimLands()
      requires app.Evicting? && app.victim < |heap|
      reads this, disk, heap
    {
      var victim := heap[app.victim];
      victim.dirty ==> 0 <= SingleOffset(victim.block, blockSize)
                       && SingleOffset(victim.block, blockSize) + blockSize <= disk.Length
    }

    /** One look of deleteMemoryBuffer at its victim: if the busy wait is over, the victim is flushed
        when dirty, invalidated and unmapped, and the new buffer is put. */
    method EvictPoll(order: seq<nat>) returns (done: bool)
      requires Sound() && app.Evicting? && InRange(model, EvictStep(order)) && VictimLands()
      requires multiset(order) == multiset(policy)[app.victim := 0][app.incoming := 1]
      modifies this, heap, disk
      ensures done <==> Enabled(config, old(model), EvictStep(order))
      ensures Matches() && batch == old(batch) && heap == old(heap)
      ensures model == if done then Next(config, old(model), EvictStep(order)) else old(model)
    {
      var victim := heap[app.victim];
      done := !victim.beingWritten && victim.requests == 0;
      if done {
        assert BufferInv(model, app.victim) && SizedBuffer(model, app.victim);
        assert Mapped(model, victim.block);
        EvictVictim(order);
      }
    }

    method EvictVictim(order: seq<nat>)
      requires Matches() && app.Evicting? && InRange(model, EvictStep(order)) && VictimLands()
      requires SizedBlocks(model.disk, blockSize) && CanLeave(app.victim)
      modifies this`cache, this`policy, this`app, this`model, heap, disk
      ensures Matches() && model == EvictNext(old(model), order)
    {
      var id := app.incoming;
      var writing := heap[id].dirty;
      DeleteVictim();
      PutBuffer(id, order);
      SetApp(if writing then App.Enqueueing(id) else App.Idle);
    }

    /** A whole valid buffer that nobody holds or has requested. */
    ghost predicate CanLeave(id: nat)
      requires id < |heap|
      reads this, heap
    {
      heap[id].valid && !heap[id].locked && heap[id].requests == 0 && |heap[id].content| == blockSize
      && !heap[id].beingWritten
    }

    /** Flush the victim when it is dirty, invalidate and unmap it. */
    method DeleteVictim()
      requires Matches() && app.Evicting? && app.victim < |heap| && VictimLands() && heap[app.victim].block < blocks
      requires SizedBlocks(model.disk, blockSize) && CanLeave(app.victim)
      modifies this`cache, this`model, heap, disk
      ensures Matches() && model == Evicted(old(model), app.victim)
    {
      var victim := heap[app.victim];
      ghost var evicted := Evicted(model, app.victim);
      if victim.dirty {
        FlushVictim(victim);
      }
      victim.Invalidate();
      cache := cache - {victim.block};
      model := evicted;
    }

    /** The flush of a dirty victim by a thread of its own, which the eviction joins. */
    method FlushVictim(victim: MemoryBuffer)
      requires DiskMatches() && SizedBlocks(model.disk, blockSize) && victim.block < blocks
      requires victim.valid && victim.dirty && !victim.locked && victim.requests == 0 && !victim.beingWritten
      requires |victim.content| == blockSize == victim.blockSize
      requires 0 <= SingleOffset(victim.block, blockSize)
      requires SingleOffset(victim.block, blockSize) + blockSize <= disk.Length
      modifies victim, disk
      ensures victim.Snapshot() == old(victim.Snapshot()).(dirty := false)
      ensures disk[..] == Join(WriteBlock(model.disk, blockSize, victim.block, old(victim.content)))
    {
      WriteBlockIsSingleWrite(model.disk, blockSize, victim.block, victim.content,
                              SingleOffset(victim.block, blockSize));
      victim.beingWritten := true;
      var _ := WriteSingle(disk, victim);
      victim.beingWritten := false;
    }

    /** What every run of the system keeps: it represents a state that satisfies the invariant. */
    ghost predicate Sound()
      reads this, disk, batch, heap
    {
      Matches() && Inv(config, model) && Sized(model)
    }

    /** ThreadPoolAddQueue2 */
    method AddQueue()
      requires Matches() && app.Enqueueing?
      modifies this
      ensures Matches() && batch == old(batch) && heap == old(heap)
      ensures model == Next(config, old(model), EnqueueStep)
    {
      queue := queue + multiset{app.id};
      app := App.Idle;
      model := EnqueueNext(model);
    }

    // ---------- The polling thread ----------

    /** One round of the polling loop; `id` is the entry that the queue delivers, if it has one. */
    method PollOnce(id: nat)
      requires Matches() && batchCount <= MaxBatch(config)
      requires queue != multiset{} ==>
        Enabled(config, model, if permits > 0 then PickStep(id) else WaitStep)
      modifies this, batch, heap
      ensures Matches() && heap == old(heap) && (batch == old(batch) || fresh(batch))
      ensures model == Next(config, old(model), if old(queue) == multiset{} then IdleStep
                                                else if old(permits) > 0 then PickStep(id) else WaitStep)
    {
      if queue != multiset{} {
        if permits > 0 {
          PickEntry(id);
        } else {
          WaitInternalThread();
        }
      } else {
        if batchCount > 0 {
          idleFlushes := idleFlushes + 1;
          model := model.(idleFlushes := idleFlushes);
          FlushBatch();
        }
      }
    }

    /** Take the front entry: invalid, busy and clean buffers are skipped, which posts the permit again. */
    method PickEntry(id: nat)
      requires Matches() && batchCount <= MaxBatch(config) && Enabled(config, model, PickStep(id))
      modifies this, batch, heap
      ensures Matches() && heap == old(heap) && (batch == old(batch) || fresh(batch))
      ensures model == PickNext(config, old(model), id)
    {
      queue := queue - multiset{id};
      model := model.(queue := queue);
      var buffer := heap[id];
      if !buffer.valid {
        return;
      }
      if buffer.beingWritten || !buffer.dirty || !buffer.valid {
        return;
      }
      TakeBuffer(id);
    }

    /** The batching branches for a picked buffer; a launch keeps the permit of the pick. */
    method TakeBuffer(id: nat)
      requires Matches() && batchCount <= MaxBatch(config) && id < |heap| && permits > 0
      requires batchCount > 0 ==> batch[batchCount - 1] < |heap|
      modifies this, batch, heap
      ensures Matches() && heap == old(heap) && (batch == old(batch) || fresh(batch))
      ensures model == Take(config, old(model), id)
    {
      if batchCount == 0 {
        AppendBuffer(id);
        return;
      }
      var lastBlock := heap[batch[batchCount - 1]].block;
      var block := heap[id].block;
      if batchCount + 1 >= config.maxLength {
        if lastBlock + 1 == block {
          AppendAndFlush(id);
        } else if lastBlock == block {
        } else {
          FlushAndAppend(id);
        }
      } else {
        if lastBlock + 1 == block {
          AppendBuffer(id);
        } else if lastBlock == block {
        } else {
          FlushAndAppend(id);
        }
      }
    }

    method AppendAndFlush(id: nat)
      requires Matches() && batchCount < batch.Length && id < |heap| && permits > 0
      modifies this`running, this`batch, this`batchCount, this`permits, this`model, batch, heap
      ensures Matches() && fresh(batch)
      ensures model == TakePermit(Launch(Append(old(model), id)))
    {
      AppendBuffer(id);
      FlushBatch();
      KeepPermit();
    }

    method FlushAndAppend(id: nat)
      requires Matches() && id < |heap| && permits > 0
      modifies this`running, this`batch, this`batchCount, this`permits, this`model, heap
      ensures Matches() && fresh(batch)
      ensures model == TakePermit(Append(Launch(old(model)), id))
    {
      FlushBatch();
      AppendBuffer(id);
      KeepPermit();
    }

    method KeepPermit()
      requires Matches() && permits > 0
      modifies this`permits, this`model
      ensures Matches() && model == TakePermit(old(model))
    {
      permits := permits - 1;
      model := TakePermit(model);
    }

    method AppendBuffer(id: nat)
      requires Matches() && batchCount < batch.Length && id < |heap|
      modifies this`batchCount, this`model, batch, heap
      ensures Matches() && batchCount == old(batchCount) + 1
      ensures model == Append(old(model), id)
    {
      batch[batchCount] := id;
      heap[id].Mark();
      batchCount := batchCount + 1;
      model := Append(model, id);
    }

    /** flushContinuousBuffers2, and the fresh batch array after it. */
    method FlushBatch()
      requires Matches()
      modifies this`running, this`batch, this`batchCount, this`model
      ensures Matches() && fresh(batch) && batchCount == 0
      ensures model == Launch(old(model))
    {
      running := running + [Flusher(batch[..batchCount], Locking, 0)];
      batchCount := 0;
      batch := new nat[config.maxLength + 1];
      model := Launch(model);
    }

    /** ThreadPoolWaitInternalThread in polling mode: join the oldest flusher and post its permit. */
    method WaitInternalThread()
      requires Matches()
      modifies this`running, this`permits, this`model
      ensures Matches() && model == WaitNext(old(model))
    {
      if |running| > 0 {
        running := running[1..];
        permits := permits + 1;
      }
      model := WaitNext(model);
    }

    // ---------- A flusher thread: write2DiskMultiple2 ----------

    method SetFlusher(f: nat, flusher: Flusher)
      requires Matches() && f < |running|
      modifies this`running, this`model
      ensures Matches() && model == WithFlusher(old(model), f, flusher)
    {
      running := running[f := flusher];
      model := WithFlusher(model, f, flusher);
    }

    method LockOne(f: nat)
      requires Matches() && Enabled(config, model, LockStep(f))
      modifies this`running, this`model, heap
      ensures Matches() && model == Next(config, old(model), LockStep(f))
    {
      var flusher := running[f];
      heap[flusher.bufs[flusher.next]].Lock();
      running := running[f := flusher.(next := flusher.next + 1)];
      model := LockNext(model, f);
    }

    /** The loop that fills the merge buffer. */
    method CopyAll(f: nat)
      requires Matches() && Enabled(config, model, CopyStep(f))
      modifies this`running, this`model
      ensures Matches() && model == Next(config, old(model), CopyStep(f))
    {
      var bufs := running[f].bufs;
      var data: seq<Content> := [];
      for i := 0 to |bufs|
        invariant |data| == i && forall j | 0 <= j < i :: data[j] == model.heap[bufs[j]].content
      {
        data := data + [heap[bufs[i]].content];
      }
      assert data == CopyNext(model, f).running[f].phase.data;
      SetFlusher(f, running[f].(phase := Writing(data)));
    }

    /** The merged write, in one piece. */
    method WriteOut(f: nat)
      requires Matches() && SizedBlocks(model.disk, blockSize) && SizedFlusher(model, f)
      requires Enabled(config, model, WriteOutStep(f))
      modifies this`running, this`model, disk
      ensures Matches() && model == Next(config, old(model), WriteOutStep(f))
    {
      var flusher := running[f];
      MergedWrite(heap[flusher.bufs[0]].block, flusher.phase.data);
      SetFlusher(f, flusher.(phase := Releasing, next := 0));
    }

    method MergedWrite(first: nat, data: seq<Content>)
      requires Matches() && SizedBlocks(model.disk, blockSize) && SizedBlocks(data, blockSize)
      requires first + |data| <= blocks
      modifies this`model, disk
      ensures Matches() && model == old(model).(disk := Overwrite(old(model).disk, first, data))
    {
      StartIsProduct(first, blockSize);
      OverwriteIsPatch(model.disk, blockSize, first, data);
      var start := first * blockSize;
      Copy(disk, start, Join(data));
      model := model.(disk := Overwrite(model.disk, first, data));
    }

    method ReleaseOne(f: nat)
      requires Matches() && Enabled(config, model, ReleaseStep(f))
      modifies this`running, this`model, heap
      ensures Matches() && model == Next(config, old(model), ReleaseStep(f))
    {
      var flusher := running[f];
      heap[flusher.bufs[flusher.next]].Release();
      running := running[f := flusher.(next := flusher.next + 1)];
      model := ReleaseNext(model, f);
    }
  }
}
