/** What holds over whole runs of the cache machine. */
module CacheTheorems {
  import opened Wrappers
  import opened DiskBytes
  import opened CacheMachine
  import opened CacheInvariant
  import opened CachePreservation
  import opened CacheAppPreservation

  // ---------- Runs ----------

  datatype Run = Run(states: seq<State>, steps: seq<Step>)

  ghost predicate IsRun(c: Config, r: Run) {
    && c.Valid()
    && |r.states| == |r.steps| + 1 && Init(c, r.states[0])
    && forall i | 0 <= i < |r.steps| :: Follows(c, r, i)
  }

  ghost predicate Follows(c: Config, r: Run, i: nat)
    requires i < |r.steps| && |r.states| == |r.steps| + 1
  {
    Enabled(c, r.states[i], r.steps[i]) && r.states[i + 1] == Next(c, r.states[i], r.steps[i])
  }

  lemma {:induction false} RunKeepsInv(c: Config, r: Run, n: nat)
    requires IsRun(c, r) && n < |r.states|
    ensures Inv(c, r.states[n]) && |r.states[n].disk| == |r.states[0].disk|
    ensures r.states[n].blockSize == r.states[0].blockSize
  {
    if n == 0 {
      InitInv(c, r.states[0]);
    } else {
      RunKeepsInv(c, r, n - 1);
      assert Follows(c, r, n - 1);
      NextKeeps(c, r.states[n - 1], r.steps[n - 1]);
      DiskKeepsSize(c, r.states[n - 1], r.steps[n - 1]);
    }
  }

  lemma DiskKeepsSize(c: Config, s: State, step: Step)
    requires Enabled(c, s, step)
    ensures |Next(c, s, step).disk| == |s.disk| && Next(c, s, step).blockSize == s.blockSize
    ensures s.misplaced ==> Next(c, s, step).misplaced
    ensures Next(c, s, step).misplaced ==> s.misplaced || step.EvictStep?
  {
  }

  // ---------- The cache and the disk are one array of blocks ----------

  /** What os_read would deliver, for blocks of the disk. */
  ghost function Sees(s: State, block: nat): Content
    requires block < |s.disk| && AllMapped(s)
  {
    assert block in s.cache ==> Mapped(s, block);
    Visible(s, block)
  }

  /** The content of a block as the application left it: that of a miss still waiting for a victim, or what
      os_read would deliver. */
  ghost function Latest(s: State, block: nat): Content
    requires block < |s.disk| && AllMapped(s) && AppInv(s)
  {
    if s.app.Evicting? && s.heap[s.app.incoming].block == block then s.heap[s.app.incoming].content
    else Sees(s, block)
  }

  /** What a step should do to the content of a block: an os_write replaces it, nothing else changes it. */
  function Overwritten(step: Step, block: nat, before: Content): Content {
    if step.WriteStep? && step.block == block then step.data else before
  }

  ghost predicate Proceeds(c: Config, s: State, step: Step, block: nat) {
    && AllMapped(s) && AppInv(s) && Enabled(c, s, step) && block < |s.disk|
    && |Next(c, s, step).disk| == |s.disk| && AllMapped(Next(c, s, step)) && AppInv(Next(c, s, step))
  }

  lemma ReadStepKeeps(c: Config, s: State, step: Step, block: nat)
    requires Proceeds(c, s, step, block) && step.ReadStep?
    ensures Latest(Next(c, s, step), block) == Latest(s, block)
  {
    assert block in s.cache ==> Mapped(s, block);
  }

  /** An os_write is seen at once, or held by its buffer until a victim has left. */
  lemma WriteStepWrites(c: Config, s: State, step: Step, block: nat)
    requires Proceeds(c, s, step, block) && step.WriteStep?
    ensures Latest(Next(c, s, step), block) == Overwritten(step, block, Latest(s, block))
  {
    assert block in s.cache ==> Mapped(s, block);
    assert step.block in s.cache ==> Mapped(s, step.block);
  }

  lemma EvictStepKeeps(c: Config, s: State, step: Step, block: nat)
    requires Inv(c, s) && Proceeds(c, s, step, block) && step.EvictStep? && !Next(c, s, step).misplaced
    ensures Latest(Next(c, s, step), block) == Latest(s, block)
  {
    assert block in s.cache ==> Mapped(s, block);
    assert BufferInv(s, s.app.victim) && BufferInv(s, s.app.incoming);
  }

  lemma WriteOutStepKeeps(c: Config, s: State, f: nat, block: nat)
    requires Core(c, s) && CanWriteOut(s, f) && block < |s.disk|
    requires AllMapped(WriteOutNext(s, f)) && AppInv(WriteOutNext(s, f))
    ensures Latest(WriteOutNext(s, f), block) == Latest(s, block)
  {
    assert FlusherOk(c, s, f);
    var held := WriteOutBlock(c, s, f, block);
  }

  lemma SameDataKeeps(s: State, s': State, block: nat)
    requires SameData(s, s') && s'.cache == s.cache && block < |s.disk| && AllMapped(s) && AllMapped(s')
    requires s'.app == s.app && AppInv(s) && AppInv(s')
    ensures Latest(s', block) == Latest(s, block)
  {
    if block in s.cache {
      assert Mapped(s, block);
      assert SameBuffer(s.heap[s.cache[block]], s'.heap[s.cache[block]]);
    }
    if s.app.Evicting? {
      assert SameBuffer(s.heap[s.app.incoming], s'.heap[s.app.incoming]);
    }
  }

  lemma TakeKeepsData(c: Config, s: State, id: nat)
    requires id < |s.heap| && s.permits > 0
    requires |s.batch| > 0 ==> s.batch[|s.batch| - 1] < |s.heap|
    ensures SameData(s, Take(c, s, id)) && Take(c, s, id).cache == s.cache
  {
    assert SameData(s, Append(s, id)) && SameData(s, Launch(Append(s, id)));
    assert SameData(s, Append(Launch(s), id));
  }

  lemma PickKeepsData(c: Config, s: State, id: nat)
    requires CanPick(s, id)
    ensures SameData(s, PickNext(c, s, id)) && PickNext(c, s, id).cache == s.cache
  {
    var s1 := s.(queue := s.queue - multiset{id});
    if !Skipped(s.heap[id]) {
      TakeKeepsData(c, s1, id);
    }
  }

  lemma FlusherStepKeepsData(s: State, f: nat)
    ensures CanLock(s, f) ==> SameData(s, LockNext(s, f)) && LockNext(s, f).cache == s.cache
    ensures CanRelease(s, f) ==> SameData(s, ReleaseNext(s, f)) && ReleaseNext(s, f).cache == s.cache
  {
  }

  /** Picking, launching, joining, locking, copying and releasing move no data. */
  lemma QuietStepKeepsData(c: Config, s: State, step: Step)
    requires Enabled(c, s, step) && !AppStep(step) && !step.WriteOutStep?
    ensures SameData(s, Next(c, s, step)) && Next(c, s, step).cache == s.cache
  {
    match step
    case PickStep(id) => PickKeepsData(c, s, id);
    case LockStep(f) => FlusherStepKeepsData(s, f);
    case ReleaseStep(f) => FlusherStepKeepsData(s, f);
    case _ =>
  }

  lemma QuietStepKeepsApp(c: Config, s: State, step: Step)
    requires Enabled(c, s, step) && !AppStep(step)
    ensures Next(c, s, step).app == s.app
  {
  }

  lemma StepProceeds(c: Config, s: State, step: Step, block: nat)
    requires c.Valid() && Inv(c, s) && Enabled(c, s, step) && block < |s.disk|
    ensures Inv(c, Next(c, s, step)) && Proceeds(c, s, step, block)
  {
    NextKeeps(c, s, step);
    DiskKeepsSize(c, s, step);
  }

  /** A step that misplaces no write changes the content of a block exactly if it is an os_write to it. */
  lemma StepWrites(c: Config, s: State, step: Step, block: nat)
    requires c.Valid() && Inv(c, s) && Enabled(c, s, step) && block < |s.disk| && !Next(c, s, step).misplaced
    ensures Inv(c, Next(c, s, step)) && |Next(c, s, step).disk| == |s.disk|
    ensures Latest(Next(c, s, step), block) == Overwritten(step, block, Latest(s, block))
  {
    StepProceeds(c, s, step, block);
    if step.ReadStep? {
      ReadStepKeeps(c, s, step, block);
    } else if step.WriteStep? {
      WriteStepWrites(c, s, step, block);
    } else if step.EvictStep? {
      EvictStepKeeps(c, s, step, block);
    } else if step.EnqueueStep? {
      assert block in s.cache ==> Mapped(s, block);
    } else if step.WriteOutStep? {
      WriteOutStepKeeps(c, s, step.f, block);
    } else {
      QuietStepKeepsData(c, s, step);
      QuietStepKeepsApp(c, s, step);
      SameDataKeeps(s, Next(c, s, step), block);
    }
  }

  /** The data of the last os_write to the block among the steps, or the initial content if there is none. */
  function LastWritten(steps: seq<Step>, block: nat, initial: Content): Content {
    if steps == [] then initial
    else Overwritten(steps[|steps| - 1], block, LastWritten(steps[..|steps| - 1], block, initial))
  }

  predicate Writes(step: Step, block: nat) {
    step.WriteStep? && step.block == block
  }

  lemma {:induction false} LastWrittenIsLastWrite(steps: seq<Step>, block: nat, initial: Content)
    returns (at: Option<nat>)
    ensures at.None? ==> LastWritten(steps, block, initial) == initial
    ensures at.None? ==> forall i | 0 <= i < |steps| :: !Writes(steps[i], block)
    ensures at.Some? ==> at.value < |steps| && Writes(steps[at.value], block)
    ensures at.Some? ==> LastWritten(steps, block, initial) == steps[at.value].data
    ensures at.Some? ==> forall i | at.value < i < |steps| :: !Writes(steps[i], block)
  {
    if steps == [] {
      at := None;
    } else {
      at := LastWrittenIsLastWrite(steps[..|steps| - 1], block, initial);
      if Writes(steps[|steps| - 1], block) {
        at := Some(|steps| - 1);
      }
    }
  }

  lemma LastWrittenStep(steps: seq<Step>, step: Step, block: nat, initial: Content)
    ensures LastWritten(steps + [step], block, initial) == Overwritten(step, block, LastWritten(steps, block, initial))
  {
    assert (steps + [step])[..|steps|] == steps;
  }

  ghost function LatestAt(c: Config, r: Run, n: nat, block: nat): Content
    requires IsRun(c, r) && n < |r.states| && block < |r.states[0].disk|
  {
    RunKeepsInv(c, r, n);
    Latest(r.states[n], block)
  }

  lemma RunStepWrites(c: Config, r: Run, i: nat, block: nat)
    requires IsRun(c, r) && i < |r.steps| && block < |r.states[0].disk| && !r.states[i + 1].misplaced
    ensures !r.states[i].misplaced
    ensures LatestAt(c, r, i + 1, block) == Overwritten(r.steps[i], block, LatestAt(c, r, i, block))
  {
    RunKeepsInv(c, r, i);
    assert Follows(c, r, i);
    DiskKeepsSize(c, r.states[i], r.steps[i]);
    StepWrites(c, r.states[i], r.steps[i], block);
  }

  /** As long as no eviction has written at a wrapped offset, each block has the data of the last os_write to it,
      or its initial content. */
  lemma {:induction false} PlacedIsLastWritten(c: Config, r: Run, n: nat, block: nat)
    requires IsRun(c, r) && n < |r.states| && block < |r.states[0].disk| && !r.states[n].misplaced
    ensures LatestAt(c, r, n, block) == LastWritten(r.steps[..n], block, r.states[0].disk[block])
  {
    if n > 0 {
      RunStepWrites(c, r, n - 1, block);
      PlacedIsLastWritten(c, r, n - 1, block);
      LastWrittenStep(r.steps[..n - 1], r.steps[n - 1], block, r.states[0].disk[block]);
      assert r.steps[..n] == r.steps[..n - 1] + [r.steps[n - 1]];
    } else {
      RunKeepsInv(c, r, 0);
    }
  }

  // ---------- When no write is misplaced ----------

  /** The cache has room for the whole disk, or every single write fits the `int` of its offset. */
  predicate WritesFit(c: Config, blocks: nat, size: nat) {
    blocks <= c.manageable || (blocks - 1) * size < 0x8000_0000
  }

  lemma FittingIsExact(blocks: nat, size: nat, block: nat)
    requires block < blocks && (blocks - 1) * size < INT_LIMIT
    ensures Exact(block, size)
  {
    StartIsProduct(blocks - 1, size);
    StartsGrow(block, blocks - 1, size);
  }

  /** A miss leaves room when the cache could hold the whole disk. */
  lemma RoomForAll(c: Config, s: State, block: nat)
    requires Inv(c, s) && |s.disk| <= c.manageable && block < |s.disk| && block !in s.cache
    ensures !ShouldEvict(c, s)
  {
    var all := Range(|s.disk|);
    forall b | b in s.cache
      ensures b in all
    {
      assert Mapped(s, b) && BufferInv(s, s.cache[b]);
    }
    assert s.cache.Keys < all;
    ProperSubsetSize(s.cache.Keys, all);
  }

  ghost function Range(n: nat): (r: set<nat>)
    ensures |r| == n && forall x :: x in r <==> 0 <= x < n
  {
    if n == 0 then {} else Range(n - 1) + {n - 1}
  }

  lemma ProperSubsetSize(small: set<nat>, large: set<nat>)
    requires small < large
    ensures |small| < |large|
  {
    var x :| x in large - small;
    assert |large - small| == |large| - |small|;
  }

  lemma RoomyStepNeverEvicts(c: Config, s: State, step: Step)
    requires Inv(c, s) && Enabled(c, s, step) && |s.disk| <= c.manageable && !s.app.Evicting?
    ensures !Next(c, s, step).app.Evicting?
  {
    if step.ReadStep? || step.WriteStep? {
      if step.block !in s.cache {
        RoomForAll(c, s, step.block);
      }
    }
  }

  lemma EvictFits(c: Config, s: State, step: Step)
    requires Inv(c, s) && Enabled(c, s, step) && step.EvictStep? && !s.misplaced
    requires (|s.disk| - 1) * s.blockSize < INT_LIMIT
    ensures !Next(c, s, step).misplaced
  {
    assert BufferInv(s, s.app.victim);
    FittingIsExact(|s.disk|, s.blockSize, s.heap[s.app.victim].block);
  }

  ghost predicate Placed(c: Config, s: State) {
    !s.misplaced && (|s.disk| <= c.manageable ==> !s.app.Evicting?)
  }

  lemma FittingStepIsPlaced(c: Config, s: State, step: Step)
    requires Inv(c, s) && Enabled(c, s, step) && Placed(c, s) && WritesFit(c, |s.disk|, s.blockSize)
    ensures Placed(c, Next(c, s, step))
  {
    DiskKeepsSize(c, s, step);
    if |s.disk| <= c.manageable {
      RoomyStepNeverEvicts(c, s, step);
    } else if step.EvictStep? {
      EvictFits(c, s, step);
    }
  }

  /** Then no run misplaces a write. */
  lemma {:induction false} NeverMisplaced(c: Config, r: Run, n: nat)
    requires IsRun(c, r) && n < |r.states| && WritesFit(c, |r.states[0].disk|, r.states[0].blockSize)
    ensures Placed(c, r.states[n])
  {
    if n > 0 {
      NeverMisplaced(c, r, n - 1);
      RunKeepsInv(c, r, n - 1);
      assert Follows(c, r, n - 1);
      FittingStepIsPlaced(c, r.states[n - 1], r.steps[n - 1]);
    }
  }

  /** In every reachable state, under every interleaving, each block has the data of the last os_write to it, or
      its initial content, provided the single writes fit. */
  lemma LatestIsLastWritten(c: Config, r: Run, n: nat, block: nat)
    requires IsRun(c, r) && n < |r.states| && block < |r.states[0].disk|
    requires WritesFit(c, |r.states[0].disk|, r.states[0].blockSize)
    ensures LatestAt(c, r, n, block) == LastWritten(r.steps[..n], block, r.states[0].disk[block])
  {
    NeverMisplaced(c, r, n);
    PlacedIsLastWritten(c, r, n, block);
  }

  /** The os_read of step `i` delivers the data of the last os_write to its block before it, or the initial
      content. */
  ghost predicate DeliversLast(c: Config, r: Run, i: nat)
    requires IsRun(c, r) && i < |r.steps| && r.steps[i].ReadStep?
  {
    var s, block := r.states[i], r.steps[i].block;
    && block < |s.disk| && block < |r.states[0].disk| && (block in s.cache ==> s.cache[block] < |s.heap|)
    && Visible(s, block) == LastWritten(r.steps[..i], block, r.states[0].disk[block])
  }

  lemma ReadsLatest(c: Config, r: Run, i: nat)
    requires IsRun(c, r) && i < |r.steps| && r.steps[i].ReadStep?
    ensures Inv(c, r.states[i]) && r.steps[i].block < |r.states[i].disk| == |r.states[0].disk|
    ensures r.steps[i].block in r.states[i].cache ==> r.states[i].cache[r.steps[i].block] < |r.states[i].heap|
    ensures Visible(r.states[i], r.steps[i].block) == LatestAt(c, r, i, r.steps[i].block)
  {
    RunKeepsInv(c, r, i);
    assert Follows(c, r, i);
  }

  /** Then every os_read does. */
  lemma ReadsLastWritten(c: Config, r: Run, i: nat)
    requires IsRun(c, r) && i < |r.steps| && r.steps[i].ReadStep?
    requires WritesFit(c, |r.states[0].disk|, r.states[0].blockSize)
    ensures DeliversLast(c, r, i)
  {
    ReadsLatest(c, r, i);
    LatestIsLastWritten(c, r, i, r.steps[i].block);
  }

  // ---------- What every reachable state satisfies ----------

  /** A mapped buffer is valid and keyed by its block; a clean one holds exactly the bytes of its disk
      block, provided the single writes fit. */
  lemma CleanMeansSynced(c: Config, r: Run, n: nat, block: nat)
    requires IsRun(c, r) && n < |r.states| && block in r.states[n].cache
    ensures var s := r.states[n];
            && s.cache[block] < |s.heap| && block < |s.disk|
            && var b := s.heap[s.cache[block]];
            && b.valid && b.block == block
            && (WritesFit(c, |r.states[0].disk|, r.states[0].blockSize) && !b.dirty ==> b.content == s.disk[block])
  {
    RunKeepsInv(c, r, n);
    assert Mapped(r.states[n], block) && BufferInv(r.states[n], r.states[n].cache[block]);
    if WritesFit(c, |r.states[0].disk|, r.states[0].blockSize) {
      NeverMisplaced(c, r, n);
    }
  }

  ghost predicate InBatchOrFlusher(s: State, id: nat) {
    id in s.batch || exists f :: 0 <= f < |s.running| && Unreleased(s.running[f], id)
  }

  /** The flusher has not yet released this buffer. */
  predicate Unreleased(f: Flusher, id: nat) {
    f.next <= |f.bufs| && (if f.phase.Releasing? then id in f.bufs[f.next..] else id in f.bufs)
  }

  lemma LoadIsUnreleased(f: Flusher, held: bool, id: nat)
    requires Load(f, held)[id] > 0
    ensures Unreleased(f, id)
  {
    if f.phase.Locking? {
      assert f.bufs == f.bufs[..f.next] + f.bufs[f.next..];
    }
  }

  lemma {:induction false} CountedIsUnreleased(fs: seq<Flusher>, held: bool, id: nat) returns (f: nat)
    requires Total(fs, held)[id] > 0
    ensures f < |fs| && Unreleased(fs[f], id) && id in Load(fs[f], held)
  {
    assert Total(fs, held)[id] == Load(fs[0], held)[id] + Total(fs[1..], held)[id];
    if Load(fs[0], held)[id] > 0 {
      f := 0;
      LoadIsUnreleased(fs[0], held, id);
    } else {
      var g := CountedIsUnreleased(fs[1..], held, id);
      f := g + 1;
    }
  }

  /** No dirty block is forgotten: a dirty cached buffer is queued, batched, with a flusher that
      has not released it, or about to be queued. */
  lemma DirtyIsNotForgotten(c: Config, r: Run, n: nat, block: nat)
    requires IsRun(c, r) && n < |r.states| && block in r.states[n].cache
    ensures var s := r.states[n];
            && s.cache[block] < |s.heap|
            && (s.heap[s.cache[block]].dirty ==>
                 || s.cache[block] in s.queue
                 || InBatchOrFlusher(s, s.cache[block])
                 || s.app == Enqueueing(s.cache[block]))
  {
    RunKeepsInv(c, r, n);
    var s := r.states[n];
    var id := s.cache[block];
    assert Mapped(s, block) && BufferInv(s, id);
    if s.heap[id].locked {
      var f := CountedIsUnreleased(s.running, true, id);
    } else if s.heap[id].requests > 0 && id !in s.batch {
      var f := CountedIsUnreleased(s.running, false, id);
    }
  }

  /** The request count of a buffer is the number of its entries in the batch and in flushers that
      have not locked it; a held lock means being-written is set. So the busy wait of an eviction
      ends only when no flusher holds the victim or will still write it. */
  lemma EvictionIsSafe(c: Config, r: Run, n: nat, id: nat)
    requires IsRun(c, r) && n < |r.states| && id < |r.states[n].heap|
    ensures var s := r.states[n];
            && s.heap[id].requests == Waiting(s, id)
            && (s.heap[id].locked <==> Holders(s, id) == 1) && Holders(s, id) <= 1
            && (s.heap[id].locked ==> s.heap[id].beingWritten)
    ensures var s := r.states[n]; (s.heap[id].beingWritten || s.heap[id].requests > 0) <==> InBatchOrFlusher(s, id)
    ensures var s := r.states[n]; InBatchOrFlusher(s, id) ==> s.heap[id].valid && Cached(s, id)
  {
    RunKeepsInv(c, r, n);
    var s := r.states[n];
    assert BufferInv(s, id);
    if s.heap[id].locked {
      var f := CountedIsUnreleased(s.running, true, id);
    }
    if s.heap[id].requests > 0 && id !in s.batch {
      var f := CountedIsUnreleased(s.running, false, id);
    }
    forall f | 0 <= f < |s.running| && Unreleased(s.running[f], id)
      ensures s.heap[id].requests > 0 || s.heap[id].locked
    {
      UnreleasedIsCounted(s, f, id);
    }
  }

  lemma UnreleasedIsCounted(s: State, f: nat, id: nat)
    requires f < |s.running| && Unreleased(s.running[f], id)
    ensures Waiting(s, id) > 0 || Holders(s, id) > 0
  {
    var flusher := s.running[f];
    TotalIncludes(s.running, f, false, id);
    TotalIncludes(s.running, f, true, id);
    if flusher.phase == Locking {
      assert flusher.bufs == flusher.bufs[..flusher.next] + flusher.bufs[flusher.next..];
    }
  }

  /** The hash map and the policy deque hold the same buffers, once each, and never more than a
      positive capacity. */
  lemma CacheIsBounded(c: Config, r: Run, n: nat)
    requires IsRun(c, r) && n < |r.states|
    ensures var s := r.states[n];
            && |s.cache| <= MaxSize(c)
            && (forall id :: id in s.policy <==> id in s.cache.Values)
            && (forall i, j | 0 <= i < j < |s.policy| :: s.policy[i] != s.policy[j])
  {
    RunKeepsInv(c, r, n);
    var s := r.states[n];
    forall id
      ensures id in s.policy <==> id in s.cache.Values
    {
      if id in s.policy {
        assert BufferInv(s, id);
      }
      if id in s.cache.Values {
        var block :| block in s.cache && s.cache[block] == id;
        assert Mapped(s, block) && BufferInv(s, id);
        assert id in multiset(s.policy);
      }
    }
    forall i, j | 0 <= i < j < |s.policy|
      ensures s.policy[i] != s.policy[j]
    {
      assert s.policy == s.policy[..j] + [s.policy[j]] + s.policy[j + 1..];
      assert s.policy[..j][i] in multiset(s.policy[..j]);
      assert BufferInv(s, s.policy[j]);
    }
  }

  /** Permits and unjoined flushers add up to the threads of the pool and the batches launched while
      the queue was empty, so a failed permit attempt finds a thread to join. */
  lemma PermitsAreAccounted(c: Config, r: Run, n: nat)
    requires IsRun(c, r) && n < |r.states|
    ensures var s := r.states[n];
            && s.permits + |s.running| == c.threads + s.idleFlushes
            && (c.threads > 0 && s.permits == 0 ==> |s.running| > 0)
  {
    RunKeepsInv(c, r, n);
  }

  /** The batch holds consecutive blocks and fits its array, and so does every launched batch, which
      exceeds the maximum length only when that is one. */
  lemma BatchesAreConsecutive(c: Config, r: Run, n: nat)
    requires IsRun(c, r) && n < |r.states|
    ensures var s := r.states[n];
            && Consecutive(s, s.batch) && |s.batch| <= MaxBatch(c)
            && (forall f | 0 <= f < |s.running| ::
                  Consecutive(s, s.running[f].bufs) && |s.running[f].bufs| <= MaxBatch(c) + 1)
            && MaxBatch(c) + 1 == (if c.maxLength == 1 then 2 else c.maxLength)
  {
    RunKeepsInv(c, r, n);
    var s := r.states[n];
    forall f | 0 <= f < |s.running|
      ensures Consecutive(s, s.running[f].bufs) && |s.running[f].bufs| <= MaxBatch(c) + 1
    {
      assert FlusherOk(c, s, f);
    }
  }
}
