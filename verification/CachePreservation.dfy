/** Every step of the cache machine keeps the invariant. */
module CachePreservation {
  import opened Wrappers
  import opened CacheMachine
  import opened CacheInvariant

  // ---------- Facts about one buffer ----------

  /** The flusher holds the lock of its buffer number `i`. */
  predicate HeldAt(f: Flusher, i: nat) {
    && i < |f.bufs| && f.next <= |f.bufs|
    && match f.phase
       case Locking => i < f.next
       case Writing(_) => true
       case Releasing => f.next <= i
  }

  lemma HeldIsLoaded(f: Flusher, i: nat)
    requires HeldAt(f, i)
    ensures Load(f, true)[f.bufs[i]] > 0
  {
    match f.phase
    case Locking => assert f.bufs[i] in f.bufs[..f.next];
    case Writing(_) => assert f.bufs[i] in f.bufs;
    case Releasing => assert f.bufs[i] in f.bufs[f.next..];
  }

  /** A buffer held by a flusher is locked, valid and cached. */
  lemma HeldIsLocked(s: State, f: nat, i: nat)
    requires f < |s.running| && HeldAt(s.running[f], i) && BufferInv(s, s.running[f].bufs[i])
    ensures s.heap[s.running[f].bufs[i]].locked && Cached(s, s.running[f].bufs[i])
  {
    HeldIsLoaded(s.running[f], i);
    TotalIncludes(s.running, f, true, s.running[f].bufs[i]);
  }

  /** Two flushers never hold the same buffer. */
  lemma HeldOnce(s: State, f: nat, i: nat, g: nat, j: nat)
    requires f < |s.running| && HeldAt(s.running[f], i) && BufferInv(s, s.running[f].bufs[i])
    requires g < |s.running| && HeldAt(s.running[g], j) && f != g
    ensures s.running[f].bufs[i] != s.running[g].bufs[j]
  {
    var id := s.running[f].bufs[i];
    if id == s.running[g].bufs[j] {
      HeldIsLoaded(s.running[f], i);
      HeldIsLoaded(s.running[g], j);
      TotalIncludesBoth(s.running, if f < g then f else g, if f < g then g else f, true, id);
      assert false;
    }
  }

  /** An invariant flusher stays so when the disk and the heap keep what it refers to. */
  lemma FlusherFrame(c: Config, s: State, s': State, f: Flusher)
    requires FlusherInv(c, s, f) && |s.heap| <= |s'.heap| && |s.disk| == |s'.disk| && (s.misplaced ==> s'.misplaced)
    requires forall i | 0 <= i < |f.bufs| :: s'.heap[f.bufs[i]].block == s.heap[f.bufs[i]].block
    requires forall i | 0 <= i < |f.bufs| && HeldAt(f, i) ::
               && s'.heap[f.bufs[i]].content == s.heap[f.bufs[i]].content
               && s.heap[f.bufs[i]].block < |s.disk|
               && (s'.misplaced || s'.disk[s.heap[f.bufs[i]].block] == s.disk[s.heap[f.bufs[i]].block])
    ensures FlusherInv(c, s', f)
  {
  }

  // ---------- Steps that leave data alone ----------

  /** The disk, the blocks and the contents are the same. */
  ghost predicate SameData(s: State, s': State) {
    && s'.disk == s.disk && s'.misplaced == s.misplaced && |s'.heap| == |s.heap|
    && forall id | 0 <= id < |s.heap| :: SameBuffer(s.heap[id], s'.heap[id])
  }

  predicate SameBuffer(b: Buffer, b': Buffer) {
    b'.block == b.block && b'.content == b.content && b'.valid == b.valid
  }

  lemma SameDataKeepsFlusher(c: Config, s: State, s': State, f: Flusher)
    requires FlusherInv(c, s, f) && SameData(s, s')
    ensures FlusherInv(c, s', f)
  {
    forall i | 0 <= i < |f.bufs|
      ensures SameBuffer(s.heap[f.bufs[i]], s'.heap[f.bufs[i]])
    {
    }
  }

  lemma SameDataKeepsMapped(s: State, s': State)
    requires AllMapped(s) && SameData(s, s') && s'.cache == s.cache
    ensures AllMapped(s')
  {
    forall block | block in s'.cache
      ensures Mapped(s', block)
    {
      assert Mapped(s, block);
      assert SameBuffer(s.heap[s.cache[block]], s'.heap[s.cache[block]]);
    }
  }

  /** Every flusher of `s'` is one of `s`, in a position given by `from`, or the changed one. */
  lemma SameDataKeepsFlushers(c: Config, s: State, s': State, changed: int)
    requires AllFlushers(c, s) && SameData(s, s') && |s'.running| == |s.running|
    requires forall f | 0 <= f < |s.running| && f != changed :: s'.running[f] == s.running[f]
    requires 0 <= changed < |s.running| ==> FlusherInv(c, s', s'.running[changed])
    ensures AllFlushers(c, s')
  {
    forall f | 0 <= f < |s'.running|
      ensures FlusherOk(c, s', f)
    {
      if f != changed {
        assert FlusherOk(c, s, f);
        SameDataKeepsFlusher(c, s, s', s.running[f]);
      }
    }
  }

  lemma SameDataKeepsLists(s: State, s': State)
    requires ListsInv(s) && SameData(s, s') && s'.policy == s.policy && s'.batch == s.batch && s'.queue <= s.queue
    ensures ListsInv(s')
  {
    forall i | 0 <= i < |s.batch|
      ensures SameBuffer(s.heap[s.batch[i]], s'.heap[s.batch[i]])
    {
    }
  }

  lemma EnqueueKeeps(c: Config, s: State)
    requires Core(c, s) && s.app.Enqueueing?
    ensures Core(c, EnqueueNext(s))
  {
    var s' := EnqueueNext(s);
    assert AllBuffers(s') by {
      forall id | 0 <= id < |s'.heap|
        ensures BufferInv(s', id)
      {
        assert BufferInv(s, id);
      }
    }
    SameDataKeepsMapped(s, s');
    SameDataKeepsFlushers(c, s, s', -1);
  }

  lemma LockCounts(s: State, f: nat, id: nat)
    requires f < |s.running| && s.running[f].phase == Locking && s.running[f].next < |s.running[f].bufs|
    requires s.running[f].bufs[s.running[f].next] < |s.heap|
    ensures var hit := if id == s.running[f].bufs[s.running[f].next] then 1 else 0;
            && Waiting(LockNext(s, f), id) == Waiting(s, id) - hit
            && Holders(LockNext(s, f), id) == Holders(s, id) + hit
  {
    var s' := LockNext(s, f);
    var flusher, flusher' := s.running[f], s'.running[f];
    var at := flusher.bufs[flusher.next];
    assert flusher.bufs[flusher.next..] == [at] + flusher.bufs[flusher'.next..];
    assert flusher.bufs[..flusher'.next] == flusher.bufs[..flusher.next] + [at];
    TotalUpdate(s.running, f, flusher', false, id);
    TotalUpdate(s.running, f, flusher', true, id);
  }

  predicate CanLock(s: State, f: nat) {
    && f < |s.running| && s.running[f].phase == Locking && s.running[f].next < |s.running[f].bufs|
    && s.running[f].bufs[s.running[f].next] < |s.heap| && !s.heap[s.running[f].bufs[s.running[f].next]].locked
  }

  lemma LockBuffers(s: State, f: nat)
    requires CanLock(s, f) && AllBuffers(s)
    ensures AllBuffers(LockNext(s, f))
  {
    forall id | 0 <= id < |s.heap|
      ensures BufferInv(LockNext(s, f), id)
    {
      assert BufferInv(s, id);
      LockCounts(s, f, id);
    }
  }

  lemma LockApp(s: State, f: nat)
    requires CanLock(s, f) && AllBuffers(s) && AppInv(s)
    ensures AppInv(LockNext(s, f))
  {
    var at := s.running[f].bufs[s.running[f].next];
    LockCounts(s, f, at);
    assert BufferInv(s, at);
  }

  lemma LockKeeps(c: Config, s: State, f: nat)
    requires Core(c, s) && CanLock(s, f)
    ensures Core(c, LockNext(s, f))
  {
    var s' := LockNext(s, f);
    LockBuffers(s, f);
    LockApp(s, f);
    SameDataKeepsMapped(s, s');
    SameDataKeepsLists(s, s');
    assert FlusherOk(c, s, f);
    SameDataKeepsFlusher(c, s, s', s.running[f]);
    SameDataKeepsFlushers(c, s, s', f);
  }

  // ---------- Copy, write out, release, join ----------

  predicate CanCopy(s: State, f: nat) {
    && f < |s.running| && s.running[f].phase == Locking && s.running[f].next == |s.running[f].bufs|
    && forall i | 0 <= i < |s.running[f].bufs| :: s.running[f].bufs[i] < |s.heap|
  }

  lemma CopyCounts(s: State, f: nat, id: nat)
    requires CanCopy(s, f)
    ensures Waiting(CopyNext(s, f), id) == Waiting(s, id) && Holders(CopyNext(s, f), id) == Holders(s, id)
  {
    var flusher, flusher' := s.running[f], CopyNext(s, f).running[f];
    assert flusher.bufs[..flusher.next] == flusher.bufs;
    TotalUpdate(s.running, f, flusher', false, id);
    TotalUpdate(s.running, f, flusher', true, id);
  }

  lemma CopyBuffers(s: State, f: nat)
    requires CanCopy(s, f) && AllBuffers(s)
    ensures AllBuffers(CopyNext(s, f))
  {
    forall id | 0 <= id < |s.heap|
      ensures BufferInv(CopyNext(s, f), id)
    {
      assert BufferInv(s, id);
      CopyCounts(s, f, id);
    }
  }

  lemma CopyKeeps(c: Config, s: State, f: nat)
    requires Core(c, s) && CanCopy(s, f)
    ensures Core(c, CopyNext(s, f))
  {
    var s' := CopyNext(s, f);
    CopyBuffers(s, f);
    SameDataKeepsMapped(s, s');
    SameDataKeepsLists(s, s');
    assert FlusherOk(c, s, f);
    SameDataKeepsFlusher(c, s, s', s.running[f]);
    SameDataKeepsFlushers(c, s, s', f);
  }

  predicate CanWriteOut(s: State, f: nat) {
    && f < |s.running| && s.running[f].phase.Writing?
    && |s.running[f].bufs| > 0 && s.running[f].bufs[0] < |s.heap|
    && s.heap[s.running[f].bufs[0]].block + |s.running[f].phase.data| <= |s.disk|
  }

  /** A block that a write-out changes is the block of a buffer that the flusher holds, and gets its content. */
  lemma WriteOutBlock(c: Config, s: State, f: nat, block: nat) returns (held: Option<nat>)
    requires CanWriteOut(s, f) && FlusherOk(c, s, f) && AllBuffers(s) && block < |s.disk|
    ensures held.None? ==> WriteOutNext(s, f).disk[block] == s.disk[block]
    ensures held.Some? ==>
              && held.value < |s.running[f].bufs|
              && var id := s.running[f].bufs[held.value];
              && id < |s.heap| && s.heap[id].block == block && Cached(s, id)
              && WriteOutNext(s, f).disk[block] == s.heap[id].content
  {
    var flusher := s.running[f];
    var start := s.heap[flusher.bufs[0]].block;
    if start <= block < start + |flusher.bufs| {
      var id := flusher.bufs[block - start];
      assert BufferInv(s, id);
      HeldIsLocked(s, f, block - start);
      held := Some(block - start);
    } else {
      held := None;
    }
  }

  lemma WriteOutLoad(f: Flusher, f': Flusher)
    requires f.phase.Writing? && f.next <= |f.bufs| && f' == f.(phase := Releasing, next := 0)
    ensures Load(f', false) == Load(f, false) && Load(f', true) == Load(f, true)
  {
    assert f.bufs[0..] == f.bufs;
  }

  lemma WriteOutCounts(c: Config, s: State, f: nat, id: nat)
    requires CanWriteOut(s, f) && FlusherOk(c, s, f)
    ensures Waiting(WriteOutNext(s, f), id) == Waiting(s, id) && Holders(WriteOutNext(s, f), id) == Holders(s, id)
  {
    var flusher, flusher' := s.running[f], WriteOutNext(s, f).running[f];
    WriteOutLoad(flusher, flusher');
    TotalUpdate(s.running, f, flusher', false, id);
    TotalUpdate(s.running, f, flusher', true, id);
  }

  /** A cached and clean buffer is still synced. */
  lemma WriteOutSynced(c: Config, s: State, f: nat, id: nat)
    requires CanWriteOut(s, f) && FlusherOk(c, s, f) && AllBuffers(s) && id < |s.heap|
    requires Cached(s, id) && !s.heap[id].dirty && !s.misplaced
    ensures s.heap[id].block < |s.disk| && s.heap[id].content == WriteOutNext(s, f).disk[s.heap[id].block]
  {
    assert BufferInv(s, id);
    var held := WriteOutBlock(c, s, f, s.heap[id].block);
  }

  lemma WriteOutBuffers(c: Config, s: State, f: nat)
    requires CanWriteOut(s, f) && FlusherOk(c, s, f) && AllBuffers(s)
    ensures AllBuffers(WriteOutNext(s, f))
  {
    forall id | 0 <= id < |s.heap|
      ensures BufferInv(WriteOutNext(s, f), id)
    {
      assert BufferInv(s, id);
      WriteOutCounts(c, s, f, id);
      if Cached(s, id) && !s.heap[id].dirty && !s.misplaced {
        WriteOutSynced(c, s, f, id);
      }
    }
  }

  lemma WriteOutSelf(c: Config, s: State, f: nat)
    requires CanWriteOut(s, f) && FlusherOk(c, s, f)
    ensures FlusherOk(c, WriteOutNext(s, f), f)
  {
    var flusher, disk := s.running[f], WriteOutNext(s, f).disk;
    var start := s.heap[flusher.bufs[0]].block;
    forall i | 0 <= i < |flusher.bufs|
      ensures disk[s.heap[flusher.bufs[i]].block] == s.heap[flusher.bufs[i]].content
    {
      assert disk[start + i] == flusher.phase.data[i];
    }
  }

  lemma WriteOutOther(c: Config, s: State, f: nat, g: nat)
    requires CanWriteOut(s, f) && FlusherOk(c, s, f) && FlusherOk(c, s, g) && AllBuffers(s) && f != g
    ensures FlusherOk(c, WriteOutNext(s, f), g)
  {
    var s' := WriteOutNext(s, f);
    var flusher := s.running[g];
    forall i | 0 <= i < |flusher.bufs| && HeldAt(flusher, i)
      ensures var block := s.heap[flusher.bufs[i]].block;
              block < |s.disk| && s'.disk[block] == s.disk[block]
    {
      assert BufferInv(s, flusher.bufs[i]);
      HeldIsLocked(s, g, i);
      var held := WriteOutBlock(c, s, f, s.heap[flusher.bufs[i]].block);
      if held.Some? {
        WritingHolds(s, f, held.value);
        HeldOnce(s, g, i, f, held.value);
      }
    }
    FlusherFrame(c, s, s', flusher);
  }

  lemma WritingHolds(s: State, f: nat, i: nat)
    requires f < |s.running| && s.running[f].phase.Writing? && s.running[f].next <= |s.running[f].bufs|
    requires i < |s.running[f].bufs|
    ensures HeldAt(s.running[f], i)
  {
  }

  lemma WriteOutApp(c: Config, s: State, f: nat)
    requires CanWriteOut(s, f) && FlusherOk(c, s, f) && AllBuffers(s) && AppInv(s)
    ensures AppInv(WriteOutNext(s, f))
  {
    if s.app.Evicting? {
      var held := WriteOutBlock(c, s, f, s.heap[s.app.incoming].block);
    }
  }

  lemma WriteOutKeeps(c: Config, s: State, f: nat)
    requires Core(c, s) && CanWriteOut(s, f)
    ensures Core(c, WriteOutNext(s, f))
  {
    var s' := WriteOutNext(s, f);
    assert FlusherOk(c, s, f);
    WriteOutBuffers(c, s, f);
    WriteOutApp(c, s, f);
    forall g | 0 <= g < |s.running|
      ensures FlusherOk(c, s', g)
    {
      assert FlusherOk(c, s, g);
      if f == g {
        WriteOutSelf(c, s, f);
      } else {
        WriteOutOther(c, s, f, g);
      }
    }
    forall block | block in s.cache
      ensures Mapped(s', block)
    {
      assert Mapped(s, block);
    }
  }

  predicate CanRelease(s: State, f: nat) {
    && f < |s.running| && s.running[f].phase == Releasing && s.running[f].next < |s.running[f].bufs|
    && s.running[f].bufs[s.running[f].next] < |s.heap|
  }

  lemma ReleaseCounts(s: State, f: nat, id: nat)
    requires CanRelease(s, f)
    ensures Waiting(ReleaseNext(s, f), id) == Waiting(s, id)
    ensures Holders(ReleaseNext(s, f), id) + (if id == s.running[f].bufs[s.running[f].next] then 1 else 0)
         == Holders(s, id)
  {
    var s' := ReleaseNext(s, f);
    var flusher, flusher' := s.running[f], s'.running[f];
    assert flusher.bufs[flusher.next..] == [flusher.bufs[flusher.next]] + flusher.bufs[flusher'.next..];
    TotalUpdate(s.running, f, flusher', false, id);
    TotalUpdate(s.running, f, flusher', true, id);
  }

  lemma ReleaseBuffers(c: Config, s: State, f: nat)
    requires CanRelease(s, f) && FlusherOk(c, s, f) && AllBuffers(s)
    ensures AllBuffers(ReleaseNext(s, f))
  {
    forall id | 0 <= id < |s.heap|
      ensures BufferInv(ReleaseNext(s, f), id)
    {
      assert BufferInv(s, id);
      ReleaseCounts(s, f, id);
    }
  }

  lemma ReleaseApp(s: State, f: nat)
    requires CanRelease(s, f) && AllBuffers(s) && AppInv(s)
    ensures AppInv(ReleaseNext(s, f))
  {
    var at := s.running[f].bufs[s.running[f].next];
    ReleaseCounts(s, f, at);
    assert BufferInv(s, at);
  }

  lemma ReleaseKeeps(c: Config, s: State, f: nat)
    requires Core(c, s) && CanRelease(s, f)
    ensures Core(c, ReleaseNext(s, f))
  {
    var s' := ReleaseNext(s, f);
    assert FlusherOk(c, s, f);
    ReleaseBuffers(c, s, f);
    ReleaseApp(s, f);
    SameDataKeepsMapped(s, s');
    SameDataKeepsLists(s, s');
    SameDataKeepsFlusher(c, s, s', s.running[f]);
    SameDataKeepsFlushers(c, s, s', f);
  }

  lemma WaitBuffers(s: State)
    requires |s.running| > 0 && s.running[0].Finished() && AllBuffers(s)
    ensures AllBuffers(WaitNext(s))
  {
    var s' := WaitNext(s);
    var flusher := s.running[0];
    assert flusher.bufs[flusher.next..] == [];
    forall id | 0 <= id < |s.heap|
      ensures BufferInv(s', id)
    {
      assert BufferInv(s, id);
    }
  }

  lemma WaitKeeps(c: Config, s: State)
    requires Core(c, s) && (|s.running| > 0 ==> s.running[0].Finished())
    ensures Core(c, WaitNext(s))
  {
    if |s.running| > 0 {
      var s' := WaitNext(s);
      WaitBuffers(s);
      SameDataKeepsMapped(s, s');
      SameDataKeepsLists(s, s');
      forall f | 0 <= f < |s'.running|
        ensures FlusherOk(c, s', f)
      {
        assert FlusherOk(c, s, f + 1);
        SameDataKeepsFlusher(c, s, s', s.running[f + 1]);
      }
    }
  }

  // ---------- The polling thread ----------

  lemma LaunchBuffers(s: State)
    requires AllBuffers(s)
    ensures AllBuffers(Launch(s))
  {
    var flusher := Flusher(s.batch, Locking, 0);
    assert s.batch[0..] == s.batch;
    TotalAppend(s.running, flusher, false);
    TotalAppend(s.running, flusher, true);
    forall id | 0 <= id < |s.heap|
      ensures BufferInv(Launch(s), id)
    {
      assert BufferInv(s, id);
    }
  }

  lemma LaunchKeeps(c: Config, s: State)
    requires Core(c, s) && 0 < |s.batch| <= MaxBatch(c) + 1
    ensures Core(c, Launch(s)) && Launch(s).heap == s.heap
  {
    var s' := Launch(s);
    LaunchBuffers(s);
    assert BufferInv(s, s.batch[|s.batch| - 1]);
    forall f | 0 <= f < |s'.running|
      ensures FlusherOk(c, s', f)
    {
      if f < |s.running| {
        assert FlusherOk(c, s, f);
        SameDataKeepsFlusher(c, s, s', s.running[f]);
      }
    }
    SameDataKeepsMapped(s, s');
  }

  /** A picked buffer that no skip rule drops. */
  ghost predicate Picked(s: State, id: nat) {
    id < |s.heap| && !Skipped(s.heap[id]) && !s.heap[id].locked && !Incoming(s, id)
  }

  lemma AppendBuffers(s: State, id: nat)
    requires AllBuffers(s) && Picked(s, id)
    ensures AllBuffers(Append(s, id))
  {
    var s' := Append(s, id);
    assert BufferInv(s, id);
    forall i | 0 <= i < |s.heap|
      ensures BufferInv(s', i)
    {
      assert BufferInv(s, i);
      assert multiset(s'.batch) == multiset(s.batch) + multiset{id};
    }
  }

  lemma AppendKeeps(c: Config, s: State, id: nat)
    requires Core(c, s) && Picked(s, id)
    requires |s.batch| == 0 || s.heap[s.batch[|s.batch| - 1]].block + 1 == s.heap[id].block
    ensures Core(c, Append(s, id)) && Append(s, id).heap[id].requests > 0
  {
    var s' := Append(s, id);
    AppendBuffers(s, id);
    SameDataKeepsMapped(s, s');
    SameDataKeepsFlushers(c, s, s', -1);
    AppendLists(s, id);
  }

  lemma AppendLists(s: State, id: nat)
    requires ListsInv(s) && id < |s.heap|
    requires |s.batch| == 0 || s.heap[s.batch[|s.batch| - 1]].block + 1 == s.heap[id].block
    ensures ListsInv(Append(s, id))
  {
  }

  /** Permits and the count of idle flushes do not matter to the core. */
  lemma CoreIgnoresCounters(c: Config, s: State, permits: nat, idleFlushes: nat)
    requires Core(c, s)
    ensures Core(c, s.(permits := permits, idleFlushes := idleFlushes))
  {
    var s' := s.(permits := permits, idleFlushes := idleFlushes);
    assert AllBuffers(s') by {
      forall i | 0 <= i < |s'.heap|
        ensures BufferInv(s', i)
      {
        assert BufferInv(s, i);
      }
    }
    SameDataKeepsMapped(s, s');
    SameDataKeepsFlushers(c, s, s', -1);
  }

  lemma AppendAndLaunchKeeps(c: Config, s: State, id: nat)
    requires Core(c, s) && Picked(s, id) && s.permits > 0 && 0 < |s.batch| <= MaxBatch(c)
    requires s.heap[s.batch[|s.batch| - 1]].block + 1 == s.heap[id].block
    ensures Core(c, TakePermit(Launch(Append(s, id)))) && Append(s, id).heap[id].requests > 0
  {
    AppendKeeps(c, s, id);
    LaunchKeeps(c, Append(s, id));
    CoreIgnoresCounters(c, Launch(Append(s, id)), s.permits - 1, s.idleFlushes);
  }

  lemma LaunchAndAppendKeeps(c: Config, s: State, id: nat)
    requires Core(c, s) && Picked(s, id) && s.permits > 0 && 0 < |s.batch| <= MaxBatch(c) + 1
    ensures Core(c, TakePermit(Append(Launch(s), id))) && Append(Launch(s), id).heap[id].requests > 0
  {
    LaunchKeeps(c, s);
    AppendKeeps(c, Launch(s), id);
    CoreIgnoresCounters(c, Append(Launch(s), id), s.permits - 1, s.idleFlushes);
  }

  /** A picked buffer with the block of the last batch entry is that entry. */
  lemma DuplicateIsCounted(c: Config, s: State, id: nat)
    requires Core(c, s) && Picked(s, id) && |s.batch| > 0
    requires s.heap[s.batch[|s.batch| - 1]].block == s.heap[id].block
    ensures s.heap[id].requests > 0
  {
    var at := s.batch[|s.batch| - 1];
    assert BufferInv(s, at) && BufferInv(s, id);
    assert at in multiset(s.batch);
  }

  /** Taking a picked buffer leaves it counted, whichever branch is taken. */
  lemma TakeKeeps(c: Config, s: State, id: nat)
    requires c.Valid() && Core(c, s) && |s.batch| <= MaxBatch(c) && Picked(s, id) && s.permits > 0
    ensures Core(c, Take(c, s, id)) && Take(c, s, id).heap[id].requests > 0
  {
    if |s.batch| == 0 {
      AppendKeeps(c, s, id);
    } else {
      var last, block := s.heap[s.batch[|s.batch| - 1]].block, s.heap[id].block;
      if last + 1 == block {
        if |s.batch| + 1 >= c.maxLength {
          AppendAndLaunchKeeps(c, s, id);
        } else {
          AppendKeeps(c, s, id);
        }
      } else if last == block {
        DuplicateIsCounted(c, s, id);
      } else {
        LaunchAndAppendKeeps(c, s, id);
      }
    }
  }

  /** The queue entry may as well be removed after the buffer has been taken. */
  /** Taking a buffer neither looks at the queue nor changes it. */
  lemma TakeKeepsQueue(c: Config, s: State, id: nat, queue: multiset<nat>)
    requires id < |s.heap| && s.permits > 0
    requires |s.batch| > 0 ==> s.batch[|s.batch| - 1] < |s.heap|
    ensures Take(c, s, id).queue == s.queue
    ensures Take(c, s.(queue := queue), id) == Take(c, s, id).(queue := queue)
  {
  }

  lemma PickIsTake(c: Config, s: State, id: nat)
    requires CanPick(s, id) && !Skipped(s.heap[id])
    ensures PickNext(c, s, id) == Take(c, s, id).(queue := Take(c, s, id).queue - multiset{id})
  {
    TakeKeepsQueue(c, s, id, s.queue - multiset{id});
  }

  lemma DequeueKeeps(c: Config, s: State, id: nat)
    requires Core(c, s) && id < |s.heap|
    requires Cached(s, id) && s.heap[id].dirty ==> s.heap[id].requests > 0 || s.heap[id].locked
    ensures Core(c, s.(queue := s.queue - multiset{id}))
  {
    var s' := s.(queue := s.queue - multiset{id});
    assert AllBuffers(s') by {
      forall i | 0 <= i < |s.heap|
        ensures BufferInv(s', i)
      {
        assert BufferInv(s, i);
      }
    }
    SameDataKeepsMapped(s, s');
    SameDataKeepsFlushers(c, s, s', -1);
    SameDataKeepsLists(s, s');
  }

  predicate CanPick(s: State, id: nat) {
    && id in s.queue && s.permits > 0 && id < |s.heap|
    && (|s.batch| > 0 ==> s.batch[|s.batch| - 1] < |s.heap|)
    && (Skipped(s.heap[id]) || !s.heap[id].locked)
  }

  lemma SkipIsSafe(c: Config, s: State, id: nat)
    requires Core(c, s) && id < |s.heap| && Skipped(s.heap[id])
    ensures Cached(s, id) && s.heap[id].dirty ==> s.heap[id].requests > 0 || s.heap[id].locked
  {
    assert BufferInv(s, id);
    if Cached(s, id) {
      assert Mapped(s, s.heap[id].block);
    }
  }

  lemma PickKeeps(c: Config, s: State, id: nat)
    requires c.Valid() && Inv(c, s) && CanPick(s, id)
    ensures Core(c, PickNext(c, s, id))
  {
    if Skipped(s.heap[id]) {
      SkipIsSafe(c, s, id);
      DequeueKeeps(c, s, id);
    } else {
      TakeKeeps(c, s, id);
      DequeueKeeps(c, Take(c, s, id), id);
      PickIsTake(c, s, id);
    }
  }

  lemma IdleKeeps(c: Config, s: State)
    requires Inv(c, s)
    ensures Core(c, IdleNext(s))
  {
    if |s.batch| > 0 {
      LaunchKeeps(c, s);
      CoreIgnoresCounters(c, Launch(s), s.permits, s.idleFlushes + 1);
    }
  }
}
