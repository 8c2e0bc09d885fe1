/** The steps of the application thread keep the invariant, and so does every step. */
module CacheAppPreservation {
  import opened CacheMachine
  import opened CacheInvariant
  import opened CachePreservation

  // ---------- Hits ----------

  lemma ReadHitKeeps(c: Config, s: State, block: nat, order: seq<nat>)
    requires Core(c, s) && s.app == Idle && block in s.cache && Touched(s.policy, s.cache[block], order)
    ensures Core(c, s.(policy := order))
  {
    var s' := s.(policy := order);
    assert Mapped(s, block);
    SameCounts(s.policy, s.cache[block], order);
    assert AllBuffers(s') by {
      forall id | 0 <= id < |s.heap|
        ensures BufferInv(s', id)
      {
        assert BufferInv(s, id);
      }
    }
    PolicyInRange(s, order);
    SameDataKeepsMapped(s, s');
    SameDataKeepsFlushers(c, s, s', -1);
  }

  lemma SameCounts(policy: seq<nat>, id: nat, order: seq<nat>)
    requires Touched(policy, id, order)
    ensures forall i :: multiset(order)[i] == if i == id then 1 else multiset(policy)[i]
  {
  }

  lemma PolicyInRange(s: State, order: seq<nat>)
    requires ListsInv(s)
    requires forall i: nat | i >= |s.heap| :: multiset(order)[i] == multiset(s.policy)[i]
    ensures forall i | 0 <= i < |order| :: order[i] < |s.heap|
  {
    forall i | 0 <= i < |order|
      ensures order[i] < |s.heap|
    {
      assert order[i] in multiset(order);
    }
  }

  /** A flusher does not refer to the content of a buffer that is not locked. */
  lemma UnlockedIsNotHeld(s: State, f: nat, i: nat, id: nat)
    requires f < |s.running| && i < |s.running[f].bufs| && HeldAt(s.running[f], i)
    requires BufferInv(s, id) && !s.heap[id].locked
    ensures s.running[f].bufs[i] != id
  {
    HeldIsLoaded(s.running[f], i);
    TotalIncludes(s.running, f, true, s.running[f].bufs[i]);
  }

  predicate CanWriteHit(s: State, block: nat) {
    s.app == Idle && block in s.cache && s.cache[block] < |s.heap| && !s.heap[s.cache[block]].locked
  }

  lemma WriteHitBuffers(c: Config, s: State, block: nat, data: Content, order: seq<nat>)
    requires AllBuffers(s) && AllMapped(s) && CanWriteHit(s, block) && Touched(s.policy, s.cache[block], order)
    ensures AllBuffers(WriteNext(c, s, block, data, order))
  {
    assert Mapped(s, block);
    SameCounts(s.policy, s.cache[block], order);
    forall id | 0 <= id < |s.heap|
      ensures BufferInv(WriteNext(c, s, block, data, order), id)
    {
      assert BufferInv(s, id);
    }
  }

  lemma WriteHitKeeps(c: Config, s: State, block: nat, data: Content, order: seq<nat>)
    requires Core(c, s) && CanWriteHit(s, block) && Touched(s.policy, s.cache[block], order)
    ensures Core(c, WriteNext(c, s, block, data, order))
  {
    var s' := WriteNext(c, s, block, data, order);
    var at := s.cache[block];
    assert Mapped(s, block) && BufferInv(s, at);
    WriteHitBuffers(c, s, block, data, order);
    SameCounts(s.policy, at, order);
    PolicyInRange(s, order);
    forall f | 0 <= f < |s.running|
      ensures FlusherOk(c, s', f)
    {
      assert FlusherOk(c, s, f);
      forall i | 0 <= i < |s.running[f].bufs| && HeldAt(s.running[f], i)
        ensures s.running[f].bufs[i] != at
      {
        UnlockedIsNotHeld(s, f, i, at);
      }
      HeldBlocksInRange(c, s, f);
      FlusherFrame(c, s, s', s.running[f]);
    }
    forall b | b in s.cache
      ensures Mapped(s', b)
    {
      assert Mapped(s, b);
    }
  }

  lemma HeldBlocksInRange(c: Config, s: State, f: nat)
    requires FlusherOk(c, s, f) && AllBuffers(s)
    ensures forall i | 0 <= i < |s.running[f].bufs| :: s.heap[s.running[f].bufs[i]].block < |s.disk|
  {
  }

  // ---------- Misses ----------

  /** Nothing refers to a buffer that has not been made yet. */
  lemma {:induction false} FreshIsUncounted(fs: seq<Flusher>, limit: nat, held: bool)
    requires forall f, i | 0 <= f < |fs| && 0 <= i < |fs[f].bufs| :: fs[f].bufs[i] < limit
    ensures Total(fs, held)[limit] == 0
  {
    if fs != [] {
      FreshIsUncounted(fs[1..], limit, held);
      var f := fs[0];
      assert limit !in f.bufs;
    }
  }

  lemma FreshIsNowhere(c: Config, s: State)
    requires ListsInv(s) && AllFlushers(c, s)
    ensures Waiting(s, |s.heap|) == 0 && Holders(s, |s.heap|) == 0
    ensures multiset(s.policy)[|s.heap|] == 0 && |s.heap| !in s.queue
  {
    forall f, i | 0 <= f < |s.running| && 0 <= i < |s.running[f].bufs|
      ensures s.running[f].bufs[i] < |s.heap|
    {
      assert FlusherOk(c, s, f);
    }
    FreshIsUncounted(s.running, |s.heap|, false);
    FreshIsUncounted(s.running, |s.heap|, true);
    assert |s.heap| !in s.batch && |s.heap| !in s.policy;
  }

  /** A buffer just made on a miss. */
  predicate FreshBuffer(s: State, b: Buffer) {
    && b.block < |s.disk| && b.block !in s.cache
    && b.valid && !b.beingWritten && b.requests == 0 && !b.locked
    && (!b.dirty ==> s.misplaced || b.content == s.disk[b.block])
  }

  lemma AdmitOldBuffer(c: Config, s: State, b: Buffer, order: seq<nat>, id: nat)
    requires Core(c, s) && s.app == Idle && FreshBuffer(s, b) && AdmitOrder(c, s, order) && id < |s.heap|
    ensures BufferInv(Admit(c, s, b, order), id)
  {
    assert BufferInv(s, id);
  }

  lemma AdmitNewBuffer(c: Config, s: State, b: Buffer, order: seq<nat>)
    requires Core(c, s) && s.app == Idle && FreshBuffer(s, b) && AdmitOrder(c, s, order)
    ensures BufferInv(Admit(c, s, b, order), |s.heap|)
  {
    FreshIsNowhere(c, s);
  }

  lemma AdmitBuffers(c: Config, s: State, b: Buffer, order: seq<nat>)
    requires Core(c, s) && s.app == Idle && FreshBuffer(s, b) && AdmitOrder(c, s, order)
    ensures AllBuffers(Admit(c, s, b, order))
  {
    FreshIsNowhere(c, s);
    forall id: nat | id < |s.heap|
      ensures BufferInv(Admit(c, s, b, order), id)
    {
      AdmitOldBuffer(c, s, b, order, id);
    }
    AdmitNewBuffer(c, s, b, order);
  }

  lemma AdmitFlushers(c: Config, s: State, b: Buffer, order: seq<nat>)
    requires AllFlushers(c, s) && AllBuffers(s)
    ensures AllFlushers(c, Admit(c, s, b, order))
  {
    forall f | 0 <= f < |s.running|
      ensures FlusherOk(c, Admit(c, s, b, order), f)
    {
      assert FlusherOk(c, s, f);
      HeldBlocksInRange(c, s, f);
      FlusherFrame(c, s, Admit(c, s, b, order), s.running[f]);
    }
  }

  lemma AdmitApp(c: Config, s: State, b: Buffer, order: seq<nat>)
    requires Core(c, s) && s.app == Idle && FreshBuffer(s, b)
    ensures AppInv(Admit(c, s, b, order))
  {
    FreshIsNowhere(c, s);
    if |s.policy| > 0 {
      assert s.policy[0] in multiset(s.policy);
      assert BufferInv(s, s.policy[0]);
    }
  }

  lemma AdmitKeeps(c: Config, s: State, b: Buffer, order: seq<nat>)
    requires Core(c, s) && s.app == Idle && FreshBuffer(s, b) && AdmitOrder(c, s, order)
    ensures Core(c, Admit(c, s, b, order))
  {
    var s' := Admit(c, s, b, order);
    AdmitBuffers(c, s, b, order);
    AdmitFlushers(c, s, b, order);
    AdmitApp(c, s, b, order);
    forall block | block in s'.cache
      ensures Mapped(s', block)
    {
      assert block in s.cache ==> Mapped(s, block);
    }
    AdmitLists(c, s, b, order);
  }

  lemma AdmitLists(c: Config, s: State, b: Buffer, order: seq<nat>)
    requires ListsInv(s) && AdmitOrder(c, s, order)
    ensures ListsInv(Admit(c, s, b, order))
  {
    if !(ShouldEvict(c, s) && |s.policy| > 0) {
      forall i | 0 <= i < |order|
        ensures order[i] <= |s.heap|
      {
        assert order[i] in multiset(order);
        if order[i] != |s.heap| {
          assert order[i] in multiset(s.policy);
        }
      }
    }
  }

  /** The cache grows only below its bound, or from empty. */
  lemma AdmitCounts(c: Config, s: State, b: Buffer, order: seq<nat>)
    requires Inv(c, s) && s.app == Idle && b.block !in s.cache
    ensures CountsInv(c, Admit(c, s, b, order))
  {
    forall block | block in s.cache
      ensures |s.policy| > 0
    {
      assert Mapped(s, block) && BufferInv(s, s.cache[block]);
    }
  }

  // ---------- Eviction ----------

  predicate CanEvict(s: State) {
    && s.app.Evicting? && s.app.victim < |s.heap| && s.app.incoming < |s.heap|
    && s.heap[s.app.victim].block < |s.disk|
    && !s.heap[s.app.victim].beingWritten && s.heap[s.app.victim].requests == 0
  }

  ghost predicate EvictOrder(s: State, order: seq<nat>)
    requires CanEvict(s)
  {
    multiset(order) == multiset(s.policy)[s.app.victim := 0][s.app.incoming := 1]
  }

  lemma EvictBuffers(c: Config, s: State, order: seq<nat>)
    requires Core(c, s) && CanEvict(s) && EvictOrder(s, order)
    ensures AllBuffers(EvictNext(s, order))
  {
    var s' := EvictNext(s, order);
    assert BufferInv(s, s.app.victim) && BufferInv(s, s.app.incoming);
    forall id | 0 <= id < |s'.heap|
      ensures BufferInv(s', id)
    {
      assert BufferInv(s, id);
    }
  }

  lemma EvictFlushers(c: Config, s: State, order: seq<nat>)
    requires Core(c, s) && CanEvict(s)
    ensures AllFlushers(c, EvictNext(s, order))
  {
    var s' := EvictNext(s, order);
    assert BufferInv(s, s.app.victim);
    forall f | 0 <= f < |s.running|
      ensures FlusherOk(c, s', f)
    {
      assert FlusherOk(c, s, f);
      forall i | 0 <= i < |s.running[f].bufs| && HeldAt(s.running[f], i)
        ensures s.running[f].bufs[i] != s.app.victim
        ensures s.heap[s.running[f].bufs[i]].block != s.heap[s.app.victim].block
      {
        assert BufferInv(s, s.running[f].bufs[i]);
        HeldIsLocked(s, f, i);
      }
      HeldBlocksInRange(c, s, f);
      FlusherFrame(c, s, s', s.running[f]);
    }
  }

  lemma EvictLists(c: Config, s: State, order: seq<nat>)
    requires Core(c, s) && CanEvict(s) && EvictOrder(s, order)
    ensures ListsInv(EvictNext(s, order))
  {
    PolicyInRange(s, order);
  }

  lemma EvictKeeps(c: Config, s: State, order: seq<nat>)
    requires Inv(c, s) && CanEvict(s) && EvictOrder(s, order)
    ensures Inv(c, EvictNext(s, order))
  {
    var s' := EvictNext(s, order);
    EvictBuffers(c, s, order);
    EvictFlushers(c, s, order);
    EvictLists(c, s, order);
    forall block | block in s'.cache
      ensures Mapped(s', block)
    {
      assert block in s.cache ==> Mapped(s, block);
    }
    EvictCounts(c, s, order);
  }

  lemma EvictCounts(c: Config, s: State, order: seq<nat>)
    requires Inv(c, s) && CanEvict(s)
    ensures CountsInv(c, EvictNext(s, order))
  {
    var block := s.heap[s.app.victim].block;
    assert (s.cache - {block}).Keys == s.cache.Keys - {block};
  }

  // ---------- Every step ----------

  lemma ReadKeeps(c: Config, s: State, block: nat, order: seq<nat>)
    requires Inv(c, s) && Enabled(c, s, ReadStep(block, order))
    ensures Inv(c, ReadNext(c, s, block, order))
  {
    if block in s.cache {
      ReadHitKeeps(c, s, block, order);
    } else {
      var b := Buffer(block, true, false, false, 0, false, s.disk[block]);
      AdmitKeeps(c, s, b, order);
      AdmitCounts(c, s, b, order);
    }
  }

  lemma WriteKeeps(c: Config, s: State, block: nat, data: Content, order: seq<nat>)
    requires Inv(c, s) && Enabled(c, s, WriteStep(block, data, order))
    ensures Inv(c, WriteNext(c, s, block, data, order))
  {
    if block in s.cache {
      WriteHitKeeps(c, s, block, data, order);
    } else {
      var b := Buffer(block, true, true, false, 0, false, data);
      AdmitKeeps(c, s, b, order);
      AdmitCounts(c, s, b, order);
    }
  }

  predicate AppStep(step: Step) {
    step.ReadStep? || step.WriteStep? || step.EvictStep? || step.EnqueueStep?
  }

  predicate PoolStep(step: Step) {
    step.IdleStep? || step.PickStep? || step.WaitStep?
  }

  lemma AppStepKeeps(c: Config, s: State, step: Step)
    requires Inv(c, s) && Enabled(c, s, step) && AppStep(step)
    ensures Inv(c, Next(c, s, step))
  {
    match step
    case ReadStep(block, order) => ReadKeeps(c, s, block, order);
    case WriteStep(block, data, order) => WriteKeeps(c, s, block, data, order);
    case EvictStep(order) => EvictKeeps(c, s, order);
    case EnqueueStep => EnqueueKeeps(c, s);
  }

  lemma PoolStepKeeps(c: Config, s: State, step: Step)
    requires c.Valid() && Inv(c, s) && Enabled(c, s, step) && PoolStep(step)
    ensures Core(c, Next(c, s, step))
  {
    match step
    case IdleStep => IdleKeeps(c, s);
    case PickStep(id) => PickKeeps(c, s, id);
    case WaitStep => WaitKeeps(c, s);
  }

  /** The batch fits its bound, and permits plus unjoined flushers stay the threads plus the idle flushes. */
  lemma PoolStepCounts(c: Config, s: State, step: Step)
    requires c.Valid() && CountsInv(c, s) && Enabled(c, s, step) && PoolStep(step)
    ensures CountsInv(c, Next(c, s, step))
  {
  }

  lemma FlusherStepKeeps(c: Config, s: State, step: Step)
    requires Core(c, s) && Enabled(c, s, step) && !AppStep(step) && !PoolStep(step)
    ensures Core(c, Next(c, s, step))
  {
    match step
    case LockStep(f) => LockKeeps(c, s, f);
    case CopyStep(f) => CopyKeeps(c, s, f);
    case WriteOutStep(f) => WriteOutKeeps(c, s, f);
    case ReleaseStep(f) => ReleaseKeeps(c, s, f);
  }

  lemma FlusherStepCounts(c: Config, s: State, step: Step)
    requires CountsInv(c, s) && Enabled(c, s, step) && !AppStep(step) && !PoolStep(step)
    ensures CountsInv(c, Next(c, s, step))
  {
  }

  /** The invariant is inductive: whatever thread moves, it holds again afterwards. */
  lemma NextKeeps(c: Config, s: State, step: Step)
    requires c.Valid() && Inv(c, s) && Enabled(c, s, step)
    ensures Inv(c, Next(c, s, step))
  {
    if AppStep(step) {
      AppStepKeeps(c, s, step);
    } else if PoolStep(step) {
      PoolStepKeeps(c, s, step);
      PoolStepCounts(c, s, step);
    } else {
      FlusherStepKeeps(c, s, step);
      FlusherStepCounts(c, s, step);
    }
  }
}
