/** The flushers of the cache machine never deadlock, and left alone the background threads
    bring every dirty block to the disk. */
module CacheProgress {
  import opened CacheMachine
  import opened CacheInvariant
  import opened CachePreservation
  import opened CacheAppPreservation
  import opened CacheTheorems

  // ---------- Lock order ----------

  predicate WaitsForLock(f: Flusher) {
    f.phase == Locking && f.next < |f.bufs|
  }

  /** Flusher `f` waits for a lock that flusher `g` holds. */
  ghost predicate WaitsFor(s: State, f: nat, g: nat) {
    && f < |s.running| && g < |s.running| && WaitsForLock(s.running[f])
    && exists j: nat :: HeldAt(s.running[g], j) && s.running[g].bufs[j] == s.running[f].bufs[s.running[f].next]
  }

  /** The block whose lock a flusher wants next. */
  function WantedBlock(s: State, f: nat): nat
    requires f < |s.running| && WaitsForLock(s.running[f])
    requires s.running[f].bufs[s.running[f].next] < |s.heap|
  {
    s.heap[s.running[f].bufs[s.running[f].next]].block
  }

  /** Every flusher takes its locks in strictly increasing block order, and none twice. */
  lemma LocksIncrease(c: Config, s: State, f: nat, i: nat, j: nat)
    requires Inv(c, s) && f < |s.running| && i < j < |s.running[f].bufs|
    ensures s.running[f].bufs[j] < |s.heap| && s.running[f].bufs[i] < |s.heap|
    ensures s.heap[s.running[f].bufs[i]].block < s.heap[s.running[f].bufs[j]].block
    ensures s.running[f].bufs[i] != s.running[f].bufs[j]
  {
    assert FlusherOk(c, s, f);
  }

  /** A waiting flusher that holds a lock another one waits for wants a higher block itself. */
  lemma WaitingClimbs(c: Config, s: State, f: nat, g: nat)
    requires Inv(c, s) && WaitsFor(s, f, g) && WaitsForLock(s.running[g])
    ensures s.running[f].bufs[s.running[f].next] < |s.heap| && s.running[g].bufs[s.running[g].next] < |s.heap|
    ensures WantedBlock(s, f) < WantedBlock(s, g)
  {
    assert FlusherOk(c, s, f) && FlusherOk(c, s, g);
    var j: nat :| HeldAt(s.running[g], j) && s.running[g].bufs[j] == s.running[f].bufs[s.running[f].next];
    LocksIncrease(c, s, g, j, s.running[g].next);
  }

  ghost predicate WaitChain(s: State, chain: seq<nat>) {
    && |chain| > 1
    && (forall i | 0 <= i < |chain| :: chain[i] < |s.running| && WaitsForLock(s.running[chain[i]]))
    && (forall i | 0 <= i < |chain| - 1 :: WaitsFor(s, chain[i], chain[i + 1]))
  }

  /** No circular wait among flushers is reachable. */
  lemma NoCircularWait(c: Config, r: Run, n: nat, chain: seq<nat>)
    requires IsRun(c, r) && n < |r.states| && WaitChain(r.states[n], chain)
    ensures chain[0] != chain[|chain| - 1]
  {
    RunKeepsInv(c, r, n);
    ChainClimbs(c, r.states[n], chain);
  }

  lemma {:induction false} ChainClimbs(c: Config, s: State, chain: seq<nat>)
    requires Inv(c, s) && WaitChain(s, chain)
    ensures var (a, b) := (chain[0], chain[|chain| - 1]);
            && s.running[a].bufs[s.running[a].next] < |s.heap| && s.running[b].bufs[s.running[b].next] < |s.heap|
            && WantedBlock(s, a) < WantedBlock(s, b)
  {
    var n := |chain| - 1;
    assert WaitsFor(s, chain[n - 1], chain[n]);
    WaitingClimbs(c, s, chain[n - 1], chain[n]);
    if n > 1 {
      var shorter := chain[..n];
      forall i | 0 <= i < |shorter| - 1
        ensures WaitsFor(s, shorter[i], shorter[i + 1])
      {
        assert WaitsFor(s, chain[i], chain[i + 1]);
      }
      ChainClimbs(c, s, shorter);
    }
  }

  // ---------- Progress of the flushers ----------

  /** A buffer that is locked is held by some flusher. */
  lemma HolderOf(s: State, id: nat) returns (f: nat, i: nat)
    requires BufferInv(s, id) && s.heap[id].locked
    ensures f < |s.running| && HeldAt(s.running[f], i) && s.running[f].bufs[i] == id
  {
    f := CountedIsUnreleased(s.running, true, id);
    var flusher := s.running[f];
    match flusher.phase
    case Locking =>
      i :| 0 <= i < flusher.next && flusher.bufs[..flusher.next][i] == id;
    case Writing(_) =>
      i :| 0 <= i < |flusher.bufs| && flusher.bufs[i] == id;
    case Releasing =>
      var k :| 0 <= k < |flusher.bufs| - flusher.next && flusher.bufs[flusher.next..][k] == id;
      i := flusher.next + k;
  }

  predicate FlusherStep(step: Step) {
    step.LockStep? || step.CopyStep? || step.WriteOutStep? || step.ReleaseStep?
  }

  lemma OwnStep(c: Config, s: State, f: nat) returns (step: Step)
    requires Inv(c, s) && f < |s.running| && !s.running[f].Finished() && !WaitsForLock(s.running[f])
    ensures FlusherStep(step) && Enabled(c, s, step)
  {
    assert FlusherOk(c, s, f);
    match s.running[f].phase
    case Locking => step := CopyStep(f);
    case Writing(_) => step := WriteOutStep(f);
    case Releasing => step := ReleaseStep(f);
    InvInRange(c, s, step);
  }

  /** While a flusher is unfinished, some flusher can take a step. */
  lemma {:induction false} FlushersProgress(c: Config, s: State, f: nat) returns (step: Step)
    requires Inv(c, s) && f < |s.running| && !s.running[f].Finished()
    ensures FlusherStep(step) && Enabled(c, s, step)
    decreases if WaitsForLock(s.running[f]) then |s.disk| - HeightOf(c, s, f) else 0
  {
    if WaitsForLock(s.running[f]) {
      assert FlusherOk(c, s, f);
      var id := s.running[f].bufs[s.running[f].next];
      assert BufferInv(s, id);
      if s.heap[id].locked {
        var g, j := HolderOf(s, id);
        assert WaitsFor(s, f, g);
        if WaitsForLock(s.running[g]) {
          WaitingClimbs(c, s, f, g);
          step := FlushersProgress(c, s, g);
        } else {
          step := OwnStep(c, s, g);
        }
      } else {
        step := LockStep(f);
        InvInRange(c, s, step);
      }
    } else {
      step := OwnStep(c, s, f);
    }
  }

  ghost function HeightOf(c: Config, s: State, f: nat): (h: nat)
    requires Inv(c, s) && f < |s.running| && WaitsForLock(s.running[f])
    ensures h < |s.disk|
  {
    assert FlusherOk(c, s, f);
    assert BufferInv(s, s.running[f].bufs[s.running[f].next]);
    WantedBlock(s, f)
  }

  // ---------- Draining ----------

  /** The work the background threads still have: queue entries to pick, batch entries to flush,
      flusher steps to take, flushers to join. */
  ghost function Work(s: State): nat {
    7 * |s.queue| + 6 * |s.batch| + FlushersWork(s.running)
  }

  function FlusherWork(f: Flusher): nat {
    match f.phase
    case Locking => (if f.next <= |f.bufs| then |f.bufs| - f.next else 0) + |f.bufs| + 3
    case Writing(_) => |f.bufs| + 2
    case Releasing => (if f.next <= |f.bufs| then |f.bufs| - f.next else 0) + 1
  }

  function FlushersWork(fs: seq<Flusher>): nat {
    if fs == [] then 0 else FlusherWork(fs[0]) + FlushersWork(fs[1..])
  }

  lemma {:induction false} WorkAppend(fs: seq<Flusher>, f: Flusher)
    ensures FlushersWork(fs + [f]) == FlushersWork(fs) + FlusherWork(f)
  {
    if fs == [] {
      assert FlushersWork([f]) == FlusherWork(f) + FlushersWork([]);
    } else {
      assert (fs + [f])[1..] == fs[1..] + [f];
      WorkAppend(fs[1..], f);
    }
  }

  lemma {:induction false} WorkUpdate(fs: seq<Flusher>, i: nat, f: Flusher)
    requires i < |fs|
    ensures FlushersWork(fs[i := f]) + FlusherWork(fs[i]) == FlushersWork(fs) + FlusherWork(f)
  {
    if i == 0 {
      assert fs[i := f][1..] == fs[1..];
    } else {
      assert fs[i := f][1..] == fs[1..][i - 1 := f];
      WorkUpdate(fs[1..], i - 1, f);
    }
  }

  lemma FlusherStepWorks(c: Config, s: State, step: Step)
    requires Inv(c, s) && Enabled(c, s, step) && FlusherStep(step)
    ensures Work(Next(c, s, step)) < Work(s)
  {
    var f := step.f;
    assert FlusherOk(c, s, f);
    WorkUpdate(s.running, f, Next(c, s, step).running[f]);
  }

  lemma TakeWorks(c: Config, s: State, id: nat)
    requires id < |s.heap| && s.permits > 0
    requires |s.batch| > 0 ==> s.batch[|s.batch| - 1] < |s.heap|
    ensures Work(Take(c, s, id)) < Work(s) + 7
  {
    WorkAppend(s.running, Flusher(s.batch, Locking, 0));
    WorkAppend(s.running, Flusher(s.batch + [id], Locking, 0));
  }

  lemma PoolStepWorks(c: Config, s: State, step: Step)
    requires Inv(c, s) && Enabled(c, s, step) && PoolStep(step)
    ensures Next(c, s, step) == s || Work(Next(c, s, step)) < Work(s)
  {
    match step
    case IdleStep =>
      WorkAppend(s.running, Flusher(s.batch, Locking, 0));
    case PickStep(id) =>
      var s1 := s.(queue := s.queue - multiset{id});
      assert |s1.queue| + 1 == |s.queue|;
      if !Skipped(s.heap[id]) {
        TakeWorks(c, s1, id);
      }
    case WaitStep =>
  }

  /** Every step of the pool or of a flusher that changes anything leaves less work. */
  lemma BackgroundWorks(c: Config, s: State, step: Step)
    requires Inv(c, s) && Enabled(c, s, step) && !AppStep(step)
    ensures Next(c, s, step) == s || Work(Next(c, s, step)) < Work(s)
  {
    if PoolStep(step) {
      PoolStepWorks(c, s, step);
    } else {
      FlusherStepWorks(c, s, step);
    }
  }

  /** While the application pauses, the background threads stop after at most as many effective
      steps as there is work. */
  lemma {:induction false} DrainIsBounded(c: Config, r: Run, start: nat, end: nat)
    requires IsRun(c, r) && start <= end < |r.states|
    requires forall i | start <= i < end :: !AppStep(r.steps[i]) && r.states[i + 1] != r.states[i]
    ensures Work(r.states[end]) + (end - start) <= Work(r.states[start])
    decreases end
  {
    if start < end {
      DrainIsBounded(c, r, start, end - 1);
      RunKeepsInv(c, r, end - 1);
      assert Follows(c, r, end - 1);
      BackgroundWorks(c, r.states[end - 1], r.steps[end - 1]);
    }
  }

  /** No background step changes anything. */
  ghost predicate Quiescent(c: Config, s: State) {
    forall step | Enabled(c, s, step) && !AppStep(step) :: Next(c, s, step) == s
  }

  /** Whenever the permit attempt fails, there is a flusher to join or one that can move. */
  lemma PoolProgress(c: Config, s: State) returns (step: Step)
    requires c.Valid() && c.threads > 0 && Inv(c, s) && s.queue != multiset{}
    ensures Enabled(c, s, step) && !AppStep(step) && Next(c, s, step) != s
  {
    if s.permits > 0 {
      var id :| id in s.queue;
      assert BufferInv(s, id);
      step := PickStep(id);
      InvInRange(c, s, step);
      PickShrinksQueue(c, s, id);
    } else {
      if s.running[0].Finished() {
        step := WaitStep;
      } else {
        step := FlushersProgress(c, s, 0);
        FlusherStepWorks(c, s, step);
      }
    }
  }

  lemma PickShrinksQueue(c: Config, s: State, id: nat)
    requires CanPick(s, id)
    ensures PickNext(c, s, id).queue == s.queue - multiset{id} != s.queue
  {
    assert (s.queue - multiset{id})[id] != s.queue[id];
  }

  /** When the background threads have nothing left to do, nothing is queued, batched or being flushed. */
  lemma QuiescentIsEmpty(c: Config, s: State)
    requires c.Valid() && c.threads > 0 && Inv(c, s) && Quiescent(c, s)
    ensures s.queue == multiset{} && s.batch == [] && forall f | 0 <= f < |s.running| :: s.running[f].Finished()
    ensures forall id :: Waiting(s, id) == 0 && Holders(s, id) == 0
  {
    if s.queue != multiset{} {
      var step := PoolProgress(c, s);
      assert false;
    }
    assert IdleNext(s) == s by {
      assert Enabled(c, s, IdleStep) && Next(c, s, IdleStep) == s;
    }
    forall f | 0 <= f < |s.running|
      ensures s.running[f].Finished()
    {
      if !s.running[f].Finished() {
        var step := FlushersProgress(c, s, f);
        FlusherStepWorks(c, s, step);
        assert false;
      }
    }
    FinishedIsUncounted(s.running);
  }

  /** Then no lock is taken and every busy wait of an eviction is over, so the application is never
      kept waiting for good. */
  lemma QuiescentUnblocks(c: Config, s: State, id: nat)
    requires c.Valid() && c.threads > 0 && Inv(c, s) && Quiescent(c, s) && id < |s.heap|
    ensures !s.heap[id].locked && !s.heap[id].beingWritten && s.heap[id].requests == 0
  {
    QuiescentIsEmpty(c, s);
    assert BufferInv(s, id);
  }

  /** Then, with the application idle and no write misplaced, every dirty block has reached the disk:
      the disk alone is the array of blocks. */
  lemma QuiescentIsSynced(c: Config, s: State, block: nat)
    requires c.Valid() && c.threads > 0 && Inv(c, s) && Quiescent(c, s) && s.app == Idle && block < |s.disk|
    ensures !s.misplaced ==> s.disk[block] == Sees(s, block)
    ensures block in s.cache ==> s.cache[block] < |s.heap| && !s.heap[s.cache[block]].dirty
  {
    QuiescentIsEmpty(c, s);
    if block in s.cache {
      assert Mapped(s, block) && BufferInv(s, s.cache[block]);
    }
  }

  lemma {:induction false} FinishedIsUncounted(fs: seq<Flusher>)
    requires forall f | 0 <= f < |fs| :: fs[f].Finished()
    ensures Total(fs, false) == multiset{} && Total(fs, true) == multiset{}
  {
    if fs != [] {
      FinishedIsUncounted(fs[1..]);
      assert fs[0].Finished();
    }
  }
}
