/** The invariant of the cache machine: what every reachable state satisfies. */
module CacheInvariant {
  import opened CacheMachine

  // ---------- Buffers counted over all flushers ----------

  /** The buffers a flusher still has to lock, or (`held`) those whose lock it holds. */
  ghost function Load(f: Flusher, held: bool): multiset<nat> {
    if f.next > |f.bufs| then multiset{} else
    match f.phase
    case Locking => multiset(if held then f.bufs[..f.next] else f.bufs[f.next..])
    case Writing(_) => multiset(if held then f.bufs else [])
    case Releasing => multiset(if held then f.bufs[f.next..] else [])
  }

  ghost function Total(fs: seq<Flusher>, held: bool): multiset<nat> {
    if fs == [] then multiset{} else Load(fs[0], held) + Total(fs[1..], held)
  }

  /** The batch entries for a buffer that no flusher has locked yet. */
  ghost function Waiting(s: State, id: nat): nat {
    multiset(s.batch)[id] + Total(s.running, false)[id]
  }

  /** The flushers that hold the lock of a buffer. */
  ghost function Holders(s: State, id: nat): nat {
    Total(s.running, true)[id]
  }

  lemma {:induction false} TotalAppend(fs: seq<Flusher>, f: Flusher, held: bool)
    ensures Total(fs + [f], held) == Total(fs, held) + Load(f, held)
  {
    if fs == [] {
      assert Total([f], held) == Load(f, held) + Total([], held);
    } else {
      assert (fs + [f])[1..] == fs[1..] + [f];
      TotalAppend(fs[1..], f, held);
    }
  }

  lemma {:induction false} TotalUpdate(fs: seq<Flusher>, i: nat, f: Flusher, held: bool, id: nat)
    requires i < |fs|
    ensures Total(fs[i := f], held)[id] + Load(fs[i], held)[id] == Total(fs, held)[id] + Load(f, held)[id]
  {
    if i == 0 {
      assert fs[i := f][1..] == fs[1..];
    } else {
      var rest := fs[1..][i - 1 := f];
      TotalUpdate(fs[1..], i - 1, f, held, id);
      assert fs[i := f][1..] == rest;
      assert Total(fs[i := f], held)[id] == Load(fs[0], held)[id] + Total(rest, held)[id];
      assert Total(fs, held)[id] == Load(fs[0], held)[id] + Total(fs[1..], held)[id];
    }
  }

  lemma {:induction false} TotalIncludes(fs: seq<Flusher>, i: nat, held: bool, id: nat)
    requires i < |fs|
    ensures Load(fs[i], held)[id] <= Total(fs, held)[id]
  {
    assert Total(fs, held)[id] == Load(fs[0], held)[id] + Total(fs[1..], held)[id];
    if i > 0 {
      assert fs[1..][i - 1] == fs[i];
      TotalIncludes(fs[1..], i - 1, held, id);
    }
  }

  lemma {:induction false} TotalIncludesBoth(fs: seq<Flusher>, i: nat, j: nat, held: bool, id: nat)
    requires i < j < |fs|
    ensures Load(fs[i], held)[id] + Load(fs[j], held)[id] <= Total(fs, held)[id]
  {
    assert Total(fs, held)[id] == Load(fs[0], held)[id] + Total(fs[1..], held)[id];
    if i > 0 {
      TotalIncludesBoth(fs[1..], i - 1, j - 1, held, id);
    } else {
      TotalIncludes(fs[1..], j - 1, held, id);
    }
  }

  // ---------- The invariant ----------

  ghost predicate Incoming(s: State, id: nat) {
    s.app.Evicting? && s.app.incoming == id
  }

  /** What is true of every buffer ever made. */
  ghost predicate BufferInv(s: State, id: nat) {
    && id < |s.heap| && s.heap[id].block < |s.disk|
    && var b := s.heap[id];
    // the request count is the number of batch entries that no flusher has locked yet
    && b.requests == Waiting(s, id)
    // a lock has at most one holder, which has marked the buffer
    && Holders(s, id) == (if b.locked then 1 else 0)
    && (b.locked ==> b.beingWritten)
    && (b.beingWritten ==> b.requests > 0 || b.locked)
    // a flusher that writes or will write a buffer finds it valid
    && (b.requests > 0 || b.locked ==> b.valid && Cached(s, id))
    && (b.valid ==> Cached(s, id) || Incoming(s, id))
    // clean means synced, unless an eviction has written at a wrapped offset
    && (Cached(s, id) && !b.dirty ==> s.misplaced || b.content == s.disk[b.block])
    // no dirty block is forgotten
    && (Cached(s, id) && b.dirty ==> id in s.queue || b.requests > 0 || b.locked || s.app == Enqueueing(id))
    // the policy knows exactly the cached buffers
    && multiset(s.policy)[id] == (if Cached(s, id) then 1 else 0)
  }

  ghost predicate Consecutive(s: State, ids: seq<nat>) {
    && (forall i | 0 <= i < |ids| :: ids[i] < |s.heap|)
    && (forall i | 0 <= i < |ids| :: s.heap[ids[i]].block == s.heap[ids[0]].block + i)
  }

  /** What is true of every launched flusher. */
  ghost predicate FlusherInv(c: Config, s: State, f: Flusher) {
    && |f.bufs| > 0 && f.next <= |f.bufs| && |f.bufs| <= MaxBatch(c) + 1
    && Consecutive(s, f.bufs)
    && s.heap[f.bufs[|f.bufs| - 1]].block < |s.disk|
    && (f.phase.Writing? ==>
          && |f.phase.data| == |f.bufs|
          && forall i | 0 <= i < |f.bufs| :: f.phase.data[i] == s.heap[f.bufs[i]].content)
    && (f.phase.Releasing? ==> forall i | f.next <= i < |f.bufs| ::
          && s.heap[f.bufs[i]].block < |s.disk|
          && (s.misplaced || s.disk[s.heap[f.bufs[i]].block] == s.heap[f.bufs[i]].content))
  }

  /** A mapped buffer is valid and keyed by its own block number. */
  ghost predicate Mapped(s: State, block: nat)
    requires block in s.cache
  {
    var id := s.cache[block];
    id < |s.heap| && s.heap[id].block == block && s.heap[id].valid
  }

  ghost predicate AppInv(s: State) {
    match s.app
    case Idle => true
    case Evicting(victim, incoming) =>
      && victim < |s.heap| && Cached(s, victim)
      && incoming < |s.heap| && incoming !in s.queue
      && var b := s.heap[incoming];
      && b.block < |s.disk| && b.block !in s.cache
      && b.valid && b.requests == 0 && !b.locked
      && (!b.dirty ==> s.misplaced || b.content == s.disk[b.block])
    case Enqueueing(id) => id < |s.heap| && Cached(s, id)
  }

  ghost predicate ListsInv(s: State) {
    && (forall i | 0 <= i < |s.policy| :: s.policy[i] < |s.heap|)
    && (forall id | id in s.queue :: id < |s.heap|)
    && Consecutive(s, s.batch)
  }

  function MaxSize(c: Config): nat {
    if c.manageable > 0 then c.manageable else 1
  }

  /** The longest batch between two picks; a launch may append one more. */
  function MaxBatch(c: Config): nat {
    if c.maxLength > 1 then c.maxLength - 1 else 1
  }

  ghost predicate CountsInv(c: Config, s: State) {
    && |s.cache| <= MaxSize(c)
    && |s.batch| <= MaxBatch(c)
    && s.permits + |s.running| == c.threads + s.idleFlushes
  }

  ghost predicate AllMapped(s: State) {
    forall block | block in s.cache :: Mapped(s, block)
  }

  ghost predicate FlusherOk(c: Config, s: State, f: nat) {
    f < |s.running| && FlusherInv(c, s, s.running[f])
  }

  ghost predicate AllFlushers(c: Config, s: State) {
    forall f | 0 <= f < |s.running| :: FlusherOk(c, s, f)
  }

  ghost predicate AllBuffers(s: State) {
    forall id | 0 <= id < |s.heap| :: BufferInv(s, id)
  }

  ghost predicate Core(c: Config, s: State) {
    AppInv(s) && ListsInv(s) && AllMapped(s) && AllFlushers(c, s) && AllBuffers(s)
  }

  ghost predicate Inv(c: Config, s: State) {
    Core(c, s) && CountsInv(c, s)
  }

  lemma InitInv(c: Config, s: State)
    requires c.Valid() && Init(c, s)
    ensures Inv(c, s)
  {
  }

  /** The invariant puts every reference in range, so that the steps are defined. */
  lemma InvInRange(c: Config, s: State, step: Step)
    requires Inv(c, s)
    ensures InRange(s, step)
  {
    match step
    case ReadStep(block, _) => assert block in s.cache ==> Mapped(s, block);
    case WriteStep(block, _, _) => assert block in s.cache ==> Mapped(s, block);
    case EvictStep(_) => assert s.app.Evicting? ==> BufferInv(s, s.app.victim);
    case PickStep(id) =>
    case LockStep(f) => assert f < |s.running| ==> FlusherOk(c, s, f);
    case CopyStep(f) => assert f < |s.running| ==> FlusherOk(c, s, f);
    case WriteOutStep(f) => assert f < |s.running| ==> FlusherOk(c, s, f);
    case ReleaseStep(f) => assert f < |s.running| ==> FlusherOk(c, s, f);
    case _ =>
  }
}
