/** A flusher whose steps nobody interrupts does to its buffers and to the mapped bytes what the
    sequential write2DiskMultiple2 does. */
module UndisturbedFlush {
  import opened DiskBytes
  import opened DiskWrite
  import opened CacheMachine
  import opened CacheInvariant
  import opened BufferCache

  /** A launched flusher on whole, distinct, unlocked buffers of consecutive blocks of the disk. */
  ghost predicate Ready(s: State, f: nat) {
    && f < |s.running| && s.running[f].phase == Locking && s.running[f].next == 0 && |s.running[f].bufs| > 0
    && var bufs := s.running[f].bufs;
    && Consecutive(s, bufs)
    && (forall i | 0 <= i < |bufs| :: !s.heap[bufs[i]].locked && |s.heap[bufs[i]].content| == s.blockSize)
    && s.heap[bufs[0]].block + |bufs| <= |s.disk| && SizedBlocks(s.disk, s.blockSize)
  }

  lemma ConsecutiveAreDistinct(s: State, bufs: seq<nat>, i: nat, j: nat)
    requires Consecutive(s, bufs) && i < j < |bufs|
    ensures bufs[i] != bufs[j]
  {
  }

  /** What the buffers of a flusher hold. */
  ghost function Held(s: State, bufs: seq<nat>): (data: seq<Content>)
    requires forall i | 0 <= i < |bufs| :: bufs[i] < |s.heap|
    ensures |data| == |bufs|
  {
    seq(|bufs|, i requires 0 <= i < |bufs| => s.heap[bufs[i]].content)
  }

  /** The flusher has come to phase `phase` and count `n`, with its buffers changed so far. */
  ghost predicate Reached(s0: State, s: State, f: nat, phase: Phase, n: nat, disk: seq<Content>) {
    && f < |s0.running| && |s.running| == |s0.running| && |s.heap| == |s0.heap| && s.blockSize == s0.blockSize
    && s.running[f] == Flusher(s0.running[f].bufs, phase, n) && s.disk == disk
  }

  ghost predicate Locked(s0: State, s: State, bufs: seq<nat>, n: nat) {
    forall i | 0 <= i < |bufs| :: bufs[i] < |s0.heap| == |s.heap|
      && s.heap[bufs[i]] == if i < n then Taken(s0.heap[bufs[i]]) else s0.heap[bufs[i]]
  }

  ghost predicate Released(s0: State, s: State, bufs: seq<nat>, n: nat) {
    forall i | 0 <= i < |bufs| :: bufs[i] < |s0.heap| == |s.heap|
      && s.heap[bufs[i]] == if i < n then Flushed(s0.heap[bufs[i]]) else Taken(s0.heap[bufs[i]])
  }

  method LockEach(system: CacheSystem, f: nat)
    requires system.Matches() && Ready(system.model, f)
    modifies system`running, system`model, system.heap
    ensures system.Matches()
    ensures var s0 := old(system.model);
      var bufs := s0.running[f].bufs;
      Reached(s0, system.model, f, Locking, |bufs|, s0.disk) && Locked(s0, system.model, bufs, |bufs|)
  {
    ghost var s0 := system.model;
    var bufs := system.running[f].bufs;
    for i := 0 to |bufs|
      invariant system.Matches()
      invariant Reached(s0, system.model, f, Locking, i, s0.disk) && Locked(s0, system.model, bufs, i)
    {
      ghost var s := system.model;
      system.LockOne(f);
      LockedMore(s0, s, f, i);
    }
  }

  lemma LockedMore(s0: State, s: State, f: nat, i: nat)
    requires Ready(s0, f) && i < |s0.running[f].bufs|
    requires Reached(s0, s, f, Locking, i, s0.disk) && Locked(s0, s, s0.running[f].bufs, i)
    ensures s.running[f].bufs[i] < |s.heap|
    ensures Reached(s0, LockNext(s, f), f, Locking, i + 1, s0.disk)
    ensures Locked(s0, LockNext(s, f), s0.running[f].bufs, i + 1)
  {
    var bufs := s0.running[f].bufs;
    forall j | 0 <= j < |bufs| && j != i
      ensures bufs[j] != bufs[i]
    {
      ConsecutiveAreDistinct(s0, bufs, if i < j then i else j, if i < j then j else i);
    }
  }

  method ReleaseEach(system: CacheSystem, f: nat, ghost s0: State)
    requires system.Matches() && Ready(s0, f)
    requires Reached(s0, system.model, f, Releasing, 0, system.model.disk)
    requires Released(s0, system.model, s0.running[f].bufs, 0)
    modifies system`running, system`model, system.heap
    ensures system.Matches()
    ensures var bufs := s0.running[f].bufs;
      && Reached(s0, system.model, f, Releasing, |bufs|, old(system.model).disk)
      && Released(s0, system.model, bufs, |bufs|)
  {
    ghost var disk := system.model.disk;
    var bufs := system.running[f].bufs;
    for i := 0 to |bufs|
      invariant system.Matches()
      invariant Reached(s0, system.model, f, Releasing, i, disk) && Released(s0, system.model, bufs, i)
    {
      ghost var s := system.model;
      system.ReleaseOne(f);
      ReleasedMore(s0, s, f, i, disk);
    }
  }

  lemma ReleasedMore(s0: State, s: State, f: nat, i: nat, disk: seq<Content>)
    requires Ready(s0, f) && i < |s0.running[f].bufs|
    requires Reached(s0, s, f, Releasing, i, disk) && Released(s0, s, s0.running[f].bufs, i)
    ensures s.running[f].bufs[i] < |s.heap|
    ensures Reached(s0, ReleaseNext(s, f), f, Releasing, i + 1, disk)
    ensures Released(s0, ReleaseNext(s, f), s0.running[f].bufs, i + 1)
  {
    var bufs := s0.running[f].bufs;
    forall j | 0 <= j < |bufs| && j != i
      ensures bufs[j] != bufs[i]
    {
      ConsecutiveAreDistinct(s0, bufs, if i < j then i else j, if i < j then j else i);
    }
  }

  /** All the steps of one flusher in a row: the same bytes are replaced and the same headers left as
      by the sequential merged write. */
  method FlushUndisturbed(system: CacheSystem, f: nat)
    requires system.Matches() && Ready(system.model, f)
    modifies system`running, system`model, system.heap, system.disk
    ensures system.Matches() && f < |system.running| && system.running[f].Finished()
    ensures var s0 := old(system.model);
      var bufs := s0.running[f].bufs;
      && Released(s0, system.model, bufs, |bufs|)
      && var start := Start(s0.heap[bufs[0]].block, system.blockSize);
      && start + |Join(Held(s0, bufs))| <= |Join(s0.disk)|
      && system.disk[..] == Patch(Join(s0.disk), start, Join(Held(s0, bufs)))
  {
    ghost var s0 := system.model;
    LockEach(system, f);
    CopyAndWrite(system, f, s0);
    ReleaseEach(system, f, s0);
    OverwriteIsPatch(s0.disk, s0.blockSize, s0.heap[s0.running[f].bufs[0]].block, Held(s0, s0.running[f].bufs));
  }

  method CopyAndWrite(system: CacheSystem, f: nat, ghost s0: State)
    requires system.Matches() && Ready(s0, f)
    requires Reached(s0, system.model, f, Locking, |s0.running[f].bufs|, s0.disk)
    requires Locked(s0, system.model, s0.running[f].bufs, |s0.running[f].bufs|)
    modifies system`running, system`model, system.disk
    ensures system.Matches()
    ensures var bufs := s0.running[f].bufs;
      && Reached(s0, system.model, f, Releasing, 0, Overwrite(s0.disk, s0.heap[bufs[0]].block, Held(s0, bufs)))
      && Released(s0, system.model, bufs, 0)
  {
    system.CopyAll(f);
    assert system.model.running[f].phase.data == Held(s0, s0.running[f].bufs);
    system.WriteOut(f);
  }
}
