/** Every block on the disk, in a valid buffer or in a merge buffer has the block size, so that the
    bytes of the mapped disk are the blocks laid out one after another. */
module CacheSizes {
  import opened DiskBytes
  import opened CacheMachine
  import opened CacheInvariant
  import opened CachePreservation
  import opened CacheAppPreservation
  import opened CacheTheorems

  ghost predicate SizedBuffer(s: State, id: nat) {
    id < |s.heap| && (s.heap[id].valid ==> |s.heap[id].content| == s.blockSize)
  }

  ghost predicate SizedFlusher(s: State, f: nat) {
    f < |s.running| && (s.running[f].phase.Writing? ==> SizedBlocks(s.running[f].phase.data, s.blockSize))
  }

  ghost predicate Sized(s: State) {
    && SizedBlocks(s.disk, s.blockSize)
    && (forall id | 0 <= id < |s.heap| :: SizedBuffer(s, id))
    && (forall f | 0 <= f < |s.running| :: SizedFlusher(s, f))
  }

  lemma OverwriteIsSized(disk: seq<Content>, start: nat, data: seq<Content>, size: nat)
    requires start + |data| <= |disk| && SizedBlocks(disk, size) && SizedBlocks(data, size)
    ensures SizedBlocks(Overwrite(disk, start, data), size)
  {
  }

  lemma EvictIsSized(c: Config, s: State, order: seq<nat>)
    requires Inv(c, s) && Sized(s) && CanEvict(s)
    ensures Sized(EvictNext(s, order))
  {
    var s', b := EvictNext(s, order), s.heap[s.app.victim];
    assert Mapped(s, b.block) && SizedBuffer(s, s.app.victim);
    WriteBlockIsSingleWrite(s.disk, s.blockSize, b.block, b.content, SingleOffset(b.block, s.blockSize));
    forall id | 0 <= id < |s'.heap|
      ensures SizedBuffer(s', id)
    {
      assert SizedBuffer(s, id);
    }
    forall f | 0 <= f < |s'.running|
      ensures SizedFlusher(s', f)
    {
      assert SizedFlusher(s, f);
    }
  }

  lemma AdmitIsSized(c: Config, s: State, b: Buffer, order: seq<nat>)
    requires Sized(s) && |b.content| == s.blockSize
    ensures Sized(Admit(c, s, b, order))
  {
    var s' := Admit(c, s, b, order);
    forall id | 0 <= id < |s'.heap|
      ensures SizedBuffer(s', id)
    {
      assert id < |s.heap| ==> SizedBuffer(s, id);
    }
    forall f | 0 <= f < |s'.running|
      ensures SizedFlusher(s', f)
    {
      assert SizedFlusher(s, f);
    }
  }

  lemma WriteHitIsSized(c: Config, s: State, block: nat, data: Content, order: seq<nat>)
    requires Sized(s) && block in s.cache && s.cache[block] < |s.heap| && |data| == s.blockSize
    ensures Sized(WriteNext(c, s, block, data, order))
  {
    var s' := WriteNext(c, s, block, data, order);
    forall id | 0 <= id < |s'.heap|
      ensures SizedBuffer(s', id)
    {
      assert SizedBuffer(s, id);
    }
    forall f | 0 <= f < |s'.running|
      ensures SizedFlusher(s', f)
    {
      assert SizedFlusher(s, f);
    }
  }

  lemma AppStepIsSized(c: Config, s: State, step: Step)
    requires Inv(c, s) && Sized(s) && Enabled(c, s, step) && AppStep(step)
    ensures Sized(Next(c, s, step))
  {
    match step
    case ReadStep(block, order) =>
      if block in s.cache {
        SameDataIsSized(s, Next(c, s, step), 0);
      } else {
        AdmitIsSized(c, s, Buffer(block, true, false, false, 0, false, s.disk[block]), order);
      }
    case WriteStep(block, data, order) =>
      if block in s.cache {
        WriteHitIsSized(c, s, block, data, order);
      } else {
        AdmitIsSized(c, s, Buffer(block, true, true, false, 0, false, data), order);
      }
    case EvictStep(order) => EvictIsSized(c, s, order);
    case EnqueueStep => SameDataIsSized(s, Next(c, s, step), 0);
  }

  /** A step that moves no data but may drop finished flushers, or launch ones that write nothing yet. */
  lemma SameDataIsSized(s: State, s': State, dropped: nat)
    requires Sized(s) && SameData(s, s') && s'.blockSize == s.blockSize && dropped <= |s.running|
    requires forall f | 0 <= f < |s'.running| && s'.running[f].phase.Writing? ::
               f + dropped < |s.running| && s'.running[f].phase == s.running[f + dropped].phase
    ensures Sized(s')
  {
    forall id | 0 <= id < |s'.heap|
      ensures SizedBuffer(s', id)
    {
      assert SizedBuffer(s, id) && SameBuffer(s.heap[id], s'.heap[id]);
    }
    forall f | 0 <= f < |s'.running|
      ensures SizedFlusher(s', f)
    {
      if s'.running[f].phase.Writing? {
        assert SizedFlusher(s, f + dropped);
      }
    }
  }

  lemma CopyIsSized(c: Config, s: State, f: nat)
    requires Core(c, s) && Sized(s) && CanCopy(s, f)
    ensures Sized(CopyNext(s, f))
  {
    var s', flusher := CopyNext(s, f), s.running[f];
    forall i | 0 <= i < |flusher.bufs|
      ensures |s'.running[f].phase.data[i]| == s.blockSize
    {
      assert BufferInv(s, flusher.bufs[i]) && SizedBuffer(s, flusher.bufs[i]);
      HeldIsLocked(s, f, i);
    }
    forall id | 0 <= id < |s'.heap|
      ensures SizedBuffer(s', id)
    {
      assert SizedBuffer(s, id);
    }
    forall g | 0 <= g < |s'.running|
      ensures SizedFlusher(s', g)
    {
      assert SizedFlusher(s, g);
    }
  }

  lemma WriteOutIsSized(s: State, f: nat)
    requires Sized(s) && CanWriteOut(s, f)
    ensures Sized(WriteOutNext(s, f))
  {
    var s' := WriteOutNext(s, f);
    assert SizedFlusher(s, f);
    OverwriteIsSized(s.disk, s.heap[s.running[f].bufs[0]].block, s.running[f].phase.data, s.blockSize);
    forall id | 0 <= id < |s'.heap|
      ensures SizedBuffer(s', id)
    {
      assert SizedBuffer(s, id);
    }
    forall g | 0 <= g < |s'.running|
      ensures SizedFlusher(s', g)
    {
      assert SizedFlusher(s, g);
    }
  }

  lemma TakeKeepsWriting(c: Config, s: State, id: nat, f: nat)
    requires id < |s.heap| && s.permits > 0
    requires |s.batch| > 0 ==> s.batch[|s.batch| - 1] < |s.heap|
    requires f < |Take(c, s, id).running| && Take(c, s, id).running[f].phase.Writing?
    ensures f < |s.running| && Take(c, s, id).running[f].phase == s.running[f].phase
  {
  }

  lemma PickKeepsWriting(c: Config, s: State, id: nat, f: nat)
    requires CanPick(s, id) && f < |PickNext(c, s, id).running| && PickNext(c, s, id).running[f].phase.Writing?
    ensures f < |s.running| && PickNext(c, s, id).running[f].phase == s.running[f].phase
  {
    if !Skipped(s.heap[id]) {
      TakeKeepsWriting(c, s.(queue := s.queue - multiset{id}), id, f);
    }
  }

  /** What a pool step or a lock or release does to the flushers that are writing. */
  lemma WritingStays(c: Config, s: State, step: Step, f: nat)
    requires Enabled(c, s, step) && !AppStep(step) && !step.CopyStep? && !step.WriteOutStep?
    requires f < |Next(c, s, step).running| && Next(c, s, step).running[f].phase.Writing?
    ensures var g := if step.WaitStep? && |s.running| > 0 then f + 1 else f;
            g < |s.running| && Next(c, s, step).running[f].phase == s.running[g].phase
  {
    if step.PickStep? {
      PickKeepsWriting(c, s, step.id, f);
    }
  }

  lemma QuietStepIsSized(c: Config, s: State, step: Step)
    requires Inv(c, s) && Sized(s) && Enabled(c, s, step) && !AppStep(step) && !step.CopyStep? && !step.WriteOutStep?
    ensures Sized(Next(c, s, step))
  {
    var s', dropped: nat := Next(c, s, step), if step.WaitStep? && |s.running| > 0 then 1 else 0;
    QuietStepKeepsData(c, s, step);
    DiskKeepsSize(c, s, step);
    forall f | 0 <= f < |s'.running| && s'.running[f].phase.Writing?
      ensures f + dropped < |s.running| && s'.running[f].phase == s.running[f + dropped].phase
    {
      WritingStays(c, s, step, f);
    }
    SameDataIsSized(s, s', dropped);
  }

  /** Every step keeps blocks whole. */
  lemma NextIsSized(c: Config, s: State, step: Step)
    requires Inv(c, s) && Sized(s) && Enabled(c, s, step)
    ensures Sized(Next(c, s, step))
  {
    if AppStep(step) {
      AppStepIsSized(c, s, step);
    } else if step.CopyStep? {
      CopyIsSized(c, s, step.f);
    } else if step.WriteOutStep? {
      WriteOutIsSized(s, step.f);
    } else {
      QuietStepIsSized(c, s, step);
    }
  }

  lemma RunStepIsSized(c: Config, r: Run, n: nat)
    requires IsRun(c, r) && n < |r.steps| && Inv(c, r.states[n]) && Sized(r.states[n])
    ensures Sized(r.states[n + 1])
  {
    assert Follows(c, r, n);
    NextIsSized(c, r.states[n], r.steps[n]);
  }

  lemma {:induction false} RunIsSized(c: Config, r: Run, n: nat)
    requires IsRun(c, r) && n < |r.states|
    ensures Inv(c, r.states[n]) && Sized(r.states[n])
  {
    RunKeepsInv(c, r, n);
    if n > 0 {
      RunIsSized(c, r, n - 1);
      RunStepIsSized(c, r, n - 1);
    }
  }
}
