/** How the pool cuts what it picks into flushers: along every run a flusher is launched exactly when its batch is full
    or the next block does not continue it. */
module CacheBatches {
  import opened CacheMachine
  import opened CacheInvariant
  import opened CacheTheorems

  /** A picked buffer that the pool takes up: valid, dirty and not being written. */
  predicate Taken(s: State, id: nat)
    requires id < |s.heap|
  {
    s.heap[id].valid && s.heap[id].dirty && !s.heap[id].beingWritten
  }

  /** The picked block comes right after the last of the batch. */
  predicate Continues(s: State, id: nat)
    requires id < |s.heap| && |s.batch| > 0 && s.batch[|s.batch| - 1] < |s.heap|
  {
    s.heap[id].block == s.heap[s.batch[|s.batch| - 1]].block + 1
  }

  /** The picked block is the last of the batch. */
  predicate Repeats(s: State, id: nat)
    requires id < |s.heap| && |s.batch| > 0 && s.batch[|s.batch| - 1] < |s.heap|
  {
    s.heap[id].block == s.heap[s.batch[|s.batch| - 1]].block
  }

  /** A full batch: the configured length, but never less than two buffers. */
  function FullLength(c: Config): nat {
    if c.maxLength > 2 then c.maxLength else 2
  }

  /** Step `i` of the run is a pick of `id`. */
  ghost predicate Picks(c: Config, r: Run, i: nat, id: nat) {
    && IsRun(c, r) && i < |r.steps| && r.steps[i] == PickStep(id)
    && id < |r.states[i].heap|
    && (|r.states[i].batch| > 0 ==> r.states[i].batch[|r.states[i].batch| - 1] < |r.states[i].heap|)
  }

  lemma PickInRange(c: Config, r: Run, i: nat)
    requires IsRun(c, r) && i < |r.steps| && r.steps[i].PickStep?
    ensures Picks(c, r, i, r.steps[i].id)
    ensures Inv(c, r.states[i]) && r.states[i].permits > 0
    ensures r.states[i + 1] == PickNext(c, r.states[i], r.steps[i].id)
  {
    RunKeepsInv(c, r, i);
    assert Follows(c, r, i);
  }

  /** Between two steps the batch is never full. */
  lemma BatchIsNotFull(c: Config, r: Run, n: nat)
    requires IsRun(c, r) && n < |r.states|
    ensures |r.states[n].batch| < FullLength(c)
  {
    RunKeepsInv(c, r, n);
  }

  /** The launched flusher, and what the pick leaves as the batch. */
  ghost predicate Launches(s: State, s': State, bufs: seq<nat>, rest: seq<nat>) {
    && s'.running == s.running + [Flusher(bufs, Locking, 0)] && s'.batch == rest
    && s'.permits + 1 == s.permits
  }

  ghost predicate OnlyBatches(s: State, s': State, batch: seq<nat>) {
    s'.running == s.running && s'.batch == batch && s'.permits == s.permits
  }

  /** What a pick does, in every run: a buffer that is not taken up, or repeats the last one, is dropped; the first of a
      batch and every next block join it; the block that fills the batch launches it whole; and any other block
      launches what there is and starts a new batch. */
  lemma PickOutcome(c: Config, r: Run, i: nat, id: nat)
    requires Picks(c, r, i, id)
    ensures var s, s' := r.states[i], r.states[i + 1];
      if !Taken(s, id) then OnlyBatches(s, s', s.batch)
      else if |s.batch| == 0 then OnlyBatches(s, s', [id])
      else if Repeats(s, id) then OnlyBatches(s, s', s.batch)
      else if !Continues(s, id) then Launches(s, s', s.batch, [id])
      else if |s.batch| + 1 < FullLength(c) then OnlyBatches(s, s', s.batch + [id])
      else |s.batch| + 1 == FullLength(c) && Launches(s, s', s.batch + [id], [])
  {
    PickInRange(c, r, i);
    BatchIsNotFull(c, r, i);
  }

  /** Whenever a pick launches a flusher, it holds exactly the full length, or the picked block does not continue it;
      and it launches whenever one of the two is so. */
  lemma PickLaunchesIff(c: Config, r: Run, i: nat, id: nat)
    requires Picks(c, r, i, id) && Taken(r.states[i], id)
    ensures var s, s' := r.states[i], r.states[i + 1];
      && (|s'.running| > |s.running| <==>
           |s.batch| > 0 && !Repeats(s, id) && (Continues(s, id) ==> |s.batch| + 1 == FullLength(c)))
      && (|s'.running| > |s.running| ==>
           var launched := s'.running[|s.running|].bufs;
           |launched| == FullLength(c) || (launched == s.batch && |s.batch| > 0 && !Continues(s, id)))
  {
    BatchIsNotFull(c, r, i);
    PickOutcome(c, r, i, id);
  }

  /** With the queue empty, what has been batched is launched whole, and the flush is counted. */
  lemma IdleLaunches(c: Config, r: Run, i: nat)
    requires IsRun(c, r) && i < |r.steps| && r.steps[i].IdleStep?
    ensures var s, s' := r.states[i], r.states[i + 1];
      && s.queue == multiset{} && s'.batch == []
      && s'.running == s.running + (if |s.batch| > 0 then [Flusher(s.batch, Locking, 0)] else [])
      && s'.permits == s.permits
  {
    assert Follows(c, r, i);
  }
}
