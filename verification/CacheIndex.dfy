/** The hash map inside the cache: what the steps of the machine ask of it, and that along every run the bucket
    table answers each lookup as the map of the machine does. */
module CacheIndex {
  import opened RobinHood
  import opened HashTable
  import opened TableMeaning
  import opened HashMapRuns
  import CacheMachine
  import CacheInvariant
  import CacheTheorems

  /** A lookup of the block puts nothing into the map: it hits, or its buffer waits for a victim. */
  predicate PutsNothing(c: CacheMachine.Config, s: CacheMachine.State, block: nat) {
    block in s.cache || (CacheMachine.ShouldEvict(c, s) && |s.policy| > 0)
  }

  /** getMemoryBufferMap, and on a miss that need not wait for a victim putMemoryBufferAt. */
  ghost function LookupOps(c: CacheMachine.Config, s: CacheMachine.State, block: nat): seq<Op<nat, nat>> {
    if PutsNothing(c, s, block) then [GetOp(block)]
    else [GetOp(block)] + PutOps(block, |s.heap|)
  }

  /** putMemoryBufferAt: the new entry is set and looked up again. */
  ghost function PutOps(block: nat, id: nat): seq<Op<nat, nat>> {
    [SetOp(Item(block, id), true), GetOp(block)]
  }

  /** deleteMemoryBuffer: the victim is looked up and deleted. */
  ghost function DeleteOps(block: nat): seq<Op<nat, nat>> {
    [GetOp(block), DeleteOp(block, true)]
  }

  /** What a step asks of the hash map, with memory granted whenever it is needed. */
  ghost function StepOps(c: CacheMachine.Config, s: CacheMachine.State, step: CacheMachine.Step): seq<Op<nat, nat>>
    requires CacheMachine.Enabled(c, s, step)
  {
    match step
    case ReadStep(block, _) => LookupOps(c, s, block)
    case WriteStep(block, _, _) => LookupOps(c, s, block)
    case EvictStep(_) =>
      DeleteOps(s.heap[s.app.victim].block) + PutOps(s.heap[s.app.incoming].block, s.app.incoming)
    case _ => []
  }

  ghost function RunOps(c: CacheMachine.Config, r: CacheTheorems.Run, n: nat): seq<Op<nat, nat>>
    requires CacheTheorems.IsRun(c, r) && n <= |r.steps|
  {
    if n == 0 then [] else
      assert CacheTheorems.Follows(c, r, n - 1);
      RunOps(c, r, n - 1) + StepOps(c, r.states[n - 1], r.steps[n - 1])
  }

  // ---------- More operations of a run ----------

  /** The finite map after a run is `m`, and never held more than `n` items. */
  ghost predicate Gives(base: nat, ops: seq<Op<nat, nat>>, n: nat, m: map<nat, nat>) {
    AtMost(base, ops, n) && Replay(base, ops).contents == m
  }

  lemma GivesNothing(base: nat, n: nat)
    ensures Gives(base, [], n, map[])
  {
  }

  lemma OneMore(base: nat, ops: seq<Op<nat, nat>>, n: nat, op: Op<nat, nat>)
    requires AtMost(base, ops, n) && |Apply(base, Replay(base, ops), op).contents| <= n
    ensures AtMost(base, ops + [op], n) && Replay(base, ops + [op]) == Apply(base, Replay(base, ops), op)
  {
    var ops' := ops + [op];
    assert ops'[..|ops|] == ops;
    forall i | 0 <= i <= |ops'|
      ensures SmallAfter(base, ops', i, n)
    {
      if i <= |ops| {
        assert SmallAfter(base, ops, i, n) && ops'[..i] == ops[..i];
      } else {
        assert ops'[..i] == ops';
      }
    }
  }

  lemma GetChangesNothing(base: nat, ops: seq<Op<nat, nat>>, n: nat, m: map<nat, nat>, block: nat)
    requires Gives(base, ops, n, m)
    ensures Gives(base, ops + [GetOp(block)], n, m)
  {
    assert SmallAfter(base, ops, |ops|, n) && ops[..|ops|] == ops;
    OneMore(base, ops, n, GetOp(block));
  }

  lemma PutAddsEntry(base: nat, ops: seq<Op<nat, nat>>, n: nat, m: map<nat, nat>, block: nat, id: nat)
    requires Gives(base, ops, n, m) && |m[block := id]| <= n
    ensures Gives(base, ops + PutOps(block, id), n, m[block := id])
  {
    var set' := SetOp(Item(block, id), true);
    OneMore(base, ops, n, set');
    GetChangesNothing(base, ops + [set'], n, m[block := id], block);
    assert ops + PutOps(block, id) == ops + [set'] + [GetOp(block)];
  }

  lemma DeleteTakesEntry(base: nat, ops: seq<Op<nat, nat>>, n: nat, m: map<nat, nat>, block: nat)
    requires Gives(base, ops, n, m)
    ensures Gives(base, ops + DeleteOps(block), n, m - {block})
  {
    assert SmallAfter(base, ops, |ops|, n) && ops[..|ops|] == ops;
    GetChangesNothing(base, ops, n, m, block);
    SubsetSize((m - {block}).Keys, m.Keys);
    OneMore(base, ops + [GetOp(block)], n, DeleteOp(block, true));
    assert ops + DeleteOps(block) == ops + [GetOp(block)] + [DeleteOp(block, true)];
  }

  // ---------- The map of the machine ----------

  ghost function LookedUp(c: CacheMachine.Config, s: CacheMachine.State, block: nat): map<nat, nat> {
    if PutsNothing(c, s, block) then s.cache else s.cache[block := |s.heap|]
  }

  lemma LookupGives(c: CacheMachine.Config, s: CacheMachine.State, base: nat, ops: seq<Op<nat, nat>>, n: nat,
                    block: nat)
    requires Gives(base, ops, n, s.cache) && |LookedUp(c, s, block)| <= n
    ensures Gives(base, ops + LookupOps(c, s, block), n, LookedUp(c, s, block))
  {
    GetChangesNothing(base, ops, n, s.cache, block);
    if !PutsNothing(c, s, block) {
      PutAddsEntry(base, ops + [GetOp(block)], n, s.cache, block, |s.heap|);
      assert ops + LookupOps(c, s, block) == ops + [GetOp(block)] + PutOps(block, |s.heap|);
    }
  }

  lemma MissPutsEntry(c: CacheMachine.Config, s: CacheMachine.State, step: CacheMachine.Step)
    requires CacheMachine.Enabled(c, s, step) && (step.ReadStep? || step.WriteStep?)
    ensures CacheMachine.Next(c, s, step).cache == LookedUp(c, s, step.block)
    ensures StepOps(c, s, step) == LookupOps(c, s, step.block)
  {
  }

  lemma EvictGives(c: CacheMachine.Config, s: CacheMachine.State, order: seq<nat>, base: nat,
                   ops: seq<Op<nat, nat>>, n: nat)
    requires var step := CacheMachine.EvictStep(order);
             CacheMachine.Enabled(c, s, step) && |CacheMachine.Next(c, s, step).cache| <= n
    requires Gives(base, ops, n, s.cache)
    ensures var step := CacheMachine.EvictStep(order);
            Gives(base, ops + StepOps(c, s, step), n, CacheMachine.Next(c, s, step).cache)
  {
    var victim, incoming := s.heap[s.app.victim].block, s.heap[s.app.incoming].block;
    DeleteTakesEntry(base, ops, n, s.cache, victim);
    PutAddsEntry(base, ops + DeleteOps(victim), n, s.cache - {victim}, incoming, s.app.incoming);
    assert ops + (DeleteOps(victim) + PutOps(incoming, s.app.incoming)) ==
           ops + DeleteOps(victim) + PutOps(incoming, s.app.incoming);
  }

  lemma OtherStepKeepsMap(c: CacheMachine.Config, s: CacheMachine.State, step: CacheMachine.Step)
    requires CacheMachine.Enabled(c, s, step) && !step.ReadStep? && !step.WriteStep? && !step.EvictStep?
    ensures CacheMachine.Next(c, s, step).cache == s.cache && StepOps(c, s, step) == []
  {
    if !step.EnqueueStep? && !step.WriteOutStep? {
      CacheTheorems.QuietStepKeepsData(c, s, step);
    }
  }

  /** What a step asks of the hash map turns the map before it into the map after it. */
  lemma StepGives(c: CacheMachine.Config, s: CacheMachine.State, step: CacheMachine.Step, base: nat,
                  ops: seq<Op<nat, nat>>, n: nat)
    requires CacheMachine.Enabled(c, s, step) && Gives(base, ops, n, s.cache)
    requires |CacheMachine.Next(c, s, step).cache| <= n
    ensures Gives(base, ops + StepOps(c, s, step), n, CacheMachine.Next(c, s, step).cache)
  {
    if step.ReadStep? || step.WriteStep? {
      MissPutsEntry(c, s, step);
      LookupGives(c, s, base, ops, n, step.block);
    } else if step.EvictStep? {
      EvictGives(c, s, step.order, base, ops, n);
    } else {
      OtherStepKeepsMap(c, s, step);
      assert ops + [] == ops;
    }
  }

  lemma CacheFits(c: CacheMachine.Config, r: CacheTheorems.Run, k: nat)
    requires CacheTheorems.IsRun(c, r) && k < |r.states|
    ensures |r.states[k].cache| <= CacheInvariant.MaxSize(c)
  {
    CacheTheorems.CacheIsBounded(c, r, k);
  }

  lemma RunStepGives(c: CacheMachine.Config, r: CacheTheorems.Run, k: nat, base: nat, n: nat)
    requires CacheTheorems.IsRun(c, r) && k < |r.steps| && |r.states[k + 1].cache| <= n
    requires Gives(base, RunOps(c, r, k), n, r.states[k].cache)
    ensures Gives(base, RunOps(c, r, k + 1), n, r.states[k + 1].cache)
  {
    assert CacheTheorems.Follows(c, r, k);
    StepGives(c, r.states[k], r.steps[k], base, RunOps(c, r, k), n);
  }

  lemma {:induction false} RunGives(c: CacheMachine.Config, r: CacheTheorems.Run, k: nat, base: nat, n: nat)
    requires CacheTheorems.IsRun(c, r) && k <= |r.steps| && CacheInvariant.MaxSize(c) <= n
    ensures Gives(base, RunOps(c, r, k), n, r.states[k].cache)
  {
    if k == 0 {
      GivesNothing(base, n);
    } else {
      RunGives(c, r, k - 1, base, n);
      CacheFits(c, r, k);
      RunStepGives(c, r, k - 1, base, n);
    }
  }

  /** Along every run of a cache of at most 65535 buffers, and for every hash function, the bucket table of the hash
      map finds exactly the buffers that the map of the machine holds, and counts them. */
  lemma TableIsCache(c: CacheMachine.Config, r: CacheTheorems.Run, k: nat, base: nat, hash: nat -> nat, block: nat)
    requires CacheTheorems.IsRun(c, r) && k <= |r.steps| && CacheInvariant.MaxSize(c) <= DIB_LIMIT && Based(base)
    ensures var t := TableAfter(base, hash, RunOps(c, r, k));
            && GetRaw(t, hash(block), block) == Lookup(r.states[k].cache, block)
            && t.count == |r.states[k].cache|
  {
    RunGives(c, r, k, base, DIB_LIMIT);
    SmallRunRepresents(base, hash, RunOps(c, r, k));
    GetMeans(TableAfter(base, hash, RunOps(c, r, k)), hash, r.states[k].cache, block);
  }
}
