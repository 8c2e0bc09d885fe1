/** The replacement policy inside the cache: in every run whose orders are those of a policy, the deque of the machine
    is that policy's deque after the accesses and deletes of the run, and its first buffer is the one evicted. */
module CachePolicyRuns {
  import opened Wrappers
  import opened PolicyOrder
  import opened PolicyTraces
  import CacheMachine
  import CacheInvariant
  import CacheTheorems

  /** What a step asks of the policy at the timestamp `now`: a hit and a put are accesses, and an eviction deletes
      first. */
  ghost function StepOps(c: CacheMachine.Config, s: CacheMachine.State, step: CacheMachine.Step, now: nat): seq<Op>
    requires CacheMachine.Enabled(c, s, step)
  {
    match step
    case ReadStep(block, _) => LookupOps(c, s, block, now)
    case WriteStep(block, _, _) => LookupOps(c, s, block, now)
    case EvictStep(_) => [DeleteOp(s.app.victim), AccessOp(s.app.incoming, now)]
    case _ => []
  }

  ghost function LookupOps(c: CacheMachine.Config, s: CacheMachine.State, block: nat, now: nat): seq<Op> {
    if block in s.cache then [AccessOp(s.cache[block], now)]
    else if c.manageable <= |s.cache| && |s.policy| > 0 then []
    else [AccessOp(|s.heap|, now)]
  }

  /** The accesses and deletes of the first `n` steps; `clock` gives the timestamp of each step. */
  ghost function RunOps(c: CacheMachine.Config, r: CacheTheorems.Run, clock: nat -> nat, n: nat): seq<Op>
    requires CacheTheorems.IsRun(c, r) && n <= |r.steps|
  {
    if n == 0 then [] else
      assert CacheTheorems.Follows(c, r, n - 1);
      RunOps(c, r, clock, n - 1) + StepOps(c, r.states[n - 1], r.steps[n - 1], clock(n - 1))
  }

  /** Where step `i` touches the policy, its order is the one that the policy computes. */
  ghost predicate ObeysAt(kind: Kind, c: CacheMachine.Config, r: CacheTheorems.Run, clock: nat -> nat, i: nat)
    requires CacheTheorems.IsRun(c, r) && i < |r.steps|
  {
    var step := r.steps[i];
    (step.ReadStep? || step.WriteStep? || step.EvictStep?) && RunOps(c, r, clock, i + 1) != RunOps(c, r, clock, i) ==>
      step.order == Ids(Run(kind, RunOps(c, r, clock, i + 1)))
  }

  ghost predicate Obeys(kind: Kind, c: CacheMachine.Config, r: CacheTheorems.Run, clock: nat -> nat) {
    CacheTheorems.IsRun(c, r) && forall i | 0 <= i < |r.steps| :: ObeysAt(kind, c, r, clock, i)
  }

  lemma StepUsesOrder(c: CacheMachine.Config, s: CacheMachine.State, step: CacheMachine.Step, now: nat)
    requires CacheMachine.Enabled(c, s, step)
    ensures StepOps(c, s, step, now) == [] ==> CacheMachine.Next(c, s, step).policy == s.policy
    ensures StepOps(c, s, step, now) != [] ==> step.ReadStep? || step.WriteStep? || step.EvictStep?
    ensures StepOps(c, s, step, now) != [] ==> CacheMachine.Next(c, s, step).policy == step.order
  {
    match step
    case PickStep(id) => PickKeepsPolicy(c, s, id);
    case _ =>
  }

  lemma PickKeepsPolicy(c: CacheMachine.Config, s: CacheMachine.State, id: nat)
    requires CacheMachine.Enabled(c, s, CacheMachine.PickStep(id))
    ensures CacheMachine.PickNext(c, s, id).policy == s.policy
  {
  }

  /** The deque of the machine is the policy's deque after the operations of the run. */
  lemma {:induction false} PolicyIsTrace(kind: Kind, c: CacheMachine.Config, r: CacheTheorems.Run, clock: nat -> nat,
                                         n: nat)
    requires Obeys(kind, c, r, clock) && n <= |r.steps|
    ensures r.states[n].policy == Ids(Run(kind, RunOps(c, r, clock, n)))
  {
    if n == 0 {
      assert Run(kind, RunOps(c, r, clock, 0)) == [];
    } else {
      PolicyIsTrace(kind, c, r, clock, n - 1);
      assert CacheTheorems.Follows(c, r, n - 1) && ObeysAt(kind, c, r, clock, n - 1);
      var s, step := r.states[n - 1], r.steps[n - 1];
      StepUsesOrder(c, s, step, clock(n - 1));
      var before, ops := RunOps(c, r, clock, n - 1), StepOps(c, s, step, clock(n - 1));
      if ops == [] {
        assert before + ops == before;
      } else {
        assert |before + ops| > |before|;
      }
    }
  }

  /** A read or write that has to wait for a victim: the first buffer of the policy's deque. */
  ghost predicate Waits(c: CacheMachine.Config, r: CacheTheorems.Run, i: nat) {
    && CacheTheorems.IsRun(c, r) && i < |r.steps| && (r.steps[i].ReadStep? || r.steps[i].WriteStep?)
    && r.states[i + 1].app.Evicting?
  }

  lemma VictimIsFirst(kind: Kind, c: CacheMachine.Config, r: CacheTheorems.Run, clock: nat -> nat, i: nat)
    requires Obeys(kind, c, r, clock) && Waits(c, r, i)
    ensures var q := Run(kind, RunOps(c, r, clock, i)); |q| > 0 && r.states[i + 1].app.victim == q[0].id
    ensures c.manageable <= |r.states[i].cache|
  {
    PolicyIsTrace(kind, c, r, clock, i);
    assert CacheTheorems.Follows(c, r, i);
    var q := Run(kind, RunOps(c, r, clock, i));
    assert |Ids(q)| == |q| && r.states[i].policy[0] == Ids(q)[0];
  }

  /** Every cached buffer has an entry in the policy's deque. */
  lemma CachedHasEntry(kind: Kind, c: CacheMachine.Config, r: CacheTheorems.Run, clock: nat -> nat, i: nat, block: nat)
    returns (k: nat)
    requires Obeys(kind, c, r, clock) && i <= |r.steps| && block in r.states[i].cache
    ensures var q := Run(kind, RunOps(c, r, clock, i)); k < |q| && q[k].id == r.states[i].cache[block]
  {
    CacheTheorems.CacheIsBounded(c, r, i);
    PolicyIsTrace(kind, c, r, clock, i);
    var q, id := Run(kind, RunOps(c, r, clock, i)), r.states[i].cache[block];
    assert id in r.states[i].cache.Values;
    assert id in Ids(q) && |Ids(q)| == |q|;
    k :| 0 <= k < |q| && Ids(q)[k] == id;
  }

  /** Under the policy called FIFO the cache evicts, of all cached buffers, the one whose last access is the oldest. */
  lemma FifoEvictsOldest(c: CacheMachine.Config, r: CacheTheorems.Run, clock: nat -> nat, i: nat, block: nat)
    requires Obeys(Fifo, c, r, clock) && Waits(c, r, i) && block in r.states[i].cache
    ensures var ops, victim := RunOps(c, r, clock, i), r.states[i + 1].app.victim;
      && LastAccess(ops, victim).Some? && LastAccess(ops, r.states[i].cache[block]).Some?
      && LastAccess(ops, victim).value <= LastAccess(ops, r.states[i].cache[block]).value
  {
    VictimIsFirst(Fifo, c, r, clock, i);
    var k := CachedHasEntry(Fifo, c, r, clock, i, block);
    FifoVictimOfTrace(RunOps(c, r, clock, i), k);
  }

  /** Under LRU too, where the truncated timestamps fit. */
  lemma LruEvictsOldest(c: CacheMachine.Config, r: CacheTheorems.Run, clock: nat -> nat, i: nat, block: nat)
    requires Obeys(Lru, c, r, clock) && Waits(c, r, i) && block in r.states[i].cache
    requires StampsFit(RunOps(c, r, clock, i))
    ensures var ops, victim := RunOps(c, r, clock, i), r.states[i + 1].app.victim;
      && LastAccess(ops, victim).Some? && LastAccess(ops, r.states[i].cache[block]).Some?
      && LastAccess(ops, victim).value <= LastAccess(ops, r.states[i].cache[block]).value
  {
    VictimIsFirst(Lru, c, r, clock, i);
    var k := CachedHasEntry(Lru, c, r, clock, i, block);
    var ops := RunOps(c, r, clock, i);
    var lru, fifo := Run(Lru, ops), Run(Fifo, ops);
    LruRunIsFifoRun(ops);
    assert |Ids(lru)| == |lru| && |Ids(fifo)| == |fifo|;
    assert Ids(lru)[0] == lru[0].id && Ids(fifo)[0] == fifo[0].id;
    assert Ids(lru)[k] == lru[k].id && Ids(fifo)[k] == fifo[k].id;
    FifoVictimOfTrace(ops, k);
  }

  /** Under LFU it evicts, in a run of fewer than 2^32 accesses and deletes, the one with the fewest accesses and, of
      those, the one whose last access is the oldest. */
  lemma LfuEvictsLeastUsed(c: CacheMachine.Config, r: CacheTheorems.Run, clock: nat -> nat, i: nat, block: nat)
    requires Obeys(Lfu, c, r, clock) && Waits(c, r, i) && block in r.states[i].cache
    requires |RunOps(c, r, clock, i)| < 0x1_0000_0000
    ensures var ops, victim, other := RunOps(c, r, clock, i), r.states[i + 1].app.victim, r.states[i].cache[block];
      && Accesses(ops, victim) <= Accesses(ops, other)
      && LastAccess(ops, victim).Some? && LastAccess(ops, other).Some?
      && (Accesses(ops, victim) == Accesses(ops, other) ==>
            LastAccess(ops, victim).value <= LastAccess(ops, other).value)
  {
    VictimIsFirst(Lfu, c, r, clock, i);
    var k := CachedHasEntry(Lfu, c, r, clock, i, block);
    LfuVictimOfTrace(RunOps(c, r, clock, i), k);
  }
}
