/** The exact condition for the main claim: when the block numbers and sizes of a disk do not fit the
    `int` product of a single write, there is a run that loses a written block. */
module CacheWraps {
  import opened DiskBytes
  import opened CacheMachine
  import opened CacheTheorems

  // ---------- Runs built step by step ----------

  function Last(r: Run): State
    requires |r.states| > 0
  {
    r.states[|r.states| - 1]
  }

  /** What was last written to a block in the whole run. */
  ghost function Written(r: Run, block: nat): Content
    requires |r.states| > 0 && block < |r.states[0].disk|
  {
    LastWritten(r.steps, block, r.states[0].disk[block])
  }

  lemma Extend(c: Config, r: Run, step: Step, block: nat) returns (r': Run)
    requires IsRun(c, r) && block < |r.states[0].disk| && Enabled(c, Last(r), step)
    ensures IsRun(c, r') && r'.states[0] == r.states[0] && Last(r') == Next(c, Last(r), step)
    ensures r'.steps == r.steps + [step] && r'.states == r.states + [Last(r')]
    ensures Written(r', block) == Overwritten(step, block, Written(r, block))
  {
    r' := Run(r.states + [Next(c, Last(r), step)], r.steps + [step]);
    forall i | 0 <= i < |r'.steps|
      ensures Follows(c, r', i)
    {
      assert i < |r.steps| ==> Follows(c, r, i);
    }
    LastWrittenStep(r.steps, step, block, r.states[0].disk[block]);
  }

  // ---------- A run that fills the cache behind a dirty last block ----------

  function Fresh(c: Config, disk: seq<Content>, size: nat): State {
    State(disk, size, false, [], map[], [], multiset{}, [], [], c.threads, 0, Idle)
  }

  function Numbers(n: nat): seq<nat> {
    seq(n, i => i)
  }

  /** The last block is cached with new content, in front of the first `k` blocks. */
  ghost predicate Filled(disk: seq<Content>, size: nat, data: Content, s: State, k: nat) {
    && |disk| > 0 && s.disk == disk && s.blockSize == size && !s.misplaced && s.app == Idle
    && |s.heap| == k + 1 && s.heap[0] == Buffer(|disk| - 1, true, true, false, 0, false, data)
    && s.policy == Numbers(k + 1)
    && |s.cache| == k + 1 && |disk| - 1 in s.cache && s.cache[|disk| - 1] == 0
    && forall block | block in s.cache :: block == |disk| - 1 || block < k
  }

  lemma WriteLastBlock(c: Config, disk: seq<Content>, size: nat, data: Content) returns (r: Run)
    requires c.Valid() && SizedBlocks(disk, size) && |data| == size && |disk| > 0
    ensures IsRun(c, r) && r.states[0] == Fresh(c, disk, size) && Filled(disk, size, data, Last(r), 0)
    ensures Written(r, |disk| - 1) == data
  {
    var s, last := Fresh(c, disk, size), |disk| - 1;
    r := Run([s], []);
    assert Touched(s.policy, 0, [0]);
    r := Extend(c, r, WriteStep(last, data, [0]), last);
    r := Extend(c, r, EnqueueStep, last);
  }

  lemma NextNumber(policy: seq<nat>, k: nat)
    requires policy == Numbers(k)
    ensures policy + [k] == Numbers(k + 1) && Touched(policy, k, policy + [k])
  {
    assert k !in policy;
  }

  lemma ReadOneMore(c: Config, disk: seq<Content>, size: nat, data: Content, s: State, k: nat)
    requires Filled(disk, size, data, s, k) && k + 1 < c.manageable && k + 1 < |disk|
    ensures Enabled(c, s, ReadStep(k, Numbers(k + 2)))
    ensures Filled(disk, size, data, Next(c, s, ReadStep(k, Numbers(k + 2))), k + 1)
  {
    NextNumber(s.policy, k + 1);
    assert !ShouldEvict(c, s);
  }

  /** A miss on a cache that has room for one more. */
  lemma FillOneMore(c: Config, disk: seq<Content>, size: nat, data: Content, r: Run, k: nat) returns (r': Run)
    requires IsRun(c, r) && r.states[0] == Fresh(c, disk, size) && Filled(disk, size, data, Last(r), k)
    requires k + 1 < |disk| && k + 1 < c.manageable
    ensures IsRun(c, r') && r'.states[0] == r.states[0] && Filled(disk, size, data, Last(r'), k + 1)
    ensures Written(r', |disk| - 1) == Written(r, |disk| - 1)
  {
    ReadOneMore(c, disk, size, data, Last(r), k);
    r' := Extend(c, r, ReadStep(k, Numbers(k + 2)), |disk| - 1);
  }

  lemma {:induction false} FillCache(c: Config, disk: seq<Content>, size: nat, data: Content, k: nat) returns (r: Run)
    requires c.Valid() && SizedBlocks(disk, size) && |data| == size
    requires k < |disk| && (k == 0 || k < c.manageable)
    ensures IsRun(c, r) && r.states[0] == Fresh(c, disk, size) && Filled(disk, size, data, Last(r), k)
    ensures Written(r, |disk| - 1) == data
    decreases k
  {
    if k == 0 {
      r := WriteLastBlock(c, disk, size, data);
    } else {
      r := FillCache(c, disk, size, data, k - 1);
      r := FillOneMore(c, disk, size, data, r, k - 1);
    }
  }

  // ---------- The eviction of the last block ----------

  lemma FirstLeaves(policy: seq<nat>, k: nat)
    requires policy == Numbers(k) && k > 0
    ensures multiset(policy[1..] + [k]) == multiset(policy)[0 := 0][k := 1]
  {
    assert policy == [0] + policy[1..];
    assert 0 !in policy[1..] && k !in policy;
  }

  /** A miss on block `k` waits for the last block, at the front of the policy, to be evicted. */
  ghost predicate Full(disk: seq<Content>, size: nat, data: Content, s: State, k: nat) {
    && 0 <= k < |disk| - 1 && s.disk == disk && s.blockSize == size && s.app == Evicting(0, k + 1)
    && |s.heap| == k + 2 && s.heap[0] == Buffer(|disk| - 1, true, true, false, 0, false, data)
    && s.heap[k + 1].block == k && !s.heap[k + 1].dirty
    && s.policy == Numbers(k + 1)
  }

  lemma MissWaits(c: Config, disk: seq<Content>, size: nat, data: Content, s: State, k: nat)
    requires Filled(disk, size, data, s, k) && c.manageable <= k + 1 < |disk|
    ensures Enabled(c, s, ReadStep(k, s.policy)) && Full(disk, size, data, Next(c, s, ReadStep(k, s.policy)), k)
  {
  }

  lemma VictimCanLeave(c: Config, disk: seq<Content>, size: nat, data: Content, s: State, k: nat)
    requires Full(disk, size, data, s, k)
    ensures Enabled(c, s, EvictStep(s.policy[1..] + [k + 1]))
  {
    FirstLeaves(s.policy, k + 1);
  }

  lemma VictimIsLost(c: Config, disk: seq<Content>, size: nat, data: Content, s: State, k: nat, step: Step)
    requires Full(disk, size, data, s, k) && step.EvictStep? && Enabled(c, s, step)
    requires SizedBlocks(disk, size) && |data| == size < INT_LIMIT && !Exact(|disk| - 1, size)
    ensures var s' := Next(c, s, step);
            s'.app == Idle && |s'.disk| == |disk| && |disk| - 1 !in s'.cache && s'.disk[|disk| - 1] == disk[|disk| - 1]
  {
    ScatteredMisses(disk, size, |disk| - 1, data);
  }

  /** A miss on the full cache waits for the last block to leave. */
  lemma MissOnFull(c: Config, disk: seq<Content>, size: nat, data: Content, r: Run, k: nat) returns (r': Run)
    requires IsRun(c, r) && r.states[0] == Fresh(c, disk, size) && Filled(disk, size, data, Last(r), k)
    requires c.manageable <= k + 1 < |disk|
    ensures IsRun(c, r') && r'.states[0] == r.states[0] && Full(disk, size, data, Last(r'), k)
    ensures Written(r', |disk| - 1) == Written(r, |disk| - 1)
  {
    MissWaits(c, disk, size, data, Last(r), k);
    r' := Extend(c, r, ReadStep(k, Last(r).policy), |disk| - 1);
  }

  /** The waiting miss goes on, and the last block leaves for elsewhere. */
  lemma LoseLastBlock(c: Config, disk: seq<Content>, size: nat, data: Content, r: Run, k: nat) returns (r': Run)
    requires IsRun(c, r) && r.states[0].disk == disk && Full(disk, size, data, Last(r), k)
    requires SizedBlocks(disk, size) && |data| == size < INT_LIMIT && !Exact(|disk| - 1, size)
    ensures IsRun(c, r') && r'.states[0] == r.states[0]
    ensures Written(r', |disk| - 1) == Written(r, |disk| - 1)
    ensures Last(r').app == Idle && |Last(r').disk| == |disk|
    ensures |disk| - 1 !in Last(r').cache && Last(r').disk[|disk| - 1] == disk[|disk| - 1]
  {
    var evict := EvictStep(Last(r).policy[1..] + [k + 1]);
    VictimCanLeave(c, disk, size, data, Last(r), k);
    VictimIsLost(c, disk, size, data, Last(r), k, evict);
    r' := Extend(c, r, evict, |disk| - 1);
  }

  lemma EvictLastBlock(c: Config, disk: seq<Content>, size: nat, data: Content, r: Run, k: nat) returns (r': Run)
    requires IsRun(c, r) && r.states[0] == Fresh(c, disk, size) && Filled(disk, size, data, Last(r), k)
    requires Written(r, |disk| - 1) == data && c.manageable <= k + 1 < |disk|
    requires SizedBlocks(disk, size) && |data| == size < INT_LIMIT && !Exact(|disk| - 1, size)
    ensures IsRun(c, r') && r'.states[0] == r.states[0] && Written(r', |disk| - 1) == data
    ensures Last(r').app == Idle && |Last(r').disk| == |disk|
    ensures |disk| - 1 !in Last(r').cache && Last(r').disk[|disk| - 1] == disk[|disk| - 1]
  {
    r' := MissOnFull(c, disk, size, data, r, k);
    r' := LoseLastBlock(c, disk, size, data, r', k);
  }

  /** The application reads a block that is not cached. */
  lemma ReadBack(c: Config, r: Run, block: nat) returns (r': Run)
    requires IsRun(c, r) && block < |r.states[0].disk| == |Last(r).disk|
    requires Last(r).app == Idle && block !in Last(r).cache
    ensures IsRun(c, r') && r'.states[0] == r.states[0] && |r'.steps| == |r.steps| + 1
    ensures r'.steps[..|r.steps|] == r.steps && r'.states[|r.steps|] == Last(r)
    ensures r'.steps[|r.steps|].ReadStep? && r'.steps[|r.steps|].block == block
  {
    RunKeepsInv(c, r, |r.steps|);
    var s := Last(r);
    assert |s.heap| !in s.policy;
    r' := Extend(c, r, ReadStep(block, s.policy + [|s.heap|]), block);
  }

  /** A run that ends with an os_read of the last block, which does not deliver what was written. */
  lemma LostBlock(c: Config, disk: seq<Content>, size: nat) returns (r: Run)
    requires c.Valid() && SizedBlocks(disk, size) && size < 0x8000_0000 && !WritesFit(c, |disk|, size)
    ensures IsRun(c, r) && r.states[0].disk == disk && r.states[0].blockSize == size
    ensures |r.steps| > 0 && r.steps[|r.steps| - 1].ReadStep? && !DeliversLast(c, r, |r.steps| - 1)
  {
    var last := |disk| - 1;
    OffsetsAgreeIff(last, size);
    var data: Content := seq(size, i => if disk[last][0] == 0 then 1 else 0);
    assert data[0] != disk[last][0];
    var k: nat := if c.manageable > 0 then c.manageable - 1 else 0;
    r := FillCache(c, disk, size, data, k);
    r := EvictLastBlock(c, disk, size, data, r, k);
    r := ReadBack(c, r, last);
  }

  // ---------- The condition ----------

  /** The promise of the cache for one configuration: in every run from this disk, each os_read delivers the data of
      the last os_write to its block, or the initial content. */
  ghost predicate AlwaysLastWritten(c: Config, disk: seq<Content>, size: nat) {
    forall r: Run, i: nat |
      && IsRun(c, r) && r.states[0].disk == disk && r.states[0].blockSize == size
      && i < |r.steps| && r.steps[i].ReadStep? ::
      DeliversLast(c, r, i)
  }

  /** The promise is kept if and only if the cache has room for the whole disk or every single write
      fits the `int` of its offset. */
  lemma AlwaysLastWrittenIff(c: Config, disk: seq<Content>, size: nat)
    requires c.Valid() && SizedBlocks(disk, size) && size < 0x8000_0000
    ensures AlwaysLastWritten(c, disk, size) <==>
              |disk| <= c.manageable || (|disk| - 1) * size < 0x8000_0000
  {
    if WritesFit(c, |disk|, size) {
      forall r: Run, i: nat |
        && IsRun(c, r) && r.states[0].disk == disk && r.states[0].blockSize == size
        && i < |r.steps| && r.steps[i].ReadStep?
        ensures DeliversLast(c, r, i)
      {
        ReadsLastWritten(c, r, i);
      }
    } else {
      var r := LostBlock(c, disk, size);
      assert !DeliversLast(c, r, |r.steps| - 1);
    }
  }
}
