/** Whole runs of the cache as the source writes it: under every interleaving, every read delivers
    what was last written. */
module BufferCacheRuns {
  import opened Wrappers
  import opened DiskBytes
  import opened CacheMachine
  import opened CacheInvariant
  import opened CacheTheorems
  import opened CacheSizes
  import opened BufferCache

  /** Where the single writes fit, a victim is written inside the mapping. */
  lemma VictimIsInside(c: Config, s: State, bytes: nat)
    requires Inv(c, s) && Placed(c, s) && WritesFit(c, |s.disk|, s.blockSize) && s.app.Evicting?
    requires bytes == Start(|s.disk|, s.blockSize)
    ensures s.app.victim < |s.heap|
    ensures 0 <= SingleOffset(s.heap[s.app.victim].block, s.blockSize)
    ensures SingleOffset(s.heap[s.app.victim].block, s.blockSize) + s.blockSize <= bytes
  {
    assert BufferInv(s, s.app.victim);
    var block := s.heap[s.app.victim].block;
    FittingIsExact(|s.disk|, s.blockSize, block);
    InRun(0, s.blockSize, |s.disk|, block);
  }

  /** One step of any thread, on the fields. */
  method Perform(system: CacheSystem, step: Step) returns (value: Option<Content>)
    requires system.Sound() && Enabled(system.config, system.model, step)
    requires step.EvictStep? ==> system.VictimLands()
    modifies system, system.batch, system.heap, system.disk
    ensures system.Matches() && system.model == Next(system.config, old(system.model), step)
    ensures step.ReadStep? ==> value == Some(Visible(old(system.model), step.block))
    ensures !step.ReadStep? ==> value == None
    ensures old(system.heap) <= system.heap && fresh(system.heap[|old(system.heap)|..])
    ensures system.batch == old(system.batch) || fresh(system.batch)
  {
    value := None;
    match step
    case ReadStep(block, order) =>
      var content, _ := system.OsRead(block, order);
      value := Some(content);
    case WriteStep(block, data, order) => system.OsWrite(block, data, order);
    case EvictStep(order) => var _ := system.EvictPoll(order);
    case EnqueueStep => system.AddQueue();
    case IdleStep => system.PollOnce(0);
    case PickStep(id) => system.PollOnce(id);
    case WaitStep => system.PollOnce(0);
    case LockStep(f) => system.LockOne(f);
    case CopyStep(f) => system.CopyAll(f);
    case WriteOutStep(f) =>
      assert SizedFlusher(system.model, f);
      system.WriteOut(f);
    case ReleaseStep(f) => system.ReleaseOne(f);
  }

  /** What step `i` of a run should deliver: an os_read, the data of the last os_write to its block before it, or
      the initial content. */
  ghost predicate DeliversAt(c: Config, r: Run, i: nat, value: Option<Content>)
    requires IsRun(c, r)
  {
    && i < |r.steps|
    && match r.steps[i]
       case ReadStep(block, _) =>
         && block < |r.states[0].disk|
         && value == Some(LastWritten(r.steps[..i], block, r.states[0].disk[block]))
       case _ => value == None
  }

  ghost predicate Delivers(c: Config, r: Run, values: seq<Option<Content>>)
    requires IsRun(c, r)
  {
    forall i | 0 <= i < |values| :: DeliversAt(c, r, i, values[i])
  }

  /** The system is in the state that the run has reached. */
  ghost predicate At(system: CacheSystem, r: Run, i: nat)
    reads system, system.disk, system.batch, system.heap
  {
    i < |r.states| && system.Matches() && system.model == r.states[i]
  }

  method PerformAt(system: CacheSystem, step: Step, ghost r: Run, ghost i: nat) returns (value: Option<Content>)
    requires IsRun(system.config, r) && i < |r.steps| && step == r.steps[i] && At(system, r, i)
    requires WritesFit(system.config, |r.states[0].disk|, r.states[0].blockSize)
    requires system.disk.Length == Start(|r.states[0].disk|, r.states[0].blockSize)
    modifies system, system.batch, system.heap, system.disk
    ensures At(system, r, i + 1) && DeliversAt(system.config, r, i, value)
    ensures old(system.heap) <= system.heap && fresh(system.heap[|old(system.heap)|..])
    ensures system.batch == old(system.batch) || fresh(system.batch)
  {
    RunKeepsInv(system.config, r, i);
    RunIsSized(system.config, r, i);
    NeverMisplaced(system.config, r, i);
    assert Follows(system.config, r, i);
    if step.EvictStep? {
      VictimIsInside(system.config, system.model, system.disk.Length);
    }
    if step.ReadStep? {
      ReadsLastWritten(system.config, r, i);
    }
    value := Perform(system, step);
  }

  /** Running the code along any run of the machine, from the bytes of a disk on which the single
      writes fit, every read delivers the last value written to its block, and the bytes of the disk
      are those of the machine. */
  method RunCache(config: Config, disk: array<Byte>, blockSize: nat, blocks: nat, steps: seq<Step>, ghost r: Run)
    returns (values: seq<Option<Content>>)
    requires disk.Length == blocks * blockSize == Start(blocks, blockSize) && WritesFit(config, blocks, blockSize)
    requires IsRun(config, r) && r.steps == steps
    requires r.states[0].blockSize == blockSize && r.states[0].disk == Split(disk[..], blockSize, blocks)
    modifies disk
    ensures |values| == |steps| && Delivers(config, r, values)
    ensures disk[..] == Join(r.states[|steps|].disk)
  {
    var system := new CacheSystem(config, disk, blockSize, blocks);
    values := [];
    for i := 0 to |steps|
      invariant At(system, r, i) && system.config == config && system.disk == disk
      invariant fresh(system) && fresh(system.batch) && forall k | 0 <= k < |system.heap| :: fresh(system.heap[k])
      invariant |values| == i && Delivers(config, r, values)
    {
      ghost var heap := system.heap;
      var value := PerformAt(system, steps[i], r, i);
      values := values + [value];
      forall k | 0 <= k < |system.heap|
        ensures fresh(system.heap[k])
      {
        assert system.heap[k] == if k < |heap| then heap[k] else system.heap[|heap|..][k - |heap|];
      }
    }
  }
}
