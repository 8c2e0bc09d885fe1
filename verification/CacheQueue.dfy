/** What the queue and the pool keep count of along every run: each os_write makes one queue entry, each pick takes one,
    and the flushers are joined in the order of their launch. */
module CacheQueue {
  import opened CacheMachine
  import opened CacheInvariant
  import opened CacheTheorems

  // ---------- Entries ----------

  /** A write whose entry is not on the queue yet: its buffer waits for a victim, or is about to be queued. */
  ghost function Unqueued(s: State): nat
    requires AppInv(s)
  {
    match s.app
    case Idle => 0
    case Evicting(_, incoming) => if s.heap[incoming].dirty then 1 else 0
    case Enqueueing(_) => 1
  }

  function WritesIn(steps: seq<Step>): nat {
    if steps == [] then 0
    else WritesIn(steps[..|steps| - 1]) + if steps[|steps| - 1].WriteStep? then 1 else 0
  }

  function PicksIn(steps: seq<Step>): nat {
    if steps == [] then 0
    else PicksIn(steps[..|steps| - 1]) + if steps[|steps| - 1].PickStep? then 1 else 0
  }

  /** A flusher releases a cached buffer, not the one that waits for a victim. */
  lemma ReleaseSparesIncoming(c: Config, s: State, f: nat)
    requires Inv(c, s) && Enabled(c, s, ReleaseStep(f)) && s.app.Evicting?
    ensures s.running[f].bufs[s.running[f].next] != s.app.incoming
  {
    var id := s.running[f].bufs[s.running[f].next];
    assert FlusherOk(c, s, f) && BufferInv(s, id);
    assert s.running[f].bufs[s.running[f].next..][0] == id;
    assert id in Load(s.running[f], true);
    TotalIncludes(s.running, f, true, id);
  }

  lemma PickKeepsDirty(c: Config, s: State, id: nat)
    requires Enabled(c, s, PickStep(id))
    ensures var s' := PickNext(c, s, id);
      && s'.app == s.app && |s'.heap| == |s.heap| && |s'.queue| + 1 == |s.queue|
      && forall i | 0 <= i < |s.heap| :: s'.heap[i].dirty == s.heap[i].dirty
  {
  }

  /** A step from `s` to `s'` makes as many entries as it writes, and takes as many as it picks. */
  ghost predicate Conserves(s: State, s': State, step: Step)
    requires AppInv(s) && AppInv(s')
  {
    |s'.queue| + Unqueued(s') + (if step.PickStep? then 1 else 0)
    == |s.queue| + Unqueued(s) + if step.WriteStep? then 1 else 0
  }

  lemma AppStepConserves(c: Config, s: State, step: Step)
    requires Enabled(c, s, step) && AppInv(s) && AppInv(Next(c, s, step))
    requires step.ReadStep? || step.WriteStep? || step.EvictStep? || step.EnqueueStep?
    ensures Conserves(s, Next(c, s, step), step)
  {
  }

  lemma ReleaseConserves(c: Config, s: State, f: nat)
    requires Inv(c, s) && Enabled(c, s, ReleaseStep(f)) && AppInv(Next(c, s, ReleaseStep(f)))
    ensures Conserves(s, Next(c, s, ReleaseStep(f)), ReleaseStep(f))
  {
    if s.app.Evicting? {
      ReleaseSparesIncoming(c, s, f);
    }
  }

  lemma StepConserves(c: Config, s: State, step: Step)
    requires Enabled(c, s, step) && Inv(c, s) && AppInv(Next(c, s, step))
    ensures Conserves(s, Next(c, s, step), step)
  {
    match step
    case PickStep(id) => PickKeepsDirty(c, s, id);
    case ReleaseStep(f) => ReleaseConserves(c, s, f);
    case ReadStep(_, _) => AppStepConserves(c, s, step);
    case WriteStep(_, _, _) => AppStepConserves(c, s, step);
    case EvictStep(_) => AppStepConserves(c, s, step);
    case EnqueueStep => AppStepConserves(c, s, step);
    case _ =>
  }

  lemma AppStaysSound(c: Config, r: Run, n: nat)
    requires IsRun(c, r) && n < |r.states|
    ensures AppInv(r.states[n])
  {
    RunKeepsInv(c, r, n);
  }

  lemma FollowedConserves(c: Config, s: State, s': State, step: Step)
    requires Enabled(c, s, step) && s' == Next(c, s, step) && Inv(c, s) && AppInv(s')
    ensures Conserves(s, s', step)
  {
    StepConserves(c, s, step);
  }

  lemma RunConserves(c: Config, r: Run, n: nat)
    requires IsRun(c, r) && n < |r.steps|
    ensures AppInv(r.states[n]) && AppInv(r.states[n + 1])
    ensures Conserves(r.states[n], r.states[n + 1], r.steps[n])
  {
    AppStaysSound(c, r, n);
    AppStaysSound(c, r, n + 1);
    assert Conserves(r.states[n], r.states[n + 1], r.steps[n]) by {
      RunKeepsInv(c, r, n);
      assert Follows(c, r, n);
      FollowedConserves(c, r.states[n], r.states[n + 1], r.steps[n]);
    }
  }

  lemma CountsGrow(steps: seq<Step>, n: nat)
    requires n < |steps|
    ensures WritesIn(steps[..n + 1]) == WritesIn(steps[..n]) + if steps[n].WriteStep? then 1 else 0
    ensures PicksIn(steps[..n + 1]) == PicksIn(steps[..n]) + if steps[n].PickStep? then 1 else 0
  {
    assert steps[..n + 1][..n] == steps[..n];
  }

  /** In every run, the entries on the queue, the picks so far and the write that is not queued yet make up exactly the
      writes so far. */
  lemma {:induction false} EntriesAreConserved(c: Config, r: Run, n: nat)
    requires IsRun(c, r) && n < |r.states|
    ensures AppInv(r.states[n])
    ensures |r.states[n].queue| + PicksIn(r.steps[..n]) + Unqueued(r.states[n]) == WritesIn(r.steps[..n])
  {
    if n == 0 {
      RunKeepsInv(c, r, 0);
    } else {
      EntriesAreConserved(c, r, n - 1);
      RunConserves(c, r, n - 1);
      CountsGrow(r.steps, n - 1);
    }
  }

  // ---------- Flushers ----------

  function Batches(fs: seq<Flusher>): (b: seq<seq<nat>>)
    ensures |b| == |fs|
  {
    seq(|fs|, i requires 0 <= i < |fs| => fs[i].bufs)
  }

  /** The batches launched in the first `n` steps, in order. */
  ghost function Launched(r: Run, n: nat): seq<seq<nat>>
    requires |r.states| == |r.steps| + 1 && n <= |r.steps|
  {
    if n == 0 then [] else
      Launched(r, n - 1) + if |r.states[n].running| > |r.states[n - 1].running|
                           then [r.states[n].running[|r.states[n].running| - 1].bufs] else []
  }

  /** The joins that have taken a flusher. */
  ghost function Joins(r: Run, n: nat): nat
    requires |r.states| == |r.steps| + 1 && n <= |r.steps|
  {
    if n == 0 then 0 else
      Joins(r, n - 1) + if r.steps[n - 1].WaitStep? && |r.states[n - 1].running| > 0 then 1 else 0
  }

  /** What a step does to the batches of the flushers: one more at the end, one fewer at the front, or nothing. */
  ghost predicate InOrder(b: seq<seq<nat>>, b': seq<seq<nat>>, step: Step) {
    if step.WaitStep? && |b| > 0 then b' == b[1..]
    else b' == b || (|b'| == |b| + 1 && b' == b + [b'[|b|]])
  }

  lemma FlusherStepBatches(c: Config, s: State, step: Step)
    requires Enabled(c, s, step)
    requires step.LockStep? || step.CopyStep? || step.WriteOutStep? || step.ReleaseStep?
    ensures Batches(Next(c, s, step).running) == Batches(s.running)
  {
    assert Next(c, s, step).running == s.running[step.f := Next(c, s, step).running[step.f]];
  }

  lemma StepBatches(c: Config, s: State, step: Step)
    requires Enabled(c, s, step)
    ensures InOrder(Batches(s.running), Batches(Next(c, s, step).running), step)
  {
    if step.LockStep? || step.CopyStep? || step.WriteOutStep? || step.ReleaseStep? {
      FlusherStepBatches(c, s, step);
    } else if step.PickStep? {
      PickBatches(c, s, step.id);
    } else if step.IdleStep? {
      assert |s.batch| > 0 ==> IdleNext(s).running == s.running + [Flusher(s.batch, Locking, 0)];
    } else if step.WaitStep? {
      assert |s.running| > 0 ==> WaitNext(s).running == s.running[1..];
    } else {
      assert Next(c, s, step).running == s.running;
    }
  }

  lemma PickBatches(c: Config, s: State, id: nat)
    requires Enabled(c, s, PickStep(id))
    ensures InOrder(Batches(s.running), Batches(PickNext(c, s, id).running), PickStep(id))
  {
    if !Skipped(s.heap[id]) {
      TakeBatches(c, s.(queue := s.queue - multiset{id}), id);
    }
  }

  lemma TakeBatches(c: Config, s: State, id: nat)
    requires id < |s.heap| && s.permits > 0 && (|s.batch| > 0 ==> s.batch[|s.batch| - 1] < |s.heap|)
    ensures var fs, fs' := s.running, Take(c, s, id).running;
      fs' == fs || (|fs'| == |fs| + 1 && fs' == fs + [fs'[|fs|]])
  {
  }

  lemma OrderKept(launched: seq<seq<nat>>, joins: nat, b: seq<seq<nat>>, b': seq<seq<nat>>, step: Step)
    requires joins <= |launched| && b == launched[joins..] && InOrder(b, b', step)
    ensures var launched' := launched + if |b'| > |b| then [b'[|b'| - 1]] else [];
            var joins' := joins + if step.WaitStep? && |b| > 0 then 1 else 0;
            joins' <= |launched'| && b' == launched'[joins'..]
  {
  }

  /** In every run the flushers are joined in the order of their launch: those still running are the last launched. */
  lemma {:induction false} JoinedInOrder(c: Config, r: Run, n: nat)
    requires IsRun(c, r) && n <= |r.steps|
    ensures Joins(r, n) <= |Launched(r, n)| && Batches(r.states[n].running) == Launched(r, n)[Joins(r, n)..]
  {
    if n > 0 {
      JoinedInOrder(c, r, n - 1);
      assert Follows(c, r, n - 1);
      StepBatches(c, r.states[n - 1], r.steps[n - 1]);
      OrderKept(Launched(r, n - 1), Joins(r, n - 1), Batches(r.states[n - 1].running), Batches(r.states[n].running),
                r.steps[n - 1]);
    }
  }
}
