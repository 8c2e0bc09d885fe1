/** A waiting application thread is never kept waiting: the background threads run dry after a bounded
    number of steps, and then it can go on. */
module CacheLiveness {
  import opened CacheMachine
  import opened CacheInvariant
  import opened CacheAppPreservation
  import opened CacheTheorems
  import opened CacheProgress

  /** The step that the application thread would take next can be taken: the eviction in some order,
      or an overwrite of any cached block. */
  ghost predicate CanGoOn(c: Config, s: State) {
    && (s.app.Evicting? ==> exists order :: Enabled(c, s, EvictStep(order)))
    && (s.app == Idle ==> forall block, data | block in s.cache && |data| == s.blockSize ::
          Enabled(c, s, WriteStep(block, data, s.policy)))
  }

  // ---------- What a dry background leaves the application ----------

  lemma PolicyHasOnce(s: State, id: nat) returns (at: nat)
    requires BufferInv(s, id) && Cached(s, id)
    ensures at < |s.policy| && s.policy[at] == id
    ensures id !in s.policy[..at] && id !in s.policy[at + 1..]
  {
    assert id in multiset(s.policy);
    at :| 0 <= at < |s.policy| && s.policy[at] == id;
    assert s.policy == s.policy[..at] + [id] + s.policy[at + 1..];
  }

  /** Taking the victim out of the policy order and appending the new buffer is a legal eviction. */
  lemma EvictionCanGoOn(c: Config, s: State) returns (order: seq<nat>)
    requires c.Valid() && c.threads > 0 && Inv(c, s) && Quiescent(c, s) && s.app.Evicting?
    ensures Enabled(c, s, EvictStep(order))
  {
    var victim, incoming := s.app.victim, s.app.incoming;
    assert BufferInv(s, victim) && BufferInv(s, incoming);
    var at := PolicyHasOnce(s, victim);
    order := s.policy[..at] + s.policy[at + 1..] + [incoming];
    assert s.policy == s.policy[..at] + [victim] + s.policy[at + 1..];
    assert multiset(order) == multiset(s.policy)[victim := 0][incoming := 1];
    QuiescentUnblocks(c, s, victim);
  }

  lemma WriteCanGoOn(c: Config, s: State, block: nat, data: Content)
    requires c.Valid() && c.threads > 0 && Inv(c, s) && Quiescent(c, s) && s.app == Idle
    requires block in s.cache && |data| == s.blockSize
    ensures Enabled(c, s, WriteStep(block, data, s.policy))
  {
    assert Mapped(s, block) && BufferInv(s, s.cache[block]);
    QuiescentUnblocks(c, s, s.cache[block]);
  }

  lemma QuiescentCanGoOn(c: Config, s: State)
    requires c.Valid() && c.threads > 0 && Inv(c, s) && Quiescent(c, s)
    ensures CanGoOn(c, s)
  {
    if s.app.Evicting? {
      var order := EvictionCanGoOn(c, s);
    }
    if s.app == Idle {
      forall block, data | block in s.cache && |data| == s.blockSize
        ensures Enabled(c, s, WriteStep(block, data, s.policy))
      {
        WriteCanGoOn(c, s, block, data);
      }
    }
  }

  /** Without work no background step changes anything. */
  lemma ExhaustedIsQuiescent(c: Config, s: State)
    requires Inv(c, s) && Work(s) == 0
    ensures Quiescent(c, s)
  {
    forall step | Enabled(c, s, step) && !AppStep(step)
      ensures Next(c, s, step) == s
    {
      BackgroundWorks(c, s, step);
    }
  }

  // ---------- Every way of running the background ----------

  lemma BackgroundKeepsApp(c: Config, s: State, step: Step)
    requires Enabled(c, s, step) && !AppStep(step)
    ensures Next(c, s, step).app == s.app && Next(c, s, step).cache == s.cache
  {
    match step
    case PickStep(id) =>
      if !Skipped(s.heap[id]) {
        TakeKeepsApp(c, s.(queue := s.queue - multiset{id}), id);
      }
    case IdleStep =>
    case WaitStep =>
    case LockStep(f) => assert Next(c, s, step) == LockNext(s, f);
    case CopyStep(f) => assert Next(c, s, step) == CopyNext(s, f);
    case WriteOutStep(f) => assert Next(c, s, step) == WriteOutNext(s, f);
    case ReleaseStep(f) => assert Next(c, s, step) == ReleaseNext(s, f);
  }

  lemma TakeKeepsApp(c: Config, s: State, id: nat)
    requires id < |s.heap| && s.permits > 0
    requires |s.batch| > 0 ==> s.batch[|s.batch| - 1] < |s.heap|
    ensures Take(c, s, id).app == s.app && Take(c, s, id).cache == s.cache
  {
  }

  /** The background steps between two states of a run, each changing something. */
  ghost predicate BackgroundRuns(c: Config, r: Run, start: nat, end: nat)
    requires IsRun(c, r)
  {
    && start <= end < |r.states|
    && forall i | start <= i < end :: !AppStep(r.steps[i]) && r.states[i + 1] != r.states[i]
  }

  lemma {:induction false} RunningKeepsApp(c: Config, r: Run, start: nat, end: nat)
    requires IsRun(c, r) && BackgroundRuns(c, r, start, end)
    ensures r.states[end].app == r.states[start].app && r.states[end].cache == r.states[start].cache
    decreases end
  {
    if start < end {
      RunningKeepsApp(c, r, start, end - 1);
      assert Follows(c, r, end - 1);
      BackgroundKeepsApp(c, r.states[end - 1], r.steps[end - 1]);
    }
  }

  /** Whatever the background threads do while the application waits, they do at most as many
      effective steps as there was work; when these are done, or none is left sooner, the application
      can go on with the very step it waits for. */
  lemma WaitingIsBounded(c: Config, r: Run, start: nat, end: nat)
    requires IsRun(c, r) && c.threads > 0 && BackgroundRuns(c, r, start, end)
    ensures end - start <= Work(r.states[start])
    ensures r.states[end].app == r.states[start].app && r.states[end].cache == r.states[start].cache
    ensures end - start == Work(r.states[start]) || Quiescent(c, r.states[end]) ==> CanGoOn(c, r.states[end])
  {
    RunKeepsInv(c, r, end);
    DrainIsBounded(c, r, start, end);
    RunningKeepsApp(c, r, start, end);
    if end - start == Work(r.states[start]) {
      ExhaustedIsQuiescent(c, r.states[end]);
    }
    if Quiescent(c, r.states[end]) {
      QuiescentCanGoOn(c, r.states[end]);
    }
  }

  // ---------- A way that exists ----------

  ghost predicate Leads(c: Config, s: State, steps: seq<Step>, s': State)
    decreases |steps|
  {
    if steps == [] then s' == s else
      && Enabled(c, s, steps[0]) && !AppStep(steps[0])
      && Leads(c, Next(c, s, steps[0]), steps[1..], s')
  }

  /** From every reachable state some background steps, no more than there is work, let the
      application go on. */
  lemma {:induction false} BackgroundReleases(c: Config, s: State) returns (steps: seq<Step>, s': State)
    requires c.Valid() && c.threads > 0 && Inv(c, s)
    ensures |steps| <= Work(s) && Leads(c, s, steps, s')
    ensures Inv(c, s') && s'.app == s.app && s'.cache == s.cache && CanGoOn(c, s')
    decreases Work(s)
  {
    if Quiescent(c, s) {
      QuiescentCanGoOn(c, s);
      steps, s' := [], s;
    } else {
      var step :| Enabled(c, s, step) && !AppStep(step) && Next(c, s, step) != s;
      BackgroundWorks(c, s, step);
      NextKeeps(c, s, step);
      BackgroundKeepsApp(c, s, step);
      var rest: seq<Step>;
      rest, s' := BackgroundReleases(c, Next(c, s, step));
      steps := [step] + rest;
      assert steps[1..] == rest;
    }
  }
}
