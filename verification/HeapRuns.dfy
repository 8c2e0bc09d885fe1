/** Whole runs of pushes and pops on the heap, in any order, from the empty heap on. */
module HeapRuns {
  import opened HeapOrder

  datatype Op = PushOp(value: QueueUnit) | PopOp

  /** The heap after an operation; a pop of the empty heap changes nothing. */
  function Apply(v: seq<QueueUnit>, op: Op): seq<QueueUnit> {
    match op
    case PushOp(value) => Push(v, value)
    case PopOp => Pop(v)
  }

  function After(ops: seq<Op>): seq<QueueUnit> {
    if ops == [] then [] else Apply(After(ops[..|ops| - 1]), ops[|ops| - 1])
  }

  // ---------- Order ----------

  /** A caller can tell before this operation of the run that it will leave the heap out of order. */
  ghost predicate Breaks(ops: seq<Op>, i: nat)
    requires i < |ops|
  {
    ops[i].PopOp? && PopBreaksOrder(After(ops[..i]))
  }

  ghost predicate OrderedAfter(ops: seq<Op>, n: nat)
    requires n <= |ops|
  {
    Ordered(After(ops[..n]))
  }

  lemma StepKeepsOrder(ops: seq<Op>, n: nat)
    requires n < |ops| && OrderedAfter(ops, n)
    ensures OrderedAfter(ops, n + 1) <==> !Breaks(ops, n)
  {
    var v := After(ops[..n]);
    assert ops[..n + 1][..n] == ops[..n];
    match ops[n]
    case PushOp(value) => PushKeepsOrder(v, value);
    case PopOp => PopKeepsOrderIff(v);
  }

  lemma {:induction false} UnbrokenIsOrdered(ops: seq<Op>, n: nat)
    requires n <= |ops| && forall i | 0 <= i < n :: !Breaks(ops, i)
    ensures OrderedAfter(ops, n)
  {
    if n == 0 {
      assert ops[..0] == [];
    } else {
      UnbrokenIsOrdered(ops, n - 1);
      StepKeepsOrder(ops, n - 1);
    }
  }

  /** The heap is ordered all along a run if and only if no pop of it meets a heap of the shape that breaks. */
  lemma RunIsOrderedIff(ops: seq<Op>)
    ensures (forall i | 0 <= i < |ops| :: !Breaks(ops, i)) <==> forall n | 0 <= n <= |ops| :: OrderedAfter(ops, n)
  {
    if forall i | 0 <= i < |ops| :: !Breaks(ops, i) {
      forall n | 0 <= n <= |ops|
        ensures OrderedAfter(ops, n)
      {
        UnbrokenIsOrdered(ops, n);
      }
    }
    if forall n | 0 <= n <= |ops| :: OrderedAfter(ops, n) {
      forall i | 0 <= i < |ops|
        ensures !Breaks(ops, i)
      {
        assert OrderedAfter(ops, i) && OrderedAfter(ops, i + 1);
        StepKeepsOrder(ops, i);
      }
    }
  }

  /** Up to the first such pop, and with it, every pop delivers a least value of those in the heap. */
  lemma PopDeliversLeast(ops: seq<Op>, i: nat, k: nat)
    requires i < |ops| && ops[i].PopOp? && forall j | 0 <= j < i :: !Breaks(ops, j)
    requires 1 <= k <= |After(ops[..i])|
    ensures Le(After(ops[..i])[0], At(After(ops[..i]), k))
  {
    UnbrokenIsOrdered(ops, i);
    FrontIsLeast(After(ops[..i]), k);
  }

  // ---------- Values ----------

  function Pushed(ops: seq<Op>): multiset<QueueUnit> {
    if ops == [] then multiset{}
    else
      var last := ops[|ops| - 1];
      Pushed(ops[..|ops| - 1]) + if last.PushOp? then multiset{last.value} else multiset{}
  }

  /** What the pops of a run take out, each the front of its heap. */
  function Popped(ops: seq<Op>): multiset<QueueUnit> {
    if ops == [] then multiset{}
    else
      var v := After(ops[..|ops| - 1]);
      Popped(ops[..|ops| - 1]) + if ops[|ops| - 1].PopOp? && v != [] then multiset{v[0]} else multiset{}
  }

  /** No run loses or invents a value, whether or not its order breaks. */
  lemma {:induction false} RunLosesNothing(ops: seq<Op>)
    ensures Popped(ops) + multiset(After(ops)) == Pushed(ops)
  {
    if ops == [] {
    } else {
      var n := |ops| - 1;
      var v := After(ops[..n]);
      RunLosesNothing(ops[..n]);
      match ops[n]
      case PushOp(value) => PushKeepsOrder(v, value);
      case PopOp =>
        if v != [] {
          PopRemovesFront(v);
          assert v[0] in multiset(v);
        }
    }
  }
}
