/** The policy orders over whole traces of accesses and deletes. */
module PolicyTraces {
  import opened Wrappers
  import opened PolicyOrder

  /** An access at a timestamp makes the buffer known if it was not; a delete forgets it. */
  datatype Op = AccessOp(id: nat, now: nat) | DeleteOp(id: nat)

  function Find(q: seq<Entry>, id: nat): (at: Option<nat>)
    ensures at.Some? ==> at.value < |q| && q[at.value].id == id
    ensures at.None? ==> forall i | 0 <= i < |q| :: q[i].id != id
  {
    if q == [] then None
    else if q[|q| - 1].id == id then Some(|q| - 1)
    else Find(q[..|q| - 1], id)
  }

  function Apply(kind: Kind, q: seq<Entry>, op: Op, time: nat): seq<Entry> {
    var at := Find(q, op.id);
    match op
    case AccessOp(id, now) =>
      if at.Some? then Access(kind, q, at.value, now, time) else Insert(kind, q, Entry(id, 0, 0, 0), now, time)
    case DeleteOp(_) =>
      if at.Some? then Without(q, at.value) else q
  }

  /** The deque after a trace; the number of an operation is its time. */
  function Run(kind: Kind, ops: seq<Op>): seq<Entry> {
    if ops == [] then [] else Apply(kind, Run(kind, ops[..|ops| - 1]), ops[|ops| - 1], |ops| - 1)
  }

  // ---------- Every entry once, in the past ----------

  ghost predicate Sound(q: seq<Entry>, time: nat) {
    DistinctIds(q) && InPast(q, time)
  }

  lemma ReinsertKeepsSound(rest: seq<Entry>, e: Entry, end: nat, time: nat)
    requires Sound(rest, time) && end <= |rest| && e.time <= time && forall i | 0 <= i < |rest| :: rest[i].id != e.id
    ensures Sound(Reinsert(rest, e, end), time + 1)
  {
  }

  lemma WithoutKeepsSound(q: seq<Entry>, at: nat, time: nat)
    requires Sound(q, time) && at < |q|
    ensures Sound(Without(q, at), time) && forall i | 0 <= i < |q| - 1 :: Without(q, at)[i].id != q[at].id
  {
    WithoutIsDistinct(q, at);
  }

  lemma ApplyKeepsSound(kind: Kind, q: seq<Entry>, op: Op, time: nat)
    requires Sound(q, time)
    ensures Sound(Apply(kind, q, op, time), time + 1)
  {
    var at := Find(q, op.id);
    if at.Some? {
      WithoutKeepsSound(q, at.value, time);
      if op.AccessOp? {
        var end := AccessReinserts(kind, q, at.value, op.now, time);
        ReinsertKeepsSound(Without(q, at.value), Touch(kind, q[at.value], op.now, time), end, time);
      }
    } else if op.AccessOp? {
      var end := InsertReinserts(kind, q, Entry(op.id, 0, 0, 0), op.now, time);
      ReinsertKeepsSound(q, Touch(kind, Entry(op.id, 0, 0, 0), op.now, time), end, time);
    }
  }

  lemma {:induction false} RunIsSound(kind: Kind, ops: seq<Op>)
    ensures Sound(Run(kind, ops), |ops|)
  {
    if ops != [] {
      RunIsSound(kind, ops[..|ops| - 1]);
      ApplyKeepsSound(kind, Run(kind, ops[..|ops| - 1]), ops[|ops| - 1], |ops| - 1);
    }
  }

  // ---------- LFU stays sorted ----------

  /** An access does not wrap the 32-bit count of a buffer. */
  ghost predicate CountFits(q: seq<Entry>, op: Op) {
    op.AccessOp? && Find(q, op.id).Some? ==> q[Find(q, op.id).value].count + 1 < WORD_RANGE
  }

  ghost predicate CountsFit(ops: seq<Op>) {
    forall i | 0 <= i < |ops| :: CountFits(Run(Lfu, ops[..i]), ops[i])
  }

  ghost predicate CountsInRange(q: seq<Entry>, limit: nat) {
    forall i | 0 <= i < |q| :: q[i].count <= limit
  }

  lemma ReinsertCounts(rest: seq<Entry>, e: Entry, end: nat, limit: nat)
    requires CountsInRange(rest, limit) && end <= |rest| && e.count <= limit
    ensures CountsInRange(Reinsert(rest, e, end), limit)
  {
  }

  lemma ApplyCounts(q: seq<Entry>, op: Op, time: nat, limit: nat)
    requires CountsInRange(q, limit)
    ensures CountsInRange(Apply(Lfu, q, op, time), if limit + 1 < WORD_RANGE then limit + 1 else limit)
  {
    var at := Find(q, op.id);
    var limit' := if limit + 1 < WORD_RANGE then limit + 1 else limit;
    if op.AccessOp? {
      if at.Some? {
        var end := AccessReinserts(Lfu, q, at.value, op.now, time);
        ReinsertCounts(Without(q, at.value), Touch(Lfu, q[at.value], op.now, time), end, limit');
      } else {
        var end := InsertReinserts(Lfu, q, Entry(op.id, 0, 0, 0), op.now, time);
        ReinsertCounts(q, Touch(Lfu, Entry(op.id, 0, 0, 0), op.now, time), end, limit');
      }
    }
  }

  lemma {:induction false} RunCounts(ops: seq<Op>)
    ensures CountsInRange(Run(Lfu, ops), if |ops| < WORD_RANGE then |ops| else WORD_RANGE - 1)
  {
    if ops != [] {
      var n := |ops| - 1;
      RunCounts(ops[..n]);
      ApplyCounts(Run(Lfu, ops[..n]), ops[n], n, if n < WORD_RANGE then n else WORD_RANGE - 1);
    }
  }

  /** A trace of fewer than 2^32 operations wraps no count. */
  lemma ShortTracesFit(ops: seq<Op>)
    requires |ops| < WORD_RANGE
    ensures CountsFit(ops)
  {
    forall i | 0 <= i < |ops|
      ensures CountFits(Run(Lfu, ops[..i]), ops[i])
    {
      RunCounts(ops[..i]);
    }
  }

  /** An access wraps no count, or finds nothing but zero counts before its buffer. */
  ghost predicate RankFits(q: seq<Entry>, op: Op) {
    op.AccessOp? && Find(q, op.id).Some? ==>
      var at := Find(q, op.id).value;
      q[at].count + 1 < WORD_RANGE || at == 0 || q[at - 1].count == 0
  }

  ghost predicate RanksFit(ops: seq<Op>) {
    forall i | 0 <= i < |ops| :: RankFits(Run(Lfu, ops[..i]), ops[i])
  }

  ghost predicate SortedAfter(ops: seq<Op>, n: nat)
    requires n <= |ops|
  {
    LfuSorted(Run(Lfu, ops[..n]))
  }

  lemma LfuStepIsSorted(q: seq<Entry>, op: Op, time: nat)
    requires Sound(q, time) && LfuSorted(q) && CountsInRange(q, WORD_RANGE - 1)
    ensures LfuSorted(Apply(Lfu, q, op, time)) <==> RankFits(q, op)
  {
    var at := Find(q, op.id);
    if op.DeleteOp? {
      if at.Some? {
        LfuDeleteSorted(q, at.value);
      }
    } else if at.Some? {
      LfuAccessSorted(q, at.value, op.now, time);
    } else {
      LfuInsertSorted(q, Entry(op.id, 0, 0, 0), op.now, time);
    }
  }

  /** The step of a trace after its first `n` operations. */
  lemma LfuTraceStep(ops: seq<Op>, n: nat)
    requires n < |ops| && SortedAfter(ops, n)
    ensures SortedAfter(ops, n + 1) <==> RankFits(Run(Lfu, ops[..n]), ops[n])
  {
    assert ops[..n + 1][..n] == ops[..n];
    RunIsSound(Lfu, ops[..n]);
    RunCounts(ops[..n]);
    LfuStepIsSorted(Run(Lfu, ops[..n]), ops[n], n);
  }

  lemma {:induction false} FittingRanksSort(ops: seq<Op>, n: nat)
    requires RanksFit(ops) && n <= |ops|
    ensures SortedAfter(ops, n)
  {
    if n == 0 {
    } else {
      FittingRanksSort(ops, n - 1);
      LfuTraceStep(ops, n - 1);
    }
  }

  /** The LFU deque is sorted by (access count, last access) all along a trace if and only if every access of it
      wraps no count or finds nothing but zero counts before its buffer. */
  lemma LfuRunIsSortedIff(ops: seq<Op>)
    ensures RanksFit(ops) <==> forall n | 0 <= n <= |ops| :: SortedAfter(ops, n)
  {
    if RanksFit(ops) {
      forall n | 0 <= n <= |ops|
        ensures SortedAfter(ops, n)
      {
        FittingRanksSort(ops, n);
      }
    }
    if forall n | 0 <= n <= |ops| :: SortedAfter(ops, n) {
      forall i | 0 <= i < |ops|
        ensures RankFits(Run(Lfu, ops[..i]), ops[i])
      {
        assert SortedAfter(ops, i) && SortedAfter(ops, i + 1);
        LfuTraceStep(ops, i);
      }
    }
  }

  /** After every trace that wraps no count, the LFU deque is sorted by (access count, last access). */
  lemma LfuRunIsSorted(ops: seq<Op>)
    requires CountsFit(ops)
    ensures LfuSorted(Run(Lfu, ops))
  {
    assert RanksFit(ops);
    FittingRanksSort(ops, |ops|);
    assert ops[..|ops|] == ops;
  }

  /** One access to buffer 0, then `n` accesses to buffer 1. */
  ghost function OneThenMany(n: nat): (ops: seq<Op>)
    ensures |ops| == n + 1
  {
    [AccessOp(0, 0)] + seq(n, _ => AccessOp(1, 0))
  }

  lemma OneThenManyStep(n: nat)
    ensures OneThenMany(n + 1)[..n + 1] == OneThenMany(n) && OneThenMany(n + 1)[n + 1] == AccessOp(1, 0)
  {
  }

  lemma SecondSeen()
    ensures Apply(Lfu, [Entry(0, 1, 0, 0)], AccessOp(1, 0), 1) == [Entry(0, 1, 0, 0), Entry(1, 1, 0, 1)]
  {
    var p, q := Entry(0, 1, 0, 0), Entry(1, 1, 0, 1);
    assert Find([p], 1) == None;
    assert Touch(Lfu, Entry(1, 0, 0, 0), 0, 1) == q;
    assert [q] + [p] == [q, p] && SwapNext([q, p], 0) == [p, q];
    assert Walk(Lfu, [p, q], 1) == [p, q];
    assert Walk(Lfu, [q, p], 0) == [p, q];
  }

  lemma SecondCounts(count: nat, time: nat)
    ensures Apply(Lfu, [Entry(0, 1, 0, 0), Entry(1, count, 0, time)], AccessOp(1, 0), time + 1) ==
            [Entry(0, 1, 0, 0), Entry(1, (count + 1) % WORD_RANGE, 0, time + 1)]
  {
    var p, q, q' := Entry(0, 1, 0, 0), Entry(1, count, 0, time), Entry(1, (count + 1) % WORD_RANGE, 0, time + 1);
    assert Find([p, q], 1) == Some(1);
    assert [p, q][1 := q'] == [p, q'];
  }

  /** The accesses are counted in 32 bits, and the buffer stays behind the other. */
  lemma {:induction false} CountsInWord(n: nat)
    requires 0 < n <= WORD_RANGE
    ensures Run(Lfu, OneThenMany(n)) == [Entry(0, 1, 0, 0), Entry(1, n % WORD_RANGE, 0, n)]
  {
    OneThenManyStep(n - 1);
    if n == 1 {
      assert OneThenMany(0) == [AccessOp(0, 0)] && OneThenMany(0)[..0] == [];
      assert Run(Lfu, OneThenMany(0)) == Apply(Lfu, [], AccessOp(0, 0), 0);
      assert [Entry(0, 1, 0, 0)] + [] == [Entry(0, 1, 0, 0)];
      SecondSeen();
    } else {
      CountsInWord(n - 1);
      SecondCounts(n - 1, n - 1);
    }
  }

  /** When the count of a buffer wraps, the deque no longer tells that it is the least used one: after one access to
      buffer 0 and 2^32 to buffer 1, the latter counts 0 and stays behind. */
  lemma LfuTraceFailsAcrossWrap()
    ensures Run(Lfu, OneThenMany(WORD_RANGE)) == [Entry(0, 1, 0, 0), Entry(1, 0, 0, WORD_RANGE)]
    ensures !LfuSorted(Run(Lfu, OneThenMany(WORD_RANGE)))
  {
    CountsInWord(WORD_RANGE);
    var q := Run(Lfu, OneThenMany(WORD_RANGE));
    assert !Before(q[0], q[1]);
  }

  // ---------- LRU and FIFO keep last-access order ----------

  /** No truncated timestamp behind the accessed buffer exceeds the truncated present. */
  ghost predicate StampFits(q: seq<Entry>, op: Op) {
    op.AccessOp? && Find(q, op.id).Some? ==>
      forall j | Find(q, op.id).value < j < |q| :: q[j].stamp % WORD_RANGE <= op.now % WORD_RANGE
  }

  ghost predicate StampsFit(ops: seq<Op>) {
    forall i | 0 <= i < |ops| :: StampFits(Run(Lru, ops[..i]), ops[i])
  }

  lemma {:induction false} FindInIds(p: seq<Entry>, q: seq<Entry>, id: nat)
    requires Ids(p) == Ids(q)
    ensures Find(p, id) == Find(q, id)
  {
    if p != [] {
      var n := |p| - 1;
      assert |Ids(p)| == |p| && |Ids(q)| == |q|;
      assert p[n].id == Ids(p)[n] && q[n].id == Ids(q)[n];
      assert Ids(p[..n]) == Ids(p)[..n] && Ids(q[..n]) == Ids(q)[..n];
      FindInIds(p[..n], q[..n], id);
    } else {
      assert |Ids(q)| == |q|;
    }
  }

  lemma IdsWithout(q: seq<Entry>, at: nat)
    requires at < |q|
    ensures |Ids(q)| == |q| && Ids(Without(q, at)) == Ids(q)[..at] + Ids(q)[at + 1..]
  {
  }

  /** A FIFO access or a delete does the same to the order of two deques with the same order. */
  lemma SameIdsApply(p: seq<Entry>, q: seq<Entry>, op: Op, time: nat)
    requires Ids(p) == Ids(q) && (op.AccessOp? ==> Find(p, op.id).Some?)
    ensures op.DeleteOp? ==> Ids(Apply(Lru, p, op, time)) == Ids(Apply(Fifo, q, op, time))
    ensures op.AccessOp? ==> Ids(Access(Fifo, p, Find(p, op.id).value, op.now, time)) == Ids(Apply(Fifo, q, op, time))
  {
    FindInIds(p, q, op.id);
    var at := Find(p, op.id);
    assert |Ids(p)| == |p| && |Ids(q)| == |q|;
    if at.Some? {
      IdsWithout(p, at.value);
      IdsWithout(q, at.value);
      if op.AccessOp? {
        assert Ids(Access(Fifo, p, at.value, op.now, time)) == Ids(Without(p, at.value)) + [op.id];
        assert Ids(Access(Fifo, q, at.value, op.now, time)) == Ids(Without(q, at.value)) + [op.id];
      }
    }
  }

  /** One step from the same order: LRU and FIFO agree if and only if the timestamps fit. */
  lemma LruStepIsFifoStep(p: seq<Entry>, q: seq<Entry>, op: Op, time: nat)
    requires Ids(p) == Ids(q) && DistinctIds(p)
    ensures Ids(Apply(Lru, p, op, time)) == Ids(Apply(Fifo, q, op, time)) <==> StampFits(p, op)
  {
    FindInIds(p, q, op.id);
    var at := Find(p, op.id);
    if op.AccessOp? && at.None? {
      assert Ids(Apply(Lru, p, op, time)) == Ids(p) + [op.id];
      assert Ids(Apply(Fifo, q, op, time)) == Ids(q) + [op.id];
    } else {
      SameIdsApply(p, q, op, time);
      if op.AccessOp? {
        LruAccessIsFifoAccess(p, at.value, op.now, time);
      }
    }
  }

  /** On every trace whose timestamps fit, the LRU deque and the FIFO deque hold the same order. */
  lemma {:induction false} LruRunIsFifoRun(ops: seq<Op>)
    requires StampsFit(ops)
    ensures Ids(Run(Lru, ops)) == Ids(Run(Fifo, ops))
  {
    if ops != [] {
      var n := |ops| - 1;
      forall i | 0 <= i < n
        ensures StampFits(Run(Lru, ops[..n][..i]), ops[..n][i])
      {
        assert ops[..n][..i] == ops[..i];
      }
      LruRunIsFifoRun(ops[..n]);
      RunIsSound(Lru, ops[..n]);
      assert StampFits(Run(Lru, ops[..n]), ops[n]);
      LruStepIsFifoStep(Run(Lru, ops[..n]), Run(Fifo, ops[..n]), ops[n], n);
    }
  }

  ghost predicate SameOrder(ops: seq<Op>, n: nat)
    requires n <= |ops|
  {
    Ids(Run(Lru, ops[..n])) == Ids(Run(Fifo, ops[..n]))
  }

  /** LRU and FIFO hold the same order all along a trace if and only if its timestamps fit. */
  lemma LruRunIsFifoRunIff(ops: seq<Op>)
    ensures StampsFit(ops) <==> forall n | 0 <= n <= |ops| :: SameOrder(ops, n)
  {
    if StampsFit(ops) {
      forall n | 0 <= n <= |ops|
        ensures SameOrder(ops, n)
      {
        StampsFitPrefix(ops, n);
        LruRunIsFifoRun(ops[..n]);
      }
    }
    if forall n | 0 <= n <= |ops| :: SameOrder(ops, n) {
      forall i | 0 <= i < |ops|
        ensures StampFits(Run(Lru, ops[..i]), ops[i])
      {
        assert SameOrder(ops, i) && SameOrder(ops, i + 1);
        assert ops[..i + 1][..i] == ops[..i];
        RunIsSound(Lru, ops[..i]);
        LruStepIsFifoStep(Run(Lru, ops[..i]), Run(Fifo, ops[..i]), ops[i], i);
      }
    }
  }

  lemma StampsFitPrefix(ops: seq<Op>, n: nat)
    requires StampsFit(ops) && n <= |ops|
    ensures StampsFit(ops[..n])
  {
    forall i | 0 <= i < n
      ensures StampFits(Run(Lru, ops[..n][..i]), ops[..n][i])
    {
      assert ops[..n][..i] == ops[..i];
    }
  }

  lemma FirstSeen(kind: Kind, q: seq<Entry>, op: Op, time: nat)
    requires kind != Lfu && op.AccessOp? && Find(q, op.id).None?
    ensures Apply(kind, q, op, time) == q + [Touch(kind, Entry(op.id, 0, 0, 0), op.now, time)]
  {
  }

  lemma RunOfThree(kind: Kind, ops: seq<Op>)
    requires |ops| == 3
    ensures Run(kind, ops) == Apply(kind, Apply(kind, Apply(kind, [], ops[0], 0), ops[1], 1), ops[2], 2)
  {
    assert ops[..2][..1] == ops[..1] && ops[..1][..0] == [];
    assert Run(kind, ops[..1]) == Apply(kind, [], ops[0], 0);
    assert Run(kind, ops[..2]) == Apply(kind, Run(kind, ops[..1]), ops[1], 1);
  }

  lemma FindFirst(p: Entry, q: Entry)
    requires p.id != q.id
    ensures Find([p, q], p.id) == Some(0)
  {
    assert [p, q][..1] == [p];
  }

  /** A trace across a wrap of the truncated clock: the buffer accessed last is first in line. */
  lemma LruTraceFailsAcrossWrap(ops: seq<Op>)
    requires ops == [AccessOp(0, 5), AccessOp(1, 0xFFFF_FFFF), AccessOp(0, 0x1_0000_0000)]
    ensures Ids(Run(Lru, ops)) == [0, 1] && Ids(Run(Fifo, ops)) == [1, 0] && !StampsFit(ops)
  {
    LruTrace(ops);
    FifoTrace(ops);
    assert ops[..3] == ops;
    LruRunIsFifoRunIff(ops);
    assert !SameOrder(ops, 3);
  }

  lemma LruTrace(ops: seq<Op>)
    requires ops == [AccessOp(0, 5), AccessOp(1, 0xFFFF_FFFF), AccessOp(0, 0x1_0000_0000)]
    ensures Ids(Run(Lru, ops)) == [0, 1]
  {
    RunOfThree(Lru, ops);
    var p, q := Entry(0, 0, 5, 0), Entry(1, 0, 0xFFFF_FFFF, 1);
    FirstSeen(Lru, [], ops[0], 0);
    assert [] + [p] == [p] && [p] + [q] == [p, q];
    FirstSeen(Lru, [p], ops[1], 1);
    FindFirst(p, q);
    LruFailsAcrossWrap();
  }

  lemma FifoTrace(ops: seq<Op>)
    requires ops == [AccessOp(0, 5), AccessOp(1, 0xFFFF_FFFF), AccessOp(0, 0x1_0000_0000)]
    ensures Ids(Run(Fifo, ops)) == [1, 0]
  {
    RunOfThree(Fifo, ops);
    var p, q := Entry(0, 0, 0, 0), Entry(1, 0, 0, 1);
    FirstSeen(Fifo, [], ops[0], 0);
    assert [] + [p] == [p] && [p] + [q] == [p, q];
    FirstSeen(Fifo, [p], ops[1], 1);
    FindFirst(p, q);
    assert Without([p, q], 0) == [q];
  }

  /** The timestamps of a trace never decrease and lie in one period of the truncated clock. */
  ghost predicate Timely(ops: seq<Op>, period: nat) {
    && (forall i | 0 <= i < |ops| && ops[i].AccessOp? :: ops[i].now / WORD_RANGE == period)
    && (forall i, j | 0 <= i < j < |ops| && ops[i].AccessOp? && ops[j].AccessOp? :: ops[i].now <= ops[j].now)
  }

  ghost predicate StampedBy(ops: seq<Op>, e: Entry) {
    exists i :: 0 <= i < |ops| && ops[i].AccessOp? && ops[i].now == e.stamp
  }

  lemma StampedByLonger(ops: seq<Op>, e: Entry)
    requires ops != [] && StampedBy(ops[..|ops| - 1], e)
    ensures StampedBy(ops, e)
  {
    var i :| 0 <= i < |ops| - 1 && ops[..|ops| - 1][i].AccessOp? && ops[..|ops| - 1][i].now == e.stamp;
    assert ops[i].now == e.stamp;
  }

  /** Every timestamp in the LRU deque is that of an access of the trace. */
  lemma {:induction false} StampsAreFromTrace(ops: seq<Op>, k: nat)
    requires k < |Run(Lru, ops)|
    ensures StampedBy(ops, Run(Lru, ops)[k])
  {
    var n := |ops| - 1;
    var q, op := Run(Lru, ops[..n]), ops[n];
    forall i | 0 <= i < |q|
      ensures StampedBy(ops, q[i])
    {
      StampsAreFromTrace(ops[..n], i);
      StampedByLonger(ops, q[i]);
    }
    var at := Find(q, op.id);
    if op.AccessOp? {
      var e := Touch(Lru, if at.Some? then q[at.value] else Entry(op.id, 0, 0, 0), op.now, n);
      assert ops[n].now == e.stamp;
      if at.Some? {
        var end := AccessReinserts(Lru, q, at.value, op.now, n);
      } else {
        var end := InsertReinserts(Lru, q, Entry(op.id, 0, 0, 0), op.now, n);
      }
    }
  }

  /** Timestamps that do not decrease and stay in one 32-bit period always fit. */
  lemma TimelyStampsFit(ops: seq<Op>, period: nat)
    requires Timely(ops, period)
    ensures StampsFit(ops)
  {
    forall i | 0 <= i < |ops|
      ensures StampFits(Run(Lru, ops[..i]), ops[i])
    {
      var q := Run(Lru, ops[..i]);
      if ops[i].AccessOp? {
        forall j: nat | j < |q|
          ensures q[j].stamp % WORD_RANGE <= ops[i].now % WORD_RANGE
        {
          StampsAreFromTrace(ops[..i], j);
          var k :| 0 <= k < i && ops[..i][k].AccessOp? && ops[..i][k].now == q[j].stamp;
          assert ops[k].now <= ops[i].now;
          SamePeriodKeepsOrder(q[j].stamp, ops[i].now);
        }
      }
    }
  }

  /** The number of the last access to a buffer that has not been deleted since. */
  function LastAccess(ops: seq<Op>, id: nat): Option<nat> {
    if ops == [] then None
    else if ops[|ops| - 1].id == id then if ops[|ops| - 1].AccessOp? then Some(|ops| - 1) else None
    else LastAccess(ops[..|ops| - 1], id)
  }

  lemma FindAfterRemoval(q: seq<Entry>, at: nat, id: nat)
    requires at < |q| && Find(q, id).Some? && id != q[at].id
    ensures Find(Without(q, at), id).Some?
  {
    var i := Find(q, id).value;
    assert Without(q, at)[if at < i then i - 1 else i].id == id;
  }

  /** What an operation leaves of the deque before it puts its own entry at the end. */
  function Rest(q: seq<Entry>, id: nat): seq<Entry> {
    if Find(q, id).Some? then Without(q, Find(q, id).value) else q
  }

  // ---------- What the entries tell about a trace ----------

  /** How often a buffer has been accessed since it was last deleted. */
  function Accesses(ops: seq<Op>, id: nat): (n: nat)
    ensures n <= |ops|
  {
    if ops == [] then 0
    else
      var before := Accesses(ops[..|ops| - 1], id);
      if ops[|ops| - 1].id != id then before else if ops[|ops| - 1].AccessOp? then before + 1 else 0
  }

  /** An entry has the time of the last access to its buffer and, under LFU, the number of accesses in 32 bits. */
  ghost predicate Tells(kind: Kind, ops: seq<Op>, e: Entry) {
    && LastAccess(ops, e.id) == Some(e.time)
    && (kind == Lfu ==> e.count == Accesses(ops, e.id) % 0x1_0000_0000)
  }

  ghost predicate EachTells(kind: Kind, ops: seq<Op>, q: seq<Entry>) {
    forall i | 0 <= i < |q| :: Tells(kind, ops, q[i])
  }

  /** Every buffer accessed and not deleted since has an entry. */
  ghost predicate AllLive(ops: seq<Op>, q: seq<Entry>) {
    forall id | LastAccess(ops, id).Some? :: Find(q, id).Some?
  }

  lemma {:induction false} NoAccessYet(ops: seq<Op>, id: nat)
    requires LastAccess(ops, id).None?
    ensures Accesses(ops, id) == 0
  {
    if ops != [] && ops[|ops| - 1].id != id {
      NoAccessYet(ops[..|ops| - 1], id);
    }
  }

  lemma OtherEntryTells(kind: Kind, ops: seq<Op>, e: Entry)
    requires ops != [] && ops[|ops| - 1].id != e.id && Tells(kind, ops[..|ops| - 1], e)
    ensures Tells(kind, ops, e)
  {
  }

  /** The entry that the last operation has accessed. */
  lemma TouchedEntryTells(kind: Kind, ops: seq<Op>, e: Entry)
    requires ops != [] && ops[|ops| - 1].AccessOp? && ops[|ops| - 1].id == e.id
    requires var before := ops[..|ops| - 1]; Tells(kind, before, e) || (LastAccess(before, e.id).None? && e.count == 0)
    ensures Tells(kind, ops, Touch(kind, e, ops[|ops| - 1].now, |ops| - 1))
  {
    var before := ops[..|ops| - 1];
    if LastAccess(before, e.id).None? {
      NoAccessYet(before, e.id);
    }
  }

  lemma ReinsertTells(kind: Kind, ops: seq<Op>, rest: seq<Entry>, e: Entry, end: nat)
    requires end <= |rest| && Tells(kind, ops, e) && EachTells(kind, ops, rest)
    ensures EachTells(kind, ops, Reinsert(rest, e, end))
  {
  }

  lemma ReinsertIsLive(ops: seq<Op>, rest: seq<Entry>, e: Entry, end: nat)
    requires end <= |rest| && forall id | id != e.id && LastAccess(ops, id).Some? :: Find(rest, id).Some?
    ensures AllLive(ops, Reinsert(rest, e, end))
  {
    var q := Reinsert(rest, e, end);
    forall id | LastAccess(ops, id).Some?
      ensures Find(q, id).Some?
    {
      if id == e.id {
        assert q[end].id == id;
      } else {
        var i := Find(rest, id).value;
        assert q[if i < end then i else i + 1].id == id;
      }
    }
  }

  /** What is left without the buffer of the last operation. */
  lemma RestTells(kind: Kind, ops: seq<Op>, q: seq<Entry>)
    requires ops != [] && DistinctIds(q) && EachTells(kind, ops[..|ops| - 1], q)
    ensures EachTells(kind, ops, Rest(q, ops[|ops| - 1].id))
  {
    var id := ops[|ops| - 1].id;
    var rest, at := Rest(q, id), Find(q, id);
    forall i | 0 <= i < |rest|
      ensures Tells(kind, ops, rest[i])
    {
      assert rest[i] == q[if at.Some? && i >= at.value then i + 1 else i];
      OtherEntryTells(kind, ops, rest[i]);
    }
  }

  lemma {:induction false} RestIsLive(ops: seq<Op>, q: seq<Entry>)
    requires ops != [] && AllLive(ops[..|ops| - 1], q)
    ensures forall id | id != ops[|ops| - 1].id && LastAccess(ops, id).Some? ::
              Find(Rest(q, ops[|ops| - 1].id), id).Some?
  {
    var at := Find(q, ops[|ops| - 1].id);
    forall id | id != ops[|ops| - 1].id && LastAccess(ops, id).Some?
      ensures Find(Rest(q, ops[|ops| - 1].id), id).Some?
    {
      if at.Some? {
        FindAfterRemoval(q, at.value, id);
      }
    }
  }

  /** An operation takes the entry of its buffer out and, if it is an access, puts a touched one in. */
  lemma ApplyReinserts(kind: Kind, q: seq<Entry>, op: Op, time: nat) returns (end: nat, e: Entry)
    ensures op.DeleteOp? ==> Apply(kind, q, op, time) == Rest(q, op.id)
    ensures op.AccessOp? ==> e == if Find(q, op.id).Some? then q[Find(q, op.id).value] else Entry(op.id, 0, 0, 0)
    ensures op.AccessOp? ==>
      && end <= |Rest(q, op.id)|
      && Apply(kind, q, op, time) == Reinsert(Rest(q, op.id), Touch(kind, e, op.now, time), end)
  {
    var at := Find(q, op.id);
    e := if at.Some? then q[at.value] else Entry(op.id, 0, 0, 0);
    end := 0;
    if op.AccessOp? {
      if at.Some? {
        end := AccessReinserts(kind, q, at.value, op.now, time);
      } else {
        end := InsertReinserts(kind, q, e, op.now, time);
      }
    }
  }

  lemma {:induction false} StepTells(kind: Kind, ops: seq<Op>, q: seq<Entry>)
    requires ops != [] && Sound(q, |ops| - 1) && EachTells(kind, ops[..|ops| - 1], q) && AllLive(ops[..|ops| - 1], q)
    ensures EachTells(kind, ops, Apply(kind, q, ops[|ops| - 1], |ops| - 1))
  {
    var n, op := |ops| - 1, ops[|ops| - 1];
    RestTells(kind, ops, q);
    var end, e := ApplyReinserts(kind, q, op, n);
    if op.AccessOp? {
      if Find(q, op.id).None? {
        assert LastAccess(ops[..n], op.id).None?;
      } else {
        assert Tells(kind, ops[..n], e);
      }
      TouchedEntryTells(kind, ops, e);
      ReinsertTells(kind, ops, Rest(q, op.id), Touch(kind, e, op.now, n), end);
    }
  }

  lemma {:induction false} StepIsLive(kind: Kind, ops: seq<Op>, q: seq<Entry>)
    requires ops != [] && AllLive(ops[..|ops| - 1], q)
    ensures AllLive(ops, Apply(kind, q, ops[|ops| - 1], |ops| - 1))
  {
    var n, op := |ops| - 1, ops[|ops| - 1];
    RestIsLive(ops, q);
    var end, e := ApplyReinserts(kind, q, op, n);
    if op.AccessOp? {
      ReinsertIsLive(ops, Rest(q, op.id), Touch(kind, e, op.now, n), end);
    }
  }

  /** On every trace and under every policy, the deque holds exactly the buffers accessed and not deleted since, each
      with the time of its last access and, under LFU, the number of its accesses in 32 bits. */
  lemma {:induction false} EntriesTellTrace(kind: Kind, ops: seq<Op>)
    ensures EachTells(kind, ops, Run(kind, ops)) && AllLive(ops, Run(kind, ops))
  {
    if ops != [] {
      var n := |ops| - 1;
      EntriesTellTrace(kind, ops[..n]);
      RunIsSound(kind, ops[..n]);
      StepTells(kind, ops, Run(kind, ops[..n]));
      StepIsLive(kind, ops, Run(kind, ops[..n]));
    }
  }

  lemma EntryIsExact(ops: seq<Op>, i: nat)
    requires |ops| < 0x1_0000_0000 && i < |Run(Lfu, ops)|
    ensures var e := Run(Lfu, ops)[i]; e.count == Accesses(ops, e.id) && LastAccess(ops, e.id) == Some(e.time)
  {
    EntriesTellTrace(Lfu, ops);
    assert Tells(Lfu, ops, Run(Lfu, ops)[i]);
  }

  /** On every trace of fewer than 2^32 operations the LFU victim has the fewest accesses since its last delete and, of
      those that have as few, the oldest last access. */
  lemma LfuVictimOfTrace(ops: seq<Op>, i: nat)
    requires |ops| < 0x1_0000_0000 && i < |Run(Lfu, ops)|
    ensures var q := Run(Lfu, ops);
      && Accesses(ops, q[0].id) <= Accesses(ops, q[i].id)
      && LastAccess(ops, q[0].id).Some? && LastAccess(ops, q[i].id).Some?
      && (Accesses(ops, q[0].id) == Accesses(ops, q[i].id) ==>
            LastAccess(ops, q[0].id).value <= LastAccess(ops, q[i].id).value)
  {
    ShortTracesFit(ops);
    LfuRunIsSorted(ops);
    LfuVictim(Run(Lfu, ops), i);
    EntryIsExact(ops, 0);
    EntryIsExact(ops, i);
  }

  // ---------- FIFO keeps last-access order ----------

  ghost predicate ByTime(q: seq<Entry>) {
    forall i, j | 0 <= i < j < |q| :: q[i].time < q[j].time
  }

  lemma FifoStepIsByTime(q: seq<Entry>, op: Op, time: nat)
    requires ByTime(q) && InPast(q, time)
    ensures ByTime(Apply(Fifo, q, op, time))
  {
    var rest := Rest(q, op.id);
    assert ByTime(rest) && InPast(rest, time);
  }

  lemma {:induction false} FifoRunIsByTime(ops: seq<Op>)
    ensures ByTime(Run(Fifo, ops))
  {
    if ops != [] {
      var n := |ops| - 1;
      FifoRunIsByTime(ops[..n]);
      RunIsSound(Fifo, ops[..n]);
      FifoStepIsByTime(Run(Fifo, ops[..n]), ops[n], n);
    }
  }

  ghost predicate InAccessOrder(q: seq<Entry>, ops: seq<Op>) {
    && (forall i, j | 0 <= i < j < |q| :: q[i].time < q[j].time)
    && (forall i | 0 <= i < |q| :: LastAccess(ops, q[i].id) == Some(q[i].time))
    && (forall id | LastAccess(ops, id).Some? :: Find(q, id).Some?)
  }

  /** FIFO, as coded, keeps last-access order: its deque holds exactly the buffers accessed and not
      deleted since, by increasing time of their last access. */
  lemma FifoRunIsAccessOrder(ops: seq<Op>)
    ensures InAccessOrder(Run(Fifo, ops), ops)
  {
    FifoRunIsByTime(ops);
    EntriesTellTrace(Fifo, ops);
    forall i | 0 <= i < |Run(Fifo, ops)|
      ensures LastAccess(ops, Run(Fifo, ops)[i].id) == Some(Run(Fifo, ops)[i].time)
    {
      assert Tells(Fifo, ops, Run(Fifo, ops)[i]);
    }
  }

  /** On every trace the FIFO victim is the buffer whose last access is the oldest. */
  lemma FifoVictimOfTrace(ops: seq<Op>, i: nat)
    requires i < |Run(Fifo, ops)|
    ensures var q := Run(Fifo, ops);
      && LastAccess(ops, q[0].id).Some? && LastAccess(ops, q[i].id).Some?
      && LastAccess(ops, q[0].id).value <= LastAccess(ops, q[i].id).value
  {
    FifoRunIsAccessOrder(ops);
  }
}
