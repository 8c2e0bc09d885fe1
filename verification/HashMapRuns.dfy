/** Whole runs of the hash map: sets, gets and deletes in any order, with growth, refused growth and shrinking
    in between, answer as a finite map does while at most 65535 items are stored. */
module HashMapRuns {
  import opened Wrappers
  import opened RobinHood
  import opened HashTable
  import opened TableMeaning
  import opened HashMap

  /** `allocOk` says whether the allocator would grant the memory of a resize during the operation. */
  datatype Op<K, V> = SetOp(item: Item<K, V>, allocOk: bool) | GetOp(key: K) | DeleteOp(key: K, allocOk: bool)
  datatype Out<K, V> = Out(answer: Option<Item<K, V>>, oom: bool)

  /** A finite map, with the number of buckets that decides when memory is asked for. */
  datatype Model<K, V> = Model(contents: map<K, V>, nbuckets: nat)

  function OpKey<K, V>(op: Op<K, V>): K {
    if op.SetOp? then op.item.key else op.key
  }

  predicate Refused<K(==), V>(m: Model<K, V>, op: Op<K, V>) {
    op.SetOp? && !op.allocOk && 10 * (|m.contents| + 1) > 6 * m.nbuckets
  }

  /** What an operation answers: lack of memory when growth is due and refused, otherwise what was
      stored under the key just before. */
  function Answer<K, V>(m: Model<K, V>, op: Op<K, V>): Out<K, V> {
    if Refused(m, op) then Out(None, true) else Out(Lookup(m.contents, OpKey(op)), false)
  }

  /** The map and its size after one operation, for a map made with `base` buckets. */
  function Apply<K, V>(base: nat, m: Model<K, V>, op: Op<K, V>): Model<K, V> {
    match op
    case SetOp(item, allocOk) =>
      if Refused(m, op) then m
      else Model(m.contents[item.key := item.value],
                 if 10 * (|m.contents| + 1) > 6 * m.nbuckets then 2 * m.nbuckets else m.nbuckets)
    case GetOp(_) => m
    case DeleteOp(key, allocOk) =>
      var rest := m.contents - {key};
      var shrinks := key in m.contents && m.nbuckets > base && 10 * |rest| <= m.nbuckets && allocOk;
      Model(rest, if shrinks then m.nbuckets / 2 else m.nbuckets)
  }

  function Replay<K, V>(base: nat, ops: seq<Op<K, V>>): Model<K, V> {
    if ops == [] then Model(map[], base) else Apply(base, Replay(base, ops[..|ops| - 1]), ops[|ops| - 1])
  }

  ghost predicate SmallAfter<K, V>(base: nat, ops: seq<Op<K, V>>, i: nat, n: nat)
    requires i <= |ops|
  {
    |Replay(base, ops[..i]).contents| <= n
  }

  /** The finite map holds at most `n` items before and after every operation of the run. */
  ghost predicate AtMost<K, V>(base: nat, ops: seq<Op<K, V>>, n: nat) {
    forall i | 0 <= i <= |ops| :: SmallAfter(base, ops, i, n)
  }

  ghost predicate ExplainedAt<K, V>(base: nat, ops: seq<Op<K, V>>, outs: seq<Out<K, V>>, i: nat)
    requires i < |ops| == |outs|
  {
    outs[i] == Answer(Replay(base, ops[..i]), ops[i])
  }

  /** Every answer of a run is determined by the operations before it. */
  ghost predicate Explained<K, V>(base: nat, ops: seq<Op<K, V>>, outs: seq<Out<K, V>>) {
    |ops| == |outs| && forall i | 0 <= i < |ops| :: ExplainedAt(base, ops, outs, i)
  }

  // ---------- The same on the bucket table ----------

  ghost predicate Based(base: nat) {
    PowerOfTwo(base) && MINIMUM_CAPACITY <= base
  }

  function Do<K(==), V>(base: nat, hash: K -> nat, r: Raw<K, V>, op: Op<K, V>): Done<K, V>
    requires |r.buckets| > 1
  {
    match op
    case SetOp(item, allocOk) => SetRaw(r, hash(item.key), item, allocOk)
    case GetOp(key) => Done(r, GetRaw(r, hash(key), key), false)
    case DeleteOp(key, allocOk) => DeleteRaw(r, base, hash(key), key, allocOk)
  }

  function OutOf<K, V>(done: Done<K, V>): Out<K, V> {
    Out(done.answer, done.oom)
  }

  lemma DoIsSane<K, V>(base: nat, hash: K -> nat, r: Raw<K, V>, op: Op<K, V>)
    requires Sane(r, base)
    ensures Sane(Do(base, hash, r, op).raw, base)
  {
    match op
    case SetOp(item, allocOk) => SetIsSane(r, base, hash(item.key), item, allocOk);
    case GetOp(_) =>
    case DeleteOp(key, allocOk) => DeleteIsSane(r, base, hash(key), key, allocOk);
  }

  /** The table after a run, whatever is stored and however it is hashed. */
  ghost function TableAfter<K, V>(base: nat, hash: K -> nat, ops: seq<Op<K, V>>): (r: Raw<K, V>)
    requires Based(base)
    ensures Sane(r, base)
  {
    if ops == [] then
      assert Occupied<K, V>(Blank(base)) == {};
      Raw(Blank(base), 0)
    else
      var r := TableAfter(base, hash, ops[..|ops| - 1]);
      DoIsSane(base, hash, r, ops[|ops| - 1]);
      Do(base, hash, r, ops[|ops| - 1]).raw
  }

  ghost function Given<K, V>(base: nat, hash: K -> nat, ops: seq<Op<K, V>>, op: Op<K, V>): Out<K, V>
    requires Based(base)
  {
    OutOf(Do(base, hash, TableAfter(base, hash, ops), op))
  }

  ghost predicate ExecutedAt<K, V>(base: nat, hash: K -> nat, ops: seq<Op<K, V>>, outs: seq<Out<K, V>>, i: nat)
    requires Based(base) && i < |ops| == |outs|
  {
    outs[i] == Given(base, hash, ops[..i], ops[i])
  }

  /** The answers are those the table gives. */
  ghost predicate Executed<K, V>(base: nat, hash: K -> nat, ops: seq<Op<K, V>>, outs: seq<Out<K, V>>) {
    Based(base) && |ops| == |outs| && forall i | 0 <= i < |ops| :: ExecutedAt(base, hash, ops, outs, i)
  }

  method Perform<K(==), V>(hashmap: RobinHoodMap<K, V>, op: Op<K, V>) returns (out: Out<K, V>)
    requires hashmap.Sound()
    modifies hashmap, hashmap.buckets
    ensures hashmap.Sound() && (hashmap.buckets == old(hashmap.buckets) || fresh(hashmap.buckets))
    ensures var done := Do(hashmap.cap, hashmap.getHash, old(hashmap.State()), op);
            hashmap.State() == done.raw && out == OutOf(done)
  {
    match op
    case SetOp(item, allocOk) =>
      var answer := hashmap.Set(item, allocOk);
      out := Out(answer, hashmap.oom);
    case GetOp(key) =>
      var answer := hashmap.Get(key);
      out := Out(answer, false);
    case DeleteOp(key, allocOk) =>
      var answer := hashmap.Delete(key, allocOk);
      out := Out(answer, false);
  }

  /** Every run on a new hash map gives the answers of the table, and those of a finite map and a bucket count
      as long as no more than 65535 items are stored. */
  method Run<K(==), V>(cap: nat, hashOf: K -> nat, ops: seq<Op<K, V>>) returns (outs: seq<Out<K, V>>, base: nat)
    ensures RoundedTo(cap, base) && Executed(base, Clipped(hashOf), ops, outs)
    ensures AtMost(base, ops, DIB_LIMIT) ==> Explained(base, ops, outs)
  {
    var hashmap := new RobinHoodMap(cap, hashOf);
    base := hashmap.cap;
    outs := [];
    for i := 0 to |ops|
      invariant fresh(hashmap) && fresh(hashmap.buckets) && hashmap.Sound()
      invariant hashmap.State() == TableAfter(base, Clipped(hashOf), ops[..i])
      invariant Executed(base, Clipped(hashOf), ops[..i], outs)
    {
      var out := Perform(hashmap, ops[i]);
      ExecutedStep(base, Clipped(hashOf), ops[..i], outs, ops[i]);
      assert ops[..i + 1] == ops[..i] + [ops[i]];
      outs := outs + [out];
    }
    assert ops[..|ops|] == ops;
    if AtMost(base, ops, DIB_LIMIT) {
      SmallRunIsExplained(base, Clipped(hashOf), ops, outs);
    }
  }

  lemma ExecutedStep<K, V>(base: nat, hash: K -> nat, ops: seq<Op<K, V>>, outs: seq<Out<K, V>>, op: Op<K, V>)
    requires Executed(base, hash, ops, outs)
    ensures Executed(base, hash, ops + [op], outs + [Given(base, hash, ops, op)])
    ensures TableAfter(base, hash, ops + [op]) == Do(base, hash, TableAfter(base, hash, ops), op).raw
  {
    var ops', outs' := ops + [op], outs + [Given(base, hash, ops, op)];
    assert ops'[..|ops|] == ops;
    forall i | 0 <= i < |ops'|
      ensures ExecutedAt(base, hash, ops', outs', i)
    {
      assert i < |ops| ==> ExecutedAt(base, hash, ops, outs, i) && ops'[..i] == ops[..i];
    }
  }

  // ---------- The load of every run ----------

  /** However items are hashed and whether memory is granted or not, at most six tenths of the table are in use. A set
      doubles it exactly when one more item would use more, and when refused reports lack of memory exactly then. */
  lemma SetSizesTable<K, V>(base: nat, hash: K -> nat, ops: seq<Op<K, V>>, op: Op<K, V>)
    requires Based(base) && op.SetOp?
    ensures var r, r' := TableAfter(base, hash, ops), TableAfter(base, hash, ops + [op]);
      && 10 * r.count <= 6 * |r.buckets|
      && (Given(base, hash, ops, op).oom <==> 10 * (r.count + 1) > 6 * |r.buckets| && !op.allocOk)
      && |r'.buckets| == if 10 * (r.count + 1) > 6 * |r.buckets| && op.allocOk then 2 * |r.buckets| else |r.buckets|
  {
    assert (ops + [op])[..|ops|] == ops;
    var r := TableAfter(base, hash, ops);
    GrowthDueIff(r.count, |r.buckets|);
  }

  predicate Granted<K, V>(op: Op<K, V>) {
    op.GetOp? || op.allocOk
  }

  /** With memory granted, between a tenth and six tenths of the table are in use, or it has its base size. */
  lemma {:induction false} RunIsLoaded<K, V>(base: nat, hash: K -> nat, ops: seq<Op<K, V>>)
    requires Based(base) && forall i | 0 <= i < |ops| :: Granted(ops[i])
    ensures var r := TableAfter(base, hash, ops);
      10 * r.count <= 6 * |r.buckets| && (|r.buckets| == base || 10 * r.count > |r.buckets|)
  {
    if ops == [] {
    } else {
      var n := |ops| - 1;
      var r := TableAfter(base, hash, ops[..n]);
      RunIsLoaded(base, hash, ops[..n]);
      assert Granted(ops[n]);
      match ops[n]
      case SetOp(item, _) => SetIsLoaded(r, base, hash(item.key), item);
      case GetOp(_) =>
      case DeleteOp(key, _) => DeleteIsLoaded(r, base, hash(key), key);
    }
  }

  // ---------- Small runs ----------

  ghost predicate Represents<K, V>(r: Raw<K, V>, base: nat, hash: K -> nat, m: Model<K, V>) {
    Sane(r, base) && Means(r, hash, m.contents) && |r.buckets| == m.nbuckets
  }

  lemma DoIsApply<K, V>(base: nat, hash: K -> nat, r: Raw<K, V>, m: Model<K, V>, op: Op<K, V>)
    requires Represents(r, base, hash, m) && |Apply(base, m, op).contents| <= DIB_LIMIT
    ensures Represents(Do(base, hash, r, op).raw, base, hash, Apply(base, m, op))
    ensures OutOf(Do(base, hash, r, op)) == Answer(m, op)
  {
    DoIsSane(base, hash, r, op);
    match op
    case SetOp(item, allocOk) =>
      if !Refused(m, op) {
        SetMeans(r, base, hash, m.contents, item, allocOk);
      }
    case GetOp(key) => GetMeans(r, hash, m.contents, key);
    case DeleteOp(key, allocOk) => DeleteMeans(r, base, hash, m.contents, key, allocOk);
  }

  lemma {:induction false} SmallRunRepresents<K, V>(base: nat, hash: K -> nat, ops: seq<Op<K, V>>)
    requires Based(base) && AtMost(base, ops, DIB_LIMIT)
    ensures Represents(TableAfter(base, hash, ops), base, hash, Replay(base, ops))
  {
    if ops == [] {
      EmptyTable<K, V>(Blank(base), hash);
    } else {
      var n := |ops| - 1;
      AtMostPrefix(base, ops, DIB_LIMIT, n);
      SmallRunRepresents(base, hash, ops[..n]);
      assert SmallAfter(base, ops, |ops|, DIB_LIMIT) && ops[..|ops|] == ops;
      DoIsApply(base, hash, TableAfter(base, hash, ops[..n]), Replay(base, ops[..n]), ops[n]);
    }
  }

  lemma AtMostPrefix<K, V>(base: nat, ops: seq<Op<K, V>>, n: nat, k: nat)
    requires AtMost(base, ops, n) && k <= |ops|
    ensures AtMost(base, ops[..k], n)
  {
    forall i | 0 <= i <= k
      ensures SmallAfter(base, ops[..k], i, n)
    {
      assert SmallAfter(base, ops, i, n) && ops[..k][..i] == ops[..i];
    }
  }

  /** While a run stores at most 65535 items, the table gives the answers of the finite map. */
  lemma SmallRunGives<K, V>(base: nat, hash: K -> nat, ops: seq<Op<K, V>>, i: nat)
    requires Based(base) && AtMost(base, ops, DIB_LIMIT) && i < |ops|
    ensures Given(base, hash, ops[..i], ops[i]) == Answer(Replay(base, ops[..i]), ops[i])
  {
    AtMostPrefix(base, ops, DIB_LIMIT, i);
    SmallRunRepresents(base, hash, ops[..i]);
    assert SmallAfter(base, ops, i + 1, DIB_LIMIT) && ops[..i + 1][..i] == ops[..i];
    DoIsApply(base, hash, TableAfter(base, hash, ops[..i]), Replay(base, ops[..i]), ops[i]);
  }

  lemma SmallRunIsExplained<K, V>(base: nat, hash: K -> nat, ops: seq<Op<K, V>>, outs: seq<Out<K, V>>)
    requires Executed(base, hash, ops, outs) && AtMost(base, ops, DIB_LIMIT)
    ensures Explained(base, ops, outs)
  {
    forall i | 0 <= i < |ops|
      ensures ExplainedAt(base, ops, outs, i)
    {
      assert ExecutedAt(base, hash, ops, outs, i);
      SmallRunGives(base, hash, ops, i);
    }
  }

  // ---------- What the finite map says ----------

  lemma ExplainedPrefix<K, V>(base: nat, ops: seq<Op<K, V>>, outs: seq<Out<K, V>>, n: nat)
    requires Explained(base, ops, outs) && n <= |ops|
    ensures Explained(base, ops[..n], outs[..n])
  {
    forall i | 0 <= i < n
      ensures ExplainedAt(base, ops[..n], outs[..n], i)
    {
      assert ExplainedAt(base, ops, outs, i) && ops[..n][..i] == ops[..i];
    }
  }

  /** Position `i` is the last operation that stored or removed `key`. */
  ghost predicate LastChange<K, V>(ops: seq<Op<K, V>>, outs: seq<Out<K, V>>, key: K, i: nat)
    requires |ops| == |outs|
  {
    && i < |ops| && Changes(ops[i], outs[i], key)
    && forall j | i < j < |ops| :: !Changes(ops[j], outs[j], key)
  }

  predicate Changes<K(==), V>(op: Op<K, V>, out: Out<K, V>, key: K) {
    OpKey(op) == key && !op.GetOp? && !out.oom
  }

  lemma LastChangeStays<K, V>(ops: seq<Op<K, V>>, outs: seq<Out<K, V>>, key: K, last: Option<nat>)
    requires |ops| == |outs| > 0 && !Changes(ops[|ops| - 1], outs[|ops| - 1], key)
    requires var ops', outs' := ops[..|ops| - 1], outs[..|ops| - 1];
             if last.Some? then LastChange(ops', outs', key, last.value)
             else forall i | 0 <= i < |ops'| :: !Changes(ops'[i], outs'[i], key)
    ensures last.Some? ==> LastChange(ops, outs, key, last.value)
    ensures last.None? ==> forall i | 0 <= i < |ops| :: !Changes(ops[i], outs[i], key)
  {
    forall i | 0 <= i < |ops| - 1
      ensures Changes(ops[i], outs[i], key) == Changes(ops[..|ops| - 1][i], outs[..|ops| - 1][i], key)
    {
    }
  }

  /** The map of a run holds for a key exactly the item of the last change to it, if that was a set. */
  lemma {:induction false} ReplayIsLastChange<K, V>(base: nat, ops: seq<Op<K, V>>, outs: seq<Out<K, V>>, key: K)
    returns (last: Option<nat>)
    requires Explained(base, ops, outs)
    ensures last.None? ==> key !in Replay(base, ops).contents
    ensures last.None? ==> forall i | 0 <= i < |ops| :: !Changes(ops[i], outs[i], key)
    ensures last.Some? ==> LastChange(ops, outs, key, last.value)
    ensures last.Some? ==> Lookup(Replay(base, ops).contents, key) ==
                           if ops[last.value].SetOp? then Some(ops[last.value].item) else None
  {
    if ops == [] {
      last := None;
    } else {
      var n := |ops| - 1;
      assert ExplainedAt(base, ops, outs, n);
      ExplainedPrefix(base, ops, outs, n);
      last := ReplayIsLastChange(base, ops[..n], outs[..n], key);
      if Changes(ops[n], outs[n], key) {
        last := Some(n);
      } else {
        LastChangeStays(ops, outs, key, last);
      }
    }
  }

  /** In every run of at most 65535 items, a get answers with the item last set under its key and not deleted
      since. */
  lemma GetAnswersLastSet<K, V>(base: nat, hash: K -> nat, ops: seq<Op<K, V>>, outs: seq<Out<K, V>>, at: nat)
    requires Executed(base, hash, ops, outs) && AtMost(base, ops, DIB_LIMIT) && at < |ops| && ops[at].GetOp?
    ensures outs[at].answer.Some? <==>
              exists i: nat :: LastChange(ops[..at], outs[..at], ops[at].key, i) && ops[i].SetOp?
    ensures forall i: nat | LastChange(ops[..at], outs[..at], ops[at].key, i) && ops[i].SetOp? ::
              outs[at].answer == Some(ops[i].item)
  {
    SmallRunIsExplained(base, hash, ops, outs);
    assert ExplainedAt(base, ops, outs, at);
    ExplainedPrefix(base, ops, outs, at);
    var last := ReplayIsLastChange(base, ops[..at], outs[..at], ops[at].key);
    forall i: nat | LastChange(ops[..at], outs[..at], ops[at].key, i)
      ensures last == Some(i)
    {
    }
  }
}
