/** Where the 16 bits of a distance no longer suffice: the run in which the hash map loses an item, and the exact
    number of items up to which every run answers as a finite map. */
module HashWraps {
  import opened Wrappers
  import opened RobinHood
  import opened HashTable
  import opened TableMeaning
  import opened HashMapRuns

  // ---------- A chain of items that all hash to 0 ----------

  ghost predicate HashesToZero(hash: nat -> nat) {
    forall key: nat :: hash(key) == 0
  }

  /** The first `j` of `n` buckets hold the keys 0 to `j - 1`, each as far from home as its bucket. */
  ghost function Chain(j: nat, n: nat): (t: seq<Bucket<nat, nat>>)
    ensures |t| == n
  {
    seq(n, p requires 0 <= p => if p < j then Full(0, p + 1, Item(p, p)) else Empty)
  }

  /** An entry with a new key passes every bucket of the chain, counting in 16 bits. */
  lemma {:induction false} PassesChain(j: nat, n: nat, i: nat, left: nat)
    requires i <= j <= DIB_LIMIT && j < n && j - i < left
    ensures Place(Chain(j, n), Full(0, (i + 1) % DIB_RANGE, Item(j, j)), i, left, true) ==
            Placed(Chain(j, n)[j := Copied(Full(0, (j + 1) % DIB_RANGE, Item(j, j)))], None)
    decreases j - i
  {
    if i < j {
      assert NextDib((i + 1) % DIB_RANGE) == (i + 2) % DIB_RANGE;
      PassesChain(j, n, i + 1, left - 1);
    }
  }

  /** A set of the next key makes the chain longer, or, with 65535 keys in it, leaves it as it is. */
  lemma PutOnChain(j: nat, n: nat)
    requires j <= DIB_LIMIT && j < n
    ensures Place(Chain(j, n), Full(0, 1, Item(j, j)), 0, n, true) ==
            Placed(Chain(if j < DIB_LIMIT then j + 1 else j, n), None)
  {
    PassesChain(j, n, 0, n);
    var t := Chain(j, n)[j := Copied(Full(0, (j + 1) % DIB_RANGE, Item(j, j)))];
    assert t == Chain(if j < DIB_LIMIT then j + 1 else j, n);
  }

  lemma {:induction false} MissedOnChain(j: nat, n: nat, key: nat, i: nat, left: nat)
    requires i <= j <= key && j < n && j - i < left
    ensures Found(Chain(j, n), 0, key, i, left) == None
    decreases j - i
  {
    if i < j {
      MissedOnChain(j, n, key, i + 1, left - 1);
    }
  }

  // ---------- The run ----------

  /** Sets of the keys 0 to `j - 1`. */
  ghost function Sets(j: nat): (ops: seq<Op<nat, nat>>)
    ensures |ops| == j
  {
    seq(j, k requires 0 <= k => SetOp(Item(k, k), true))
  }

  lemma SetsStep(j: nat)
    ensures Sets(j + 1)[..j] == Sets(j) && Sets(j + 1)[j] == SetOp(Item(j, j), true)
  {
  }

  /** The number of buckets the map is made with, enough for the run not to resize. */
  ghost predicate Roomy(n: nat) {
    Based(n) && DIB_RANGE < GrowAt(n)
  }

  lemma SetOnChain(n: nat, j: nat)
    requires Roomy(n) && j <= DIB_LIMIT
    ensures SetRaw(Raw(Chain(j, n), j), 0, Item(j, j), true) ==
            Done(Raw(Chain(if j < DIB_LIMIT then j + 1 else j, n), j + 1), None, false)
  {
    PutOnChain(j, n);
  }

  /** One more set in the run, on the table that the run has left. */
  lemma SetsThenSet(n: nat, hash: nat -> nat, j: nat, t: seq<Bucket<nat, nat>>)
    requires Based(n) && HashesToZero(hash) && TableAfter(n, hash, Sets(j)) == Raw(t, j)
    ensures TableAfter(n, hash, Sets(j + 1)) == SetRaw(Raw(t, j), 0, Item(j, j), true).raw
  {
    SetsStep(j);
  }

  lemma {:induction false} ChainAfterSets(n: nat, hash: nat -> nat, j: nat)
    requires Roomy(n) && HashesToZero(hash) && j <= DIB_LIMIT
    ensures TableAfter(n, hash, Sets(j)) == Raw(Chain(j, n), j)
  {
    if j == 0 {
      assert Chain(0, n) == Blank(n);
    } else {
      ChainAfterSets(n, hash, j - 1);
      SetsThenSet(n, hash, j - 1, Chain(j - 1, n));
      SetOnChain(n, j - 1);
    }
  }

  /** After 65536 sets the count is 65536, but the last item is not in the table. */
  lemma LastItemIsLost(n: nat, hash: nat -> nat)
    requires Roomy(n) && HashesToZero(hash)
    ensures TableAfter(n, hash, Sets(DIB_RANGE)) == Raw(Chain(DIB_LIMIT, n), DIB_RANGE)
  {
    ChainAfterSets(n, hash, DIB_LIMIT);
    SetsThenSet(n, hash, DIB_LIMIT, Chain(DIB_LIMIT, n));
    SetOnChain(n, DIB_LIMIT);
  }

  lemma {:induction false} SetsAtMost(n: nat, j: nat)
    ensures |Replay(n, Sets(j)).contents| <= j
  {
    if j > 0 {
      var key: nat := j - 1;
      SetsStep(key);
      SetsAtMost(n, key);
      var m := Replay(n, Sets(key)).contents;
      assert m[key := key].Keys == m.Keys + {key};
    }
  }

  /** The sets, and then a get of the last key. */
  ghost function LosingRun(): (ops: seq<Op<nat, nat>>) {
    Sets(0x1_0000) + [GetOp(0xffff)]
  }

  lemma LosingRunAtMost(n: nat)
    ensures AtMost(n, LosingRun(), DIB_RANGE)
  {
    var ops := LosingRun();
    forall i | 0 <= i <= |ops|
      ensures SmallAfter(n, ops, i, DIB_RANGE)
    {
      if i < |ops| {
        assert ops[..i] == Sets(i);
        SetsAtMost(n, i);
      } else {
        assert ops[..i] == ops && ops[..DIB_RANGE] == Sets(DIB_RANGE);
        SetsAtMost(n, DIB_RANGE);
      }
    }
  }

  /** The get answers with nothing, although its key has been set and nothing has been deleted. */
  lemma GetMissesLast(n: nat, hash: nat -> nat)
    requires Roomy(n) && HashesToZero(hash)
    ensures Given(n, hash, Sets(DIB_RANGE), GetOp(DIB_LIMIT)) == Out(None, false)
    ensures Answer(Replay(n, Sets(DIB_RANGE)), GetOp(DIB_LIMIT)) == Out(Some(Item(DIB_LIMIT, DIB_LIMIT)), false)
  {
    LastItemIsLost(n, hash);
    MissedOnChain(DIB_LIMIT, n, DIB_LIMIT, 0, n);
    SetsStep(DIB_LIMIT);
  }

  lemma LosingRunSteps()
    ensures LosingRun()[..DIB_RANGE] == Sets(DIB_RANGE) && LosingRun()[DIB_RANGE] == GetOp(DIB_LIMIT)
  {
  }

  /** Executed on a map of any such size, the losing run ends with no answer, which no finite map explains. */
  lemma LosingRunLoses(n: nat, hash: nat -> nat, outs: seq<Out<nat, nat>>)
    requires Roomy(n) && HashesToZero(hash) && Executed(n, hash, LosingRun(), outs)
    ensures outs[0x1_0000] == Out(None, false)
    ensures !Explained(n, LosingRun(), outs)
  {
    LosingRunSteps();
    GetMissesLast(n, hash);
    assert ExecutedAt(n, hash, LosingRun(), outs, DIB_RANGE);
    assert !ExplainedAt(n, LosingRun(), outs, DIB_RANGE);
  }

  // ---------- The exact bound ----------

  ghost predicate AsMapAt<K, V>(base: nat, hash: K -> nat, ops: seq<Op<K, V>>, i: nat)
    requires Based(base) && i < |ops|
  {
    Given(base, hash, ops[..i], ops[i]) == Answer(Replay(base, ops[..i]), ops[i])
  }

  /** The table gives all along the run what a finite map would answer. */
  ghost predicate AsMap<K, V>(base: nat, hash: K -> nat, ops: seq<Op<K, V>>)
    requires Based(base)
  {
    forall i | 0 <= i < |ops| :: AsMapAt(base, hash, ops, i)
  }

  /** For every size, every hash function and every run that stores at most `n` items at a time. */
  ghost predicate AlwaysAsMap<K(!new), V(!new)>(n: nat) {
    forall base: nat, hash: K -> nat, ops: seq<Op<K, V>> | Based(base) && AtMost(base, ops, n) ::
      AsMap(base, hash, ops)
  }

  lemma AtMostMore<K, V>(base: nat, ops: seq<Op<K, V>>, n: nat, n': nat)
    requires AtMost(base, ops, n) && n <= n'
    ensures AtMost(base, ops, n')
  {
    forall i | 0 <= i <= |ops|
      ensures SmallAfter(base, ops, i, n')
    {
      assert SmallAfter(base, ops, i, n);
    }
  }

  lemma SmallRunsAsMap<K(!new), V(!new)>(n: nat)
    requires n < DIB_RANGE
    ensures AlwaysAsMap<K, V>(n)
  {
    forall base: nat, hash: K -> nat, ops: seq<Op<K, V>> | Based(base) && AtMost(base, ops, n)
      ensures AsMap(base, hash, ops)
    {
      AtMostMore(base, ops, n, DIB_LIMIT);
      forall i | 0 <= i < |ops|
        ensures AsMapAt(base, hash, ops, i)
      {
        SmallRunGives(base, hash, ops, i);
      }
    }
  }

  lemma LosingRunIsNotMap(n: nat, hash: nat -> nat)
    requires Roomy(n) && HashesToZero(hash)
    ensures !AsMap(n, hash, LosingRun())
  {
    LosingRunSteps();
    GetMissesLast(n, hash);
    assert !AsMapAt(n, hash, LosingRun(), DIB_RANGE);
  }

  /** The hash map answers as a finite map in every run of at most `n` items, however they are hashed, exactly when
      `n` fits the 16 bits of a distance. */
  lemma AlwaysAsMapIff(n: nat)
    ensures AlwaysAsMap<nat, nat>(n) <==> n < 0x1_0000
  {
    if n < DIB_RANGE {
      SmallRunsAsMap<nat, nat>(n);
    } else {
      var base := RoomyBase();
      var zero: nat -> nat := _ => 0;
      LosingRunAtMost(base);
      AtMostMore(base, LosingRun(), DIB_RANGE, n);
      LosingRunIsNotMap(base, zero);
    }
  }

  lemma RoomyBase() returns (n: nat)
    ensures Roomy(n)
  {
    n := MINIMUM_CAPACITY;
    while GrowAt(n) <= DIB_RANGE
      invariant Based(n)
      decreases DIB_RANGE - GrowAt(n)
    {
      DoublingFits(n);
      n := n * 2;
    }
  }
}
