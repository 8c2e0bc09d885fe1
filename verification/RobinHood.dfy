/** The bucket table of shared/hashmap.c as a sequence: cyclic positions, the Robin Hood
    invariant, what a table stores, and the three moves an insertion can make. */
module RobinHood {

  datatype Item<+K, +V> = Item(key: K, value: V)

  /** A bucket whose `dib` field is 0 is Empty; `dib` is the distance to the home bucket plus one. */
  datatype Bucket<+K, +V> = Empty | Full(hash: nat, dib: nat, item: Item<K, V>)

  function Dib<K, V>(bucket: Bucket<K, V>): nat {
    if bucket.Full? then bucket.dib else 0
  }

  // ---------- Cyclic positions ----------

  function Home(hash: nat, n: nat): (home: nat)
    requires 0 < n
    ensures home < n
  {
    hash % n
  }

  function Next(i: nat, n: nat): (j: nat)
    requires i < n
    ensures j < n
  {
    if i + 1 == n then 0 else i + 1
  }

  function Prev(i: nat, n: nat): (j: nat)
    requires i < n
    ensures j < n && Next(j, n) == i
  {
    if i == 0 then n - 1 else i - 1
  }

  /** How many steps of Next lead from `from` to `to`. */
  function Dist(from: nat, to: nat, n: nat): (d: nat)
    requires from < n && to < n
    ensures d < n
  {
    if from <= to then to - from else to + n - from
  }

  /** `i` lies on the way from `from` to `to`. */
  ghost predicate Between(from: nat, i: nat, to: nat, n: nat)
    requires from < n && i < n && to < n
  {
    Dist(from, i, n) + Dist(i, to, n) == Dist(from, to, n)
  }

  /** Stepping with Next is the masked increment of the source. */
  lemma NextIsMaskedIncrement(i: nat, n: nat)
    requires i < n
    ensures Next(i, n) == (i + 1) % n
  {
    if i + 1 < n {
      assert (i + 1) % n == i + 1;
    }
  }

  /** The set of the `d` positions that end at `i`. */
  ghost function Arc(i: nat, d: nat, n: nat): set<nat>
    requires i < n
  {
    set x | 0 <= x < n && Dist(x, i, n) < d
  }

  lemma {:induction false} ArcSize(i: nat, d: nat, n: nat)
    requires i < n && d <= n
    ensures |Arc(i, d, n)| == d
    decreases d
  {
    if d == 0 {
      assert Arc(i, d, n) == {};
    } else {
      var p := Prev(i, n);
      ArcSize(p, d - 1, n);
      forall x | 0 <= x < n
        ensures x in Arc(i, d, n) <==> x == i || x in Arc(p, d - 1, n)
      {
        if x != i {
          assert Dist(x, i, n) == Dist(x, p, n) + 1;
        }
      }
      assert Arc(i, d, n) == Arc(p, d - 1, n) + {i};
      assert Dist(i, p, n) == n - 1;
    }
  }

  // ---------- The Robin Hood invariant ----------

  ghost predicate Settled<K, V>(b: seq<Bucket<K, V>>, i: nat)
    requires i < |b|
  {
    b[i].Full? ==> b[i].dib == Dist(Home(b[i].hash, |b|), i, |b|) + 1
  }

  ghost predicate Gradual<K, V>(b: seq<Bucket<K, V>>, i: nat)
    requires i < |b|
  {
    Dib(b[Next(i, |b|)]) <= Dib(b[i]) + 1
  }

  ghost predicate Ordered<K, V>(b: seq<Bucket<K, V>>) {
    && |b| > 0
    && (forall i | 0 <= i < |b| :: Settled(b, i))
    && (forall i | 0 <= i < |b| :: Gradual(b, i))
  }

  ghost function Occupied<K, V>(b: seq<Bucket<K, V>>): set<nat> {
    set i | 0 <= i < |b| && b[i].Full?
  }

  /** Walking back from bucket `j`, `dib` drops by at most one per step. */
  lemma {:induction false} BackChain<K, V>(b: seq<Bucket<K, V>>, i: nat, j: nat)
    requires Ordered(b) && i < |b| && j < |b|
    ensures Dib(b[j]) <= Dib(b[i]) + Dist(i, j, |b|)
    decreases Dist(i, j, |b|)
  {
    if i != j {
      var p := Prev(j, |b|);
      assert Dist(i, j, |b|) == Dist(i, p, |b|) + 1;
      BackChain(b, i, p);
      assert Gradual(b, p);
    }
  }

  /** From its home to where it stands, every bucket on the way of a stored item is full. */
  lemma WayIsFull<K, V>(b: seq<Bucket<K, V>>, x: nat, j: nat)
    requires Ordered(b) && x < |b| && j < |b|
    requires b[j].Full? && Dist(x, j, |b|) < b[j].dib
    ensures b[x].Full?
  {
    BackChain(b, x, j);
  }

  /** `dib` never exceeds the number of stored items, so below 65536 items its 16-bit field
      cannot overflow. */
  lemma DibAtMostCount<K, V>(b: seq<Bucket<K, V>>, j: nat)
    requires Ordered(b) && j < |b| && b[j].Full?
    ensures 1 <= b[j].dib <= |Occupied(b)|
  {
    assert Settled(b, j);
    var arc := Arc(j, b[j].dib, |b|);
    ArcSize(j, b[j].dib, |b|);
    forall x | x in arc
      ensures x in Occupied(b)
    {
      WayIsFull(b, x, j);
    }
    SubsetSize(arc, Occupied(b));
  }

  lemma SubsetSize<T>(a: set<T>, b: set<T>)
    requires a <= b
    ensures |a| <= |b|
  {
    assert |b - a| == |b| - |a|;
  }

  /** A table with fewer items than buckets has an empty bucket, which ends every probe. */
  lemma EmptyBucketExists<K, V>(b: seq<Bucket<K, V>>) returns (free: nat)
    requires |Occupied(b)| < |b|
    ensures free < |b| && b[free].Empty?
  {
    if forall i | 0 <= i < |b| :: b[i].Full? {
      ArcSize(0, |b|, |b|);
      assert Arc(0, |b|, |b|) <= Occupied(b);
      SubsetSize(Arc(0, |b|, |b|), Occupied(b));
      assert false;
    }
    free :| 0 <= free < |b| && b[free].Empty?;
  }

  // ---------- What a table stores ----------

  ghost predicate Holds<K, V>(b: seq<Bucket<K, V>>, i: nat, key: K) {
    i < |b| && b[i].Full? && b[i].item.key == key
  }

  ghost predicate DistinctKeys<K, V>(b: seq<Bucket<K, V>>) {
    forall i, j | 0 <= i < |b| && 0 <= j < |b| && b[j].Full? && Holds(b, i, b[j].item.key) :: i == j
  }

  ghost predicate ItemsFrom<K, V>(b: seq<Bucket<K, V>>, hashOf: K -> nat, m: map<K, V>) {
    forall i | 0 <= i < |b| && b[i].Full? ::
      && b[i].item.key in m
      && m[b[i].item.key] == b[i].item.value
      && b[i].hash == hashOf(b[i].item.key)
  }

  /** The table holds exactly the items of `m`, one bucket for each key. */
  ghost predicate Stores<K, V>(b: seq<Bucket<K, V>>, hashOf: K -> nat, m: map<K, V>) {
    && DistinctKeys(b)
    && ItemsFrom(b, hashOf, m)
    && (forall key | key in m :: exists i :: Holds(b, i, key))
  }

  /** The table together with one item carried outside it holds exactly the items of `m`. */
  ghost predicate StoresWith<K, V>(b: seq<Bucket<K, V>>, carried: Item<K, V>, hashOf: K -> nat, m: map<K, V>) {
    && DistinctKeys(b)
    && ItemsFrom(b, hashOf, m)
    && carried.key in m && m[carried.key] == carried.value
    && (forall i | 0 <= i < |b| :: !Holds(b, i, carried.key))
    && (forall key | key in m && key != carried.key :: exists i :: Holds(b, i, key))
  }

  ghost predicate Table<K, V>(b: seq<Bucket<K, V>>, hashOf: K -> nat, m: map<K, V>) {
    Ordered(b) && Stores(b, hashOf, m)
  }

  /** A stored key is found before the first empty bucket, at a `dib` that counts the probes. */
  lemma ProbeReachesKey<K, V>(b: seq<Bucket<K, V>>, hashOf: K -> nat, m: map<K, V>, key: K, i: nat, j: nat)
    requires Table(b, hashOf, m) && i < |b| && Holds(b, j, key)
    requires Between(Home(hashOf(key), |b|), i, j, |b|)
    ensures b[i].Full?
    ensures Dib(b[i]) > Dist(Home(hashOf(key), |b|), i, |b|)
  {
    assert Settled(b, j);
    BackChain(b, i, j);
  }

  /** When a probe for `key` has passed every bucket before `i` without a match and bucket `i`
      is empty or nearer to its home than the probe, the key is nowhere in the table: a present
      key is met before any displacement. */
  lemma KeyAbsent<K, V>(b: seq<Bucket<K, V>>, hashOf: K -> nat, m: map<K, V>, key: K, i: nat)
    requires Table(b, hashOf, m) && i < |b|
    requires forall x | 0 <= x < |b| && Dist(Home(hashOf(key), |b|), x, |b|) < Dist(Home(hashOf(key), |b|), i, |b|) ::
               !Holds(b, x, key)
    requires Dib(b[i]) < Dist(Home(hashOf(key), |b|), i, |b|) + 1
    ensures forall j :: !Holds(b, j, key)
    ensures key !in m
  {
    forall j
      ensures !Holds(b, j, key)
    {
      if Holds(b, j, key) {
        var home := Home(hashOf(key), |b|);
        assert Dist(home, j, |b|) >= Dist(home, i, |b|);
        assert Between(home, i, j, |b|);
        ProbeReachesKey(b, hashOf, m, key, i, j);
      }
    }
  }

  // ---------- The moves of an insertion ----------

  /** `entry` is carried past an ordered table and stands at bucket `i`, on the way from its
      home to the empty bucket `free`. */
  ghost predicate Riding<K, V>(b: seq<Bucket<K, V>>, entry: Bucket<K, V>, i: nat, free: nat) {
    && Ordered(b) && i < |b| && free < |b| && b[free].Empty?
    && entry.Full?
    && entry.dib == Dist(Home(entry.hash, |b|), i, |b|) + 1
    && entry.dib <= Dib(b[Prev(i, |b|)]) + 1
    && Between(Home(entry.hash, |b|), i, free, |b|)
  }

  lemma StartRiding<K, V>(b: seq<Bucket<K, V>>, entry: Bucket<K, V>, free: nat)
    requires Ordered(b) && free < |b| && b[free].Empty?
    requires entry.Full? && entry.dib == 1
    ensures Riding(b, entry, Home(entry.hash, |b|), free)
  {
  }

  /** Writing a riding entry no nearer to its home than the old content keeps the order. */
  lemma PutKeepsOrder<K, V>(b: seq<Bucket<K, V>>, entry: Bucket<K, V>, i: nat, free: nat)
    requires Riding(b, entry, i, free)
    requires Dib(b[i]) <= entry.dib
    ensures Ordered(b[i := entry])
  {
    var b' := b[i := entry];
    forall x | 0 <= x < |b'|
      ensures Settled(b', x) && Gradual(b', x)
    {
      assert Settled(b, x) && Gradual(b, x);
      if Next(x, |b|) == i {
        assert x == Prev(i, |b|);
      }
    }
  }

  /** The bucket at `i` is full and the entry rides on, or swaps with it and the old content rides on. */
  lemma RideOn<K, V>(b: seq<Bucket<K, V>>, entry: Bucket<K, V>, i: nat, free: nat)
    requires Riding(b, entry, i, free) && b[i].Full?
    ensures Dist(Next(i, |b|), free, |b|) < Dist(i, free, |b|)
    ensures entry.dib <= b[i].dib ==> Riding(b, entry.(dib := entry.dib + 1), Next(i, |b|), free)
    ensures b[i].dib < entry.dib ==> Riding(b[i := entry], b[i].(dib := b[i].dib + 1), Next(i, |b|), free)
  {
    assert i != free;
    assert Settled(b, i);
    if b[i].dib < entry.dib {
      PutKeepsOrder(b, entry, i, free);
      var home := Home(b[i].hash, |b|);
      if Dist(free, i, |b|) < b[i].dib {
        WayIsFull(b, free, i);
      }
      assert Between(home, i, free, |b|);
    }
  }

  /** A riding entry has passed only full buckets, so its `dib` is at most the count plus one. */
  lemma RidingDibAtMostCount<K, V>(b: seq<Bucket<K, V>>, entry: Bucket<K, V>, i: nat, free: nat)
    requires Riding(b, entry, i, free)
    ensures entry.dib <= |Occupied(b)| + 1
  {
    var p := Prev(i, |b|);
    if b[p].Full? {
      DibAtMostCount(b, p);
    }
  }

  lemma PutStores<K, V>(b: seq<Bucket<K, V>>, entry: Bucket<K, V>, i: nat, hashOf: K -> nat, m: map<K, V>)
    requires i < |b| && entry.Full? && entry.hash == hashOf(entry.item.key)
    requires StoresWith(b, entry.item, hashOf, m)
    ensures b[i].Empty? ==> Stores(b[i := entry], hashOf, m) && Occupied(b[i := entry]) == Occupied(b) + {i}
    ensures b[i].Full? ==> StoresWith(b[i := entry], b[i].item, hashOf, m) && Occupied(b[i := entry]) == Occupied(b)
  {
    var b' := b[i := entry];
    assert Holds(b', i, entry.item.key);
    assert DistinctKeys(b') by {
      forall x, y | 0 <= x < |b'| && 0 <= y < |b'| && x != y && b'[x].Full? && b'[y].Full?
        ensures b'[x].item.key != b'[y].item.key
      {
        assert !Holds(b, x, entry.item.key) && !Holds(b, y, entry.item.key);
      }
    }
    forall key | key in m && (b[i].Full? ==> key != b[i].item.key)
      ensures exists x :: Holds(b', x, key)
    {
      if key != entry.item.key {
        var x :| Holds(b, x, key);
        assert Holds(b', x, key);
      }
    }
    if b[i].Full? {
      forall x | 0 <= x < |b'|
        ensures !Holds(b', x, b[i].item.key)
      {
        assert !Holds(b, i, entry.item.key);
      }
    }
  }

  /** A key that is nowhere in the table can be carried towards it. */
  lemma CarryNew<K, V>(b: seq<Bucket<K, V>>, item: Item<K, V>, hashOf: K -> nat, m: map<K, V>)
    requires Stores(b, hashOf, m) && item.key !in m
    ensures StoresWith(b, item, hashOf, m[item.key := item.value])
  {
  }

  lemma ReplaceStores<K, V>(b: seq<Bucket<K, V>>, i: nat, item: Item<K, V>, hashOf: K -> nat, m: map<K, V>)
    requires Table(b, hashOf, m) && Holds(b, i, item.key)
    ensures Table(b[i := b[i].(item := item)], hashOf, m[item.key := item.value])
    ensures Occupied(b[i := b[i].(item := item)]) == Occupied(b)
  {
    var b' := b[i := b[i].(item := item)];
    var m' := m[item.key := item.value];
    forall x | 0 <= x < |b'|
      ensures Settled(b', x) && Gradual(b', x)
    {
      assert Settled(b, x) && Gradual(b, x);
    }
    forall key | key in m'
      ensures exists x :: Holds(b', x, key)
    {
      if key == item.key {
        assert Holds(b', i, key);
      } else {
        var x :| Holds(b, x, key);
        assert Holds(b', x, key);
      }
    }
  }

  /** An insertion of `item` in progress: nothing displaced yet, with every bucket passed so far
      free of the key; or the key is new and a displaced item is carried on. */
  ghost predicate Inserting<K, V>(b: seq<Bucket<K, V>>, b0: seq<Bucket<K, V>>, entry: Bucket<K, V>, i: nat, free: nat,
                                  item: Item<K, V>, hashOf: K -> nat, m: map<K, V>, displaced: bool) {
    && Riding(b, entry, i, free)
    && entry.hash == hashOf(entry.item.key)
    && |b| == |b0| && Occupied(b) == Occupied(b0)
    && (if displaced then
          item.key !in m && StoresWith(b, entry.item, hashOf, m[item.key := item.value])
        else
          && b == b0 && Stores(b, hashOf, m) && entry.item == item
          && (forall x | 0 <= x < |b| && Dist(Home(entry.hash, |b|), x, |b|) < entry.dib - 1 :: !Holds(b, x, item.key)))
  }

  /** An entry that beats bucket `i` is new to the table. */
  lemma InsertIsNew<K, V>(b: seq<Bucket<K, V>>, b0: seq<Bucket<K, V>>, entry: Bucket<K, V>, i: nat, free: nat,
                          item: Item<K, V>, hashOf: K -> nat, m: map<K, V>, displaced: bool)
    requires Inserting(b, b0, entry, i, free, item, hashOf, m, displaced)
    requires Dib(b[i]) < entry.dib
    ensures item.key !in m && StoresWith(b, entry.item, hashOf, m[item.key := item.value])
  {
    if !displaced {
      KeyAbsent(b, hashOf, m, item.key, i);
      CarryNew(b, item, hashOf, m);
    }
  }

  lemma InsertAtEmpty<K, V>(b: seq<Bucket<K, V>>, b0: seq<Bucket<K, V>>, entry: Bucket<K, V>, i: nat, free: nat,
                            item: Item<K, V>, hashOf: K -> nat, m: map<K, V>, displaced: bool)
    requires Inserting(b, b0, entry, i, free, item, hashOf, m, displaced)
    requires b[i].Empty?
    ensures item.key !in m && Table(b[i := entry], hashOf, m[item.key := item.value])
    ensures |Occupied(b[i := entry])| == |Occupied(b0)| + 1
  {
    InsertIsNew(b, b0, entry, i, free, item, hashOf, m, displaced);
    PutKeepsOrder(b, entry, i, free);
    PutStores(b, entry, i, hashOf, m[item.key := item.value]);
    assert i !in Occupied(b);
  }

  lemma InsertAtMatch<K, V>(b: seq<Bucket<K, V>>, b0: seq<Bucket<K, V>>, entry: Bucket<K, V>, i: nat, free: nat,
                            item: Item<K, V>, hashOf: K -> nat, m: map<K, V>, displaced: bool)
    requires Inserting(b, b0, entry, i, free, item, hashOf, m, displaced)
    requires b[i].Full? && b[i].item.key == entry.item.key
    ensures !displaced && item.key in m && b[i].item == Item(item.key, m[item.key])
    ensures Table(b[i := b[i].(item := entry.item)], hashOf, m[item.key := item.value])
    ensures |Occupied(b[i := b[i].(item := entry.item)])| == |Occupied(b0)|
  {
    assert Holds(b, i, entry.item.key);
    ReplaceStores(b, i, item, hashOf, m);
  }

  lemma InsertPast<K, V>(b: seq<Bucket<K, V>>, b0: seq<Bucket<K, V>>, entry: Bucket<K, V>, i: nat, free: nat,
                         item: Item<K, V>, hashOf: K -> nat, m: map<K, V>, displaced: bool)
    requires Inserting(b, b0, entry, i, free, item, hashOf, m, displaced)
    requires b[i].Full? && (displaced || b[i].item.key != entry.item.key) && entry.dib <= b[i].dib
    ensures Inserting(b, b0, entry.(dib := entry.dib + 1), Next(i, |b|), free, item, hashOf, m, displaced)
    ensures Dist(Next(i, |b|), free, |b|) < Dist(i, free, |b|)
  {
    RideOn(b, entry, i, free);
    if !displaced {
      var home := Home(entry.hash, |b|);
      forall x | 0 <= x < |b| && Dist(home, x, |b|) < entry.dib
        ensures !Holds(b, x, item.key)
      {
        if Dist(home, x, |b|) == entry.dib - 1 {
          assert x == i;
        }
      }
    }
  }

  lemma InsertSwap<K, V>(b: seq<Bucket<K, V>>, b0: seq<Bucket<K, V>>, entry: Bucket<K, V>, i: nat, free: nat,
                         item: Item<K, V>, hashOf: K -> nat, m: map<K, V>, displaced: bool)
    requires Inserting(b, b0, entry, i, free, item, hashOf, m, displaced)
    requires b[i].Full? && b[i].dib < entry.dib
    ensures Inserting(b[i := entry], b0, b[i].(dib := b[i].dib + 1), Next(i, |b|), free, item, hashOf, m, true)
    ensures Dist(Next(i, |b|), free, |b|) < Dist(i, free, |b|)
  {
    InsertIsNew(b, b0, entry, i, free, item, hashOf, m, displaced);
    RideOn(b, entry, i, free);
    PutStores(b, entry, i, hashOf, m[item.key := item.value]);
  }

  // ---------- Backward-shift deletion ----------

  /** Bucket `p` is a hole whose old `dib` was `old'`; everything else is in order, and the hole
      may still be filled by the bucket after it. */
  ghost predicate Shifting<K, V>(b: seq<Bucket<K, V>>, p: nat, old': nat) {
    && p < |b| && b[p].Empty?
    && (forall i | 0 <= i < |b| :: Settled(b, i))
    && (forall i | 0 <= i < |b| && i != p :: Gradual(b, i))
    && old' <= Dib(b[Prev(p, |b|)]) + 1
    && Dib(b[Next(p, |b|)]) <= old' + 1
  }

  /** A removal in progress: `b` without its hole at `p` stores `m`. */
  ghost predicate Removing<K, V>(b: seq<Bucket<K, V>>, p: nat, old': nat, free: nat, hashOf: K -> nat, m: map<K, V>,
                                 size: nat) {
    && Shifting(b, p, old') && Stores(b, hashOf, m)
    && free < |b| && b[free].Empty? && free != p
    && |Occupied(b)| == size
  }

  lemma OpenHole<K, V>(b: seq<Bucket<K, V>>, p: nat, free: nat, hashOf: K -> nat, m: map<K, V>, size: nat)
    requires |Occupied(b)| == size + 1
    requires Table(b, hashOf, m) && p < |b| && b[p].Full? && free < |b| && b[free].Empty?
    ensures Removing(b[p := Empty], p, b[p].dib, free, hashOf, m - {b[p].item.key}, size)
  {
    var b' := b[p := Empty];
    assert Gradual(b, Prev(p, |b|)) && Gradual(b, p);
    forall i | 0 <= i < |b'|
      ensures Settled(b', i) && (i != p ==> Gradual(b', i))
    {
      assert Settled(b, i) && Gradual(b, i);
    }
    forall key | key in m - {b[p].item.key}
      ensures exists x :: Holds(b', x, key)
    {
      var x :| Holds(b, x, key);
      assert Holds(b', x, key);
    }
    assert p in Occupied(b) && Occupied(b') == Occupied(b) - {p};
  }

  lemma CloseHole<K, V>(b: seq<Bucket<K, V>>, p: nat, old': nat, free: nat, hashOf: K -> nat, m: map<K, V>, size: nat)
    requires Removing(b, p, old', free, hashOf, m, size) && Dib(b[Next(p, |b|)]) <= 1
    ensures Table(b, hashOf, m)
  {
    assert Gradual(b, p);
  }

  /** The bucket after the hole moves into it, one nearer to its home. */
  function ShiftInto<K, V>(b: seq<Bucket<K, V>>, p: nat): seq<Bucket<K, V>>
    requires p < |b| && b[Next(p, |b|)].Full? && b[Next(p, |b|)].dib > 0
  {
    var q := Next(p, |b|);
    b[p := b[q].(dib := b[q].dib - 1)][q := Empty]
  }

  lemma MoveHole<K, V>(b: seq<Bucket<K, V>>, p: nat, old': nat, free: nat, hashOf: K -> nat, m: map<K, V>, size: nat)
    requires Removing(b, p, old', free, hashOf, m, size) && Dib(b[Next(p, |b|)]) > 1
    ensures Removing(ShiftInto(b, p), Next(p, |b|), b[Next(p, |b|)].dib, free, hashOf, m, size)
    ensures Dist(Next(p, |b|), free, |b|) < Dist(p, free, |b|)
  {
    MoveHoleOrder(b, p, old');
    MoveHoleStores(b, p, hashOf, m);
  }

  lemma MoveHoleStores<K, V>(b: seq<Bucket<K, V>>, p: nat, hashOf: K -> nat, m: map<K, V>)
    requires Stores(b, hashOf, m) && p < |b| && b[p].Empty? && Dib(b[Next(p, |b|)]) > 1
    ensures Stores(ShiftInto(b, p), hashOf, m)
    ensures |Occupied(ShiftInto(b, p))| == |Occupied(b)|
  {
    var q := Next(p, |b|);
    var b' := ShiftInto(b, p);
    forall key | key in m
      ensures exists x :: Holds(b', x, key)
    {
      var x :| Holds(b, x, key);
      assert Holds(b', if x == q then p else x, key);
    }
    assert q in Occupied(b) && p !in Occupied(b);
    assert Occupied(b') == Occupied(b) - {q} + {p};
  }

  lemma MoveHoleOrder<K, V>(b: seq<Bucket<K, V>>, p: nat, old': nat)
    requires Shifting(b, p, old') && |b| > 1 && Dib(b[Next(p, |b|)]) > 1
    ensures Shifting(ShiftInto(b, p), Next(p, |b|), b[Next(p, |b|)].dib)
  {
    var q := Next(p, |b|);
    var b' := ShiftInto(b, p);
    assert Settled(b, q) && Gradual(b, q);
    assert Dist(Home(b[q].hash, |b|), q, |b|) == Dist(Home(b[q].hash, |b|), p, |b|) + 1;
    forall i | 0 <= i < |b'|
      ensures Settled(b', i) && (i != q ==> Gradual(b', i))
    {
      assert Settled(b, i) && (i != p ==> Gradual(b, i));
      if Next(i, |b|) == p {
        assert i == Prev(p, |b|);
      }
    }
  }
}
