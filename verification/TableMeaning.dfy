/** What the operations on the bucket table mean: as long as no more items are stored than a distance of
    16 bits can count, they are those of a finite map, for every hash function. */
module TableMeaning {
  import opened Wrappers
  import opened RobinHood
  import opened HashTable

  const DIB_LIMIT := DIB_RANGE - 1

  function Lookup<K, V>(m: map<K, V>, key: K): Option<Item<K, V>> {
    if key in m then Some(Item(key, m[key])) else None
  }

  ghost predicate Means<K, V>(r: Raw<K, V>, hashOf: K -> nat, m: map<K, V>) {
    Table(r.buckets, hashOf, m) && |Occupied(r.buckets)| == r.count == |m|
  }

  lemma EmptyTable<K, V>(b: seq<Bucket<K, V>>, hashOf: K -> nat)
    requires |b| > 0 && forall i | 0 <= i < |b| :: b[i].Empty?
    ensures Table(b, hashOf, map[]) && |Occupied(b)| == 0
  {
  }

  /** Equal keys hash equally, so a bucket with another hash holds another key. */
  lemma SameKeySameHash<K, V>(b: seq<Bucket<K, V>>, b0: seq<Bucket<K, V>>, entry: Bucket<K, V>, i: nat, free: nat,
                              item: Item<K, V>, hashOf: K -> nat, m: map<K, V>, displaced: bool)
    requires Inserting(b, b0, entry, i, free, item, hashOf, m, displaced)
    requires b[i].Full? && (b[i].hash != entry.hash || b[i].item.key != entry.item.key)
    ensures b[i].item.key != entry.item.key
  {
  }

  // ---------- Placing ----------

  /** An entry on its way, and the next step of it, has a distance of at most the items there will be. */
  lemma InsertingDibFits<K, V>(b: seq<Bucket<K, V>>, b0: seq<Bucket<K, V>>, entry: Bucket<K, V>, i: nat, free: nat,
                               item: Item<K, V>, hashOf: K -> nat, m: map<K, V>, displaced: bool)
    requires Inserting(b, b0, entry, i, free, item, hashOf, m, displaced) && |Occupied(b0)| == |m|
    ensures entry.dib <= |m[item.key := item.value]|
  {
    if item.key in m {
      var j: nat :| Holds(b, j, item.key);
      assert Settled(b, j);
      DibAtMostCount(b, j);
      KeysStay(m, item);
    } else {
      RidingDibAtMostCount(b, entry, i, free);
      KeysGrow(m, item);
    }
  }

  lemma KeysStay<K, V>(m: map<K, V>, item: Item<K, V>)
    requires item.key in m
    ensures |m[item.key := item.value]| == |m|
  {
    assert m[item.key := item.value].Keys == m.Keys;
  }

  lemma KeysGrow<K, V>(m: map<K, V>, item: Item<K, V>)
    requires item.key !in m
    ensures |m[item.key := item.value]| == |m| + 1
  {
    assert m[item.key := item.value].Keys == m.Keys + {item.key};
  }

  /** What placing an item should come to. */
  ghost predicate HasPlaced<K, V>(r: Placed<K, V>, hashOf: K -> nat, m: map<K, V>, item: Item<K, V>) {
    && Table(r.table, hashOf, m[item.key := item.value])
    && |Occupied(r.table)| == |m[item.key := item.value]|
    && r.replaced == Lookup(m, item.key)
  }

  /** The table stores `m`, and a distance of 16 bits can count the items there will be. */
  ghost predicate HasRoom<K, V>(t: seq<Bucket<K, V>>, hashOf: K -> nat, m: map<K, V>, item: Item<K, V>) {
    Table(t, hashOf, m) && |Occupied(t)| == |m| && |m[item.key := item.value]| <= DIB_LIMIT
  }

  /** The entry at bucket `i`, with few enough items for its distance. */
  ghost predicate Placing<K, V>(
    t: seq<Bucket<K, V>>, t0: seq<Bucket<K, V>>, entry: Bucket<K, V>, i: nat, matching: bool, free: nat,
    item: Item<K, V>, hashOf: K -> nat, m: map<K, V>, displaced: bool)
  {
    && Inserting(t, t0, entry, i, free, item, hashOf, m, displaced)
    && (matching || item.key !in m) && |Occupied(t0)| == |m|
    && |m[item.key := item.value]| <= DIB_LIMIT
  }

  lemma PlaceAtEmpty<K, V>(
    t: seq<Bucket<K, V>>, t0: seq<Bucket<K, V>>, entry: Bucket<K, V>, i: nat, matching: bool, free: nat,
    item: Item<K, V>, hashOf: K -> nat, m: map<K, V>, displaced: bool)
    requires Placing(t, t0, entry, i, matching, free, item, hashOf, m, displaced) && t[i].Empty?
    ensures HasPlaced(Placed(t[i := Copied(entry)], None), hashOf, m, item)
  {
    InsertAtEmpty(t, t0, entry, i, free, item, hashOf, m, displaced);
    KeysGrow(m, item);
  }

  lemma PlaceAtMatch<K, V>(
    t: seq<Bucket<K, V>>, t0: seq<Bucket<K, V>>, entry: Bucket<K, V>, i: nat, matching: bool, free: nat,
    item: Item<K, V>, hashOf: K -> nat, m: map<K, V>, displaced: bool)
    requires Placing(t, t0, entry, i, matching, free, item, hashOf, m, displaced)
    requires t[i].Full? && t[i].item.key == entry.item.key
    ensures HasPlaced(Placed(t[i := t[i].(item := entry.item)], Some(t[i].item)), hashOf, m, item)
  {
    InsertAtMatch(t, t0, entry, i, free, item, hashOf, m, displaced);
    KeysStay(m, item);
  }

  lemma PlaceSwaps<K, V>(
    t: seq<Bucket<K, V>>, t0: seq<Bucket<K, V>>, entry: Bucket<K, V>, i: nat, matching: bool, free: nat,
    item: Item<K, V>, hashOf: K -> nat, m: map<K, V>, displaced: bool)
    requires Placing(t, t0, entry, i, matching, free, item, hashOf, m, displaced)
    requires t[i].Full? && t[i].dib < entry.dib
    ensures Placing(t[i := entry], t0, t[i].(dib := NextDib(t[i].dib)), Next(i, |t|), matching, free, item, hashOf, m,
                    true)
    ensures Dist(Next(i, |t|), free, |t|) < Dist(i, free, |t|)
  {
    InsertSwap(t, t0, entry, i, free, item, hashOf, m, displaced);
    InsertingDibFits(t[i := entry], t0, t[i].(dib := t[i].dib + 1), Next(i, |t|), free, item, hashOf, m, true);
  }

  lemma PlacePasses<K, V>(
    t: seq<Bucket<K, V>>, t0: seq<Bucket<K, V>>, entry: Bucket<K, V>, i: nat, matching: bool, free: nat,
    item: Item<K, V>, hashOf: K -> nat, m: map<K, V>, displaced: bool)
    requires Placing(t, t0, entry, i, matching, free, item, hashOf, m, displaced)
    requires t[i].Full? && entry.dib <= t[i].dib
    requires !(matching && entry.hash == t[i].hash && entry.item.key == t[i].item.key)
    ensures Placing(t, t0, entry.(dib := NextDib(entry.dib)), Next(i, |t|), matching, free, item, hashOf, m, displaced)
    ensures Dist(Next(i, |t|), free, |t|) < Dist(i, free, |t|)
  {
    if !displaced && matching {
      SameKeySameHash(t, t0, entry, i, free, item, hashOf, m, displaced);
    }
    InsertPast(t, t0, entry, i, free, item, hashOf, m, displaced);
    InsertingDibFits(t, t0, entry.(dib := entry.dib + 1), Next(i, |t|), free, item, hashOf, m, displaced);
  }

  /** The loop of a set or a resize turns a table of `m` into one of `m` with the item. */
  lemma {:induction false} PlaceInserts<K, V>(
    t: seq<Bucket<K, V>>, t0: seq<Bucket<K, V>>, entry: Bucket<K, V>, i: nat, left: nat, matching: bool, free: nat,
    item: Item<K, V>, hashOf: K -> nat, m: map<K, V>, displaced: bool)
    requires Placing(t, t0, entry, i, matching, free, item, hashOf, m, displaced) && Dist(i, free, |t|) < left
    ensures HasPlaced(Place(t, entry, i, left, matching), hashOf, m, item)
    decreases left
  {
    if t[i].Empty? {
      PlaceAtEmpty(t, t0, entry, i, matching, free, item, hashOf, m, displaced);
    } else if matching && entry.hash == t[i].hash && entry.item.key == t[i].item.key {
      PlaceAtMatch(t, t0, entry, i, matching, free, item, hashOf, m, displaced);
    } else if t[i].dib < entry.dib {
      PlaceSwaps(t, t0, entry, i, matching, free, item, hashOf, m, displaced);
      PlaceInserts(t[i := entry], t0, t[i].(dib := NextDib(t[i].dib)), Next(i, |t|), left - 1, matching, free, item,
                   hashOf, m, true);
    } else {
      PlacePasses(t, t0, entry, i, matching, free, item, hashOf, m, displaced);
      PlaceInserts(t, t0, entry.(dib := NextDib(entry.dib)), Next(i, |t|), left - 1, matching, free, item,
                   hashOf, m, displaced);
    }
  }

  lemma PlaceFromHome<K, V>(t: seq<Bucket<K, V>>, item: Item<K, V>, hashOf: K -> nat, m: map<K, V>, matching: bool)
    requires HasRoom(t, hashOf, m, item) && |m| < |t| && (matching || item.key !in m)
    ensures var hash := hashOf(item.key);
      HasPlaced(Place(t, Full(hash, 1, item), Home(hash, |t|), |t|, matching), hashOf, m, item)
  {
    var free := EmptyBucketExists(t);
    var entry := Full(hashOf(item.key), 1, item);
    StartRiding(t, entry, free);
    PlaceInserts(t, t, entry, Home(entry.hash, |t|), |t|, matching, free, item, hashOf, m, false);
  }

  // ---------- Probing ----------

  /** A probe for `key` stands at bucket `i`: if the key is stored, it is at or after `i`. */
  ghost predicate Probing<K, V>(b: seq<Bucket<K, V>>, hashOf: K -> nat, m: map<K, V>, key: K, i: nat, free: nat) {
    && Table(b, hashOf, m) && i < |b| && free < |b| && b[free].Empty?
    && Between(Home(hashOf(key), |b|), i, free, |b|)
    && (forall j | 0 <= j < |b| && Holds(b, j, key) :: Between(Home(hashOf(key), |b|), i, j, |b|))
  }

  lemma ProbeStep<K, V>(b: seq<Bucket<K, V>>, hashOf: K -> nat, m: map<K, V>, key: K, i: nat, free: nat)
    requires Probing(b, hashOf, m, key, i, free)
    ensures b[i].Empty? ==> key !in m
    ensures b[i].Full? && b[i].item.key == key ==>
              b[i].hash == hashOf(key) && key in m && b[i].item == Item(key, m[key])
    ensures b[i].Full? && b[i].item.key != key ==>
              Probing(b, hashOf, m, key, Next(i, |b|), free)
              && Dist(Next(i, |b|), free, |b|) < Dist(i, free, |b|)
  {
    if b[i].Empty? && key in m {
      var j: nat :| Holds(b, j, key);
      ProbeReachesKey(b, hashOf, m, key, i, j);
    }
  }

  lemma {:induction false} FoundIsHeld<K, V>(t: seq<Bucket<K, V>>, hashOf: K -> nat, m: map<K, V>, key: K, i: nat,
                                             left: nat, free: nat)
    requires Probing(t, hashOf, m, key, i, free) && Dist(i, free, |t|) < left
    ensures var at := Found(t, hashOf(key), key, i, left);
      && ItemAt(t, at) == Lookup(m, key)
      && (at.Some? ==> key in m)
    decreases left
  {
    ProbeStep(t, hashOf, m, key, i, free);
    if t[i].Full? && t[i].item.key != key {
      FoundIsHeld(t, hashOf, m, key, Next(i, |t|), left - 1, free);
    }
  }

  // ---------- Resizing ----------

  ghost predicate HeldBefore<K, V>(b: seq<Bucket<K, V>>, i: nat, key: K) {
    exists x: nat :: x < i && Holds(b, x, key)
  }

  lemma HeldBeforeGrows<K, V>(b: seq<Bucket<K, V>>, i: nat, key: K)
    requires HeldBefore(b, i, key) || Holds(b, i, key)
    ensures HeldBefore(b, i + 1, key)
  {
    if Holds(b, i, key) {
    } else {
      var x: nat :| x < i && Holds(b, x, key);
      assert x < i + 1;
    }
  }

  /** A resize in progress has moved exactly the items of the first `i` buckets. */
  ghost predicate MovedPrefix<K, V>(b: seq<Bucket<K, V>>, i: nat, moved: map<K, V>, m: map<K, V>) {
    && (forall key | key in moved :: key in m && moved[key] == m[key])
    && (forall key | key in moved :: HeldBefore(b, i, key))
    && (forall x | 0 <= x < i && x < |b| && b[x].Full? :: b[x].item.key in moved)
  }

  lemma MovedPrefixGrows<K, V>(b: seq<Bucket<K, V>>, i: nat, hashOf: K -> nat, moved: map<K, V>, m: map<K, V>)
    requires Stores(b, hashOf, m) && MovedPrefix(b, i, moved, m) && i < |b| && b[i].Full?
    ensures b[i].item.key !in moved && |moved| < |m|
    ensures MovedPrefix(b, i + 1, moved[b[i].item.key := b[i].item.value], m)
  {
    NotMovedYet(b, i, moved, m);
    ProperSubmap(moved, m, b[i].item.key);
    MovesNext(b, i, moved, m);
  }

  lemma NotMovedYet<K, V>(b: seq<Bucket<K, V>>, i: nat, moved: map<K, V>, m: map<K, V>)
    requires DistinctKeys(b) && MovedPrefix(b, i, moved, m) && i < |b| && b[i].Full?
    ensures b[i].item.key !in moved
  {
    assert Holds(b, i, b[i].item.key);
    assert !HeldBefore(b, i, b[i].item.key);
  }

  lemma MovesNext<K, V>(b: seq<Bucket<K, V>>, i: nat, moved: map<K, V>, m: map<K, V>)
    requires MovedPrefix(b, i, moved, m) && i < |b| && b[i].Full?
    requires b[i].item.key in m && m[b[i].item.key] == b[i].item.value
    ensures MovedPrefix(b, i + 1, moved[b[i].item.key := b[i].item.value], m)
  {
    HeldBeforeNext(b, i, moved, moved[b[i].item.key := b[i].item.value]);
  }

  lemma HeldBeforeNext<K, V>(b: seq<Bucket<K, V>>, i: nat, moved: map<K, V>, moved': map<K, V>)
    requires forall key | key in moved :: HeldBefore(b, i, key)
    requires i < |b| && b[i].Full? && moved'.Keys == moved.Keys + {b[i].item.key}
    ensures forall key | key in moved' :: HeldBefore(b, i + 1, key)
  {
    forall key | key in moved'
      ensures HeldBefore(b, i + 1, key)
    {
      HeldBeforeGrows(b, i, key);
    }
  }

  lemma ProperSubmap<K, V>(small: map<K, V>, large: map<K, V>, key: K)
    requires small.Keys <= large.Keys && key in large && key !in small
    ensures |small| < |large|
  {
    assert key in large.Keys - small.Keys;
    assert |large.Keys - small.Keys| == |large.Keys| - |small.Keys|;
  }

  lemma MovedPrefixSkips<K, V>(b: seq<Bucket<K, V>>, i: nat, moved: map<K, V>, m: map<K, V>)
    requires MovedPrefix(b, i, moved, m) && i < |b| && b[i].Empty?
    ensures MovedPrefix(b, i + 1, moved, m)
  {
    forall key | key in moved
      ensures HeldBefore(b, i + 1, key)
    {
      HeldBeforeGrows(b, i, key);
    }
  }

  lemma MovedAll<K, V>(b: seq<Bucket<K, V>>, hashOf: K -> nat, moved: map<K, V>, m: map<K, V>)
    requires Stores(b, hashOf, m) && MovedPrefix(b, |b|, moved, m)
    ensures moved == m
  {
    forall key | key in m
      ensures key in moved
    {
      var x: nat :| Holds(b, x, key);
    }
  }

  /** After some buckets the new table of a resize holds exactly the items of those. */
  lemma {:induction false} RehashMoves<K, V>(t: seq<Bucket<K, V>>, hashOf: K -> nat, m: map<K, V>, i: nat, n: nat)
    returns (moved: map<K, V>)
    requires Table(t, hashOf, m) && i <= |t| && |m| < n && |m| <= DIB_LIMIT
    ensures MovedPrefix(t, i, moved, m) && |moved| <= |m|
    ensures Table(Rehashed(t, i, n), hashOf, moved) && |Occupied(Rehashed(t, i, n))| == |moved|
  {
    if i == 0 {
      moved := map[];
      EmptyTable(Rehashed(t, 0, n), hashOf);
    } else {
      moved := RehashMoves(t, hashOf, m, i - 1, n);
      if t[i - 1].Full? {
        var item := t[i - 1].item;
        MovedPrefixGrows(t, i - 1, hashOf, moved, m);
        KeysGrow(moved, item);
        PlaceFromHome(Rehashed(t, i - 1, n), item, hashOf, moved, false);
        moved := moved[item.key := item.value];
      } else {
        MovedPrefixSkips(t, i - 1, moved, m);
      }
    }
  }

  /** A resize keeps exactly the same items. */
  lemma ResizeKeepsMeaning<K, V>(r: Raw<K, V>, hashOf: K -> nat, m: map<K, V>, n: nat)
    requires Means(r, hashOf, m) && |m| < n && |m| <= DIB_LIMIT
    ensures Means(Resized(r, n), hashOf, m)
  {
    var moved := RehashMoves(r.buckets, hashOf, m, |r.buckets|, n);
    MovedAll(r.buckets, hashOf, moved, m);
  }

  // ---------- Removing ----------

  lemma RemovedNone<K, V>(m: map<K, V>, key: K)
    requires key !in m
    ensures m - {key} == m
  {
  }

  lemma RemovedOne<K, V>(m: map<K, V>, key: K)
    requires key in m
    ensures |m - {key}| == |m| - 1
  {
    assert (m - {key}).Keys == m.Keys - {key};
  }

  /** Copying the bucket after the hole into it moves the hole; its stale content does not matter. */
  lemma ShiftStep<K, V>(t: seq<Bucket<K, V>>, p: nat, dib: nat, free: nat, hashOf: K -> nat, m: map<K, V>, size: nat)
    requires p < |t| && Removing(t[p := Empty], p, dib, free, hashOf, m, size) && Dib(t[Next(p, |t|)]) > 1
    ensures var q := Next(p, |t|);
            && Removing(t[p := t[q].(dib := t[q].dib - 1)][q := Empty], q, t[q].dib, free, hashOf, m, size)
            && Dist(q, free, |t|) < Dist(p, free, |t|)
  {
    var q := Next(p, |t|);
    var b := t[p := Empty];
    MoveHole(b, p, dib, free, hashOf, m, size);
    assert ShiftInto(b, p) == t[p := t[q].(dib := t[q].dib - 1)][q := Empty];
  }

  lemma {:induction false} ShiftCloses<K, V>(t: seq<Bucket<K, V>>, p: nat, left: nat, dib: nat, free: nat,
                                             hashOf: K -> nat, m: map<K, V>, size: nat)
    requires p < |t| && Removing(t[p := Empty], p, dib, free, hashOf, m, size) && Dist(p, free, |t|) < left
    ensures Table(Shifted(t, p, left), hashOf, m) && |Occupied(Shifted(t, p, left))| == size
    decreases left
  {
    var q := Next(p, |t|);
    if Dib(t[q]) <= 1 {
      CloseHole(t[p := Empty], p, dib, free, hashOf, m, size);
    } else {
      var moved := t[p := t[q].(dib := t[q].dib - 1)];
      assert Removing(moved[q := Empty], q, t[q].dib, free, hashOf, m, size) && Dist(q, free, |t|) < left - 1 by {
        ShiftStep(t, p, dib, free, hashOf, m, size);
      }
      ShiftCloses(moved, q, left - 1, t[q].dib, free, hashOf, m, size);
    }
  }

  /** Backward shifting gives the table without the key. */
  lemma RemoveMeans<K, V>(r: Raw<K, V>, hashOf: K -> nat, m: map<K, V>, at: nat)
    requires Means(r, hashOf, m) && |m| < |r.buckets| && at < |r.buckets| && r.buckets[at].Full?
    ensures r.buckets[at].item.key in m
    ensures Means(RemoveRaw(r, at), hashOf, m - {r.buckets[at].item.key})
  {
    var t, key := r.buckets, r.buckets[at].item.key;
    var free := EmptyBucketExists(t);
    RemovedOne(m, key);
    OpenHole(t, at, free, hashOf, m, |m| - 1);
    ShiftCloses(t, at, |t|, t[at].dib, free, hashOf, m - {key}, |m| - 1);
  }

  // ---------- The operations ----------

  lemma GetMeans<K, V>(r: Raw<K, V>, hashOf: K -> nat, m: map<K, V>, key: K)
    requires Means(r, hashOf, m) && |m| < |r.buckets|
    ensures GetRaw(r, hashOf(key), key) == Lookup(m, key)
    ensures Found(r.buckets, hashOf(key), key, Home(hashOf(key), |r.buckets|), |r.buckets|).Some? <==> key in m
  {
    var free := EmptyBucketExists(r.buckets);
    FoundIsHeld(r.buckets, hashOf, m, key, Home(hashOf(key), |r.buckets|), |r.buckets|, free);
  }

  lemma PutMeans<K, V>(r: Raw<K, V>, hashOf: K -> nat, m: map<K, V>, item: Item<K, V>)
    requires Means(r, hashOf, m) && |m| < |r.buckets| && |m[item.key := item.value]| <= DIB_LIMIT
    ensures var done := PutRaw(r, hashOf(item.key), item);
      && Means(done.raw, hashOf, m[item.key := item.value]) && done.answer == Lookup(m, item.key) && !done.oom
      && |done.raw.buckets| == |r.buckets|
  {
    PlaceFromHome(r.buckets, item, hashOf, m, true);
    if item.key in m {
      KeysStay(m, item);
    } else {
      KeysGrow(m, item);
    }
  }

  /** A set that leaves at most 65535 items updates the map, or changes nothing for lack of memory. */
  lemma SetMeans<K, V>(r: Raw<K, V>, base: nat, hashOf: K -> nat, m: map<K, V>, item: Item<K, V>, allocOk: bool)
    requires Sane(r, base) && Means(r, hashOf, m) && |m[item.key := item.value]| <= DIB_LIMIT
    ensures var done := SetRaw(r, hashOf(item.key), item, allocOk);
      if 10 * (|m| + 1) > 6 * |r.buckets| && !allocOk then done == Done(r, None, true)
      else
        && Means(done.raw, hashOf, m[item.key := item.value]) && done.answer == Lookup(m, item.key) && !done.oom
        && |done.raw.buckets| == if 10 * (|m| + 1) > 6 * |r.buckets| then 2 * |r.buckets| else |r.buckets|
  {
    GrowthDueIff(|m|, |r.buckets|);
    if !GrowthDue(|m|, |r.buckets|) {
      PutMeans(r, hashOf, m, item);
    } else if allocOk {
      SetAtMost(m, item);
      ResizeKeepsMeaning(r, hashOf, m, 2 * |r.buckets|);
      PutMeans(Resized(r, 2 * |r.buckets|), hashOf, m, item);
    }
  }

  lemma SetAtMost<K, V>(m: map<K, V>, item: Item<K, V>)
    ensures |m| <= |m[item.key := item.value]|
  {
    SubsetSize(m.Keys, m[item.key := item.value].Keys);
  }

  lemma ShrinkMeans<K, V>(r: Raw<K, V>, base: nat, hashOf: K -> nat, m: map<K, V>, allocOk: bool)
    requires Sane(r, base) && Means(r, hashOf, m) && |m| <= DIB_LIMIT
    ensures Means(ShrinkRaw(r, base, allocOk), hashOf, m)
  {
    if ShrinkDue(|m|, |r.buckets|, base) {
      ShrinkFits(|r.buckets|, base);
      ResizeKeepsMeaning(r, hashOf, m, |r.buckets| / 2);
    }
  }

  /** A delete removes the key and nothing else. */
  lemma DeleteMeans<K, V>(r: Raw<K, V>, base: nat, hashOf: K -> nat, m: map<K, V>, key: K, allocOk: bool)
    requires Sane(r, base) && Means(r, hashOf, m) && |m - {key}| <= DIB_LIMIT
    ensures var done := DeleteRaw(r, base, hashOf(key), key, allocOk);
      && Means(done.raw, hashOf, m - {key}) && done.answer == Lookup(m, key)
      && |done.raw.buckets| ==
         (if key in m && |r.buckets| > base && 10 * |m - {key}| <= |r.buckets| && allocOk
          then |r.buckets| / 2 else |r.buckets|)
  {
    ShrinkDueIff(|m - {key}|, |r.buckets|, base);
    GetMeans(r, hashOf, m, key);
    var at := Found(r.buckets, hashOf(key), key, Home(hashOf(key), |r.buckets|), |r.buckets|);
    if at.Some? {
      RemoveMeans(r, hashOf, m, at.value);
      RemoveIsSane(r, base, at.value);
      ShrinkMeans(RemoveRaw(r, at.value), base, hashOf, m - {key}, allocOk);
    } else {
      RemovedNone(m, key);
    }
  }
}
