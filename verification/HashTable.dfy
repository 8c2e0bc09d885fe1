/** The operations of shared/hashmap.c as functions of the bucket table and the count, bit for bit: the
    distances are kept in 16 bits, and the hash function and the number of items are arbitrary. */
module HashTable {
  import opened Wrappers
  import opened RobinHood

  const LOAD_FACTOR := 60
  const SHRINK_FACTOR := 10
  const MINIMUM_CAPACITY := 16
  const HASH_RANGE: nat := 0x1_0000_0000_0000

  ghost predicate PowerOfTwo(n: nat) {
    n == 1 || (n > 1 && n % 2 == 0 && PowerOfTwo(n / 2))
  }

  function GrowAt(nbuckets: nat): nat {
    nbuckets * LOAD_FACTOR / 100
  }

  function ShrinkAt(nbuckets: nat): nat {
    nbuckets * SHRINK_FACTOR / 100
  }

  /** A set finds the table too full and has to grow it first. */
  predicate GrowthDue(count: nat, nbuckets: nat) {
    count >= GrowAt(nbuckets)
  }

  /** A delete has left the table sparse, above its base capacity. */
  predicate ShrinkDue(count: nat, nbuckets: nat, base: nat) {
    nbuckets > base && count <= ShrinkAt(nbuckets)
  }

  function ClipHash(hash: nat): nat {
    hash % HASH_RANGE
  }

  /** The hash of a key as the map uses it. */
  function Clipped<K>(hashOf: K -> nat): K -> nat {
    key => ClipHash(hashOf(key))
  }

  /** The smallest power of two that is at least 16 and at least `cap`. */
  ghost predicate RoundedTo(cap: nat, ncap: nat) {
    PowerOfTwo(ncap) && 16 <= ncap && cap <= ncap && (ncap == 16 || ncap < 2 * cap)
  }

  const DIB_RANGE := 0x1_0000

  /** `entry->dib += 1` on a field of 16 bits. */
  function NextDib(dib: nat): (d: nat)
    ensures d < DIB_RANGE
  {
    (dib + 1) % DIB_RANGE
  }

  /** What a bucket is after an entry is copied into it: a distance of 0 marks it as empty. */
  function Copied<K, V>(entry: Bucket<K, V>): Bucket<K, V> {
    if Dib(entry) == 0 then Empty else entry
  }

  ghost predicate Fits16<K, V>(t: seq<Bucket<K, V>>) {
    forall i | 0 <= i < |t| && t[i].Full? :: 0 < t[i].dib < DIB_RANGE
  }

  // ---------- The loops ----------

  datatype Placed<K, V> = Placed(table: seq<Bucket<K, V>>, replaced: Option<Item<K, V>>)

  /** The loop of a set (`matching`) or of a resize: `left` bounds the buckets still to be visited. */
  function Place<K(==), V>(t: seq<Bucket<K, V>>, entry: Bucket<K, V>, i: nat, left: nat,
                           matching: bool): (r: Placed<K, V>)
    requires i < |t| && entry.Full?
    ensures |r.table| == |t|
    decreases left
  {
    if left == 0 then Placed(t, None)
    else if t[i].Empty? then Placed(t[i := Copied(entry)], None)
    else if matching && entry.hash == t[i].hash && entry.item.key == t[i].item.key then
      Placed(t[i := t[i].(item := entry.item)], Some(t[i].item))
    else if t[i].dib < entry.dib then
      Place(t[i := entry], t[i].(dib := NextDib(t[i].dib)), Next(i, |t|), left - 1, matching)
    else
      Place(t, entry.(dib := NextDib(entry.dib)), Next(i, |t|), left - 1, matching)
  }

  function Blank<K, V>(n: nat): (t: seq<Bucket<K, V>>)
    ensures |t| == n
  {
    seq(n, _ => Empty)
  }

  /** The new table of a resize after the first `i` buckets of the old one. */
  function Rehashed<K(==), V>(t: seq<Bucket<K, V>>, i: nat, n: nat): (t': seq<Bucket<K, V>>)
    requires i <= |t| && 0 < n
    ensures |t'| == n
  {
    if i == 0 then Blank(n)
    else if t[i - 1].Empty? then Rehashed(t, i - 1, n)
    else Place(Rehashed(t, i - 1, n), t[i - 1].(dib := 1), Home(t[i - 1].hash, n), n, false).table
  }

  /** The probe loop of a get or a delete. */
  function Found<K(==), V>(t: seq<Bucket<K, V>>, hash: nat, key: K, i: nat, left: nat): (at: Option<nat>)
    requires i < |t|
    ensures at.Some? ==> at.value < |t| && t[at.value].Full? && t[at.value].item.key == key
    decreases left
  {
    if left == 0 || t[i].Empty? then None
    else if t[i].hash == hash && t[i].item.key == key then Some(i)
    else Found(t, hash, key, Next(i, |t|), left - 1)
  }

  /** The shifting loop of a delete, with the hole at bucket `p`. */
  function Shifted<K, V>(t: seq<Bucket<K, V>>, p: nat, left: nat): (t': seq<Bucket<K, V>>)
    requires p < |t|
    ensures |t'| == |t|
    decreases left
  {
    var q := Next(p, |t|);
    if left == 0 || Dib(t[q]) <= 1 then t[p := Empty]
    else Shifted(t[p := t[q].(dib := t[q].dib - 1)], q, left - 1)
  }

  // ---------- The operations ----------

  /** The table and the count of the map. */
  datatype Raw<K, V> = Raw(buckets: seq<Bucket<K, V>>, count: nat)
  datatype Done<K, V> = Done(raw: Raw<K, V>, answer: Option<Item<K, V>>, oom: bool)

  function Resized<K(==), V>(r: Raw<K, V>, n: nat): Raw<K, V>
    requires 0 < n
  {
    Raw(Rehashed(r.buckets, |r.buckets|, n), r.count)
  }

  function PutRaw<K(==), V>(r: Raw<K, V>, hash: nat, item: Item<K, V>): Done<K, V>
    requires |r.buckets| > 0
  {
    var n := |r.buckets|;
    var placed := Place(r.buckets, Full(hash, 1, item), Home(hash, n), n, true);
    Done(Raw(placed.table, if placed.replaced.None? then r.count + 1 else r.count), placed.replaced, false)
  }

  function SetRaw<K(==), V>(r: Raw<K, V>, hash: nat, item: Item<K, V>, allocOk: bool): Done<K, V>
    requires |r.buckets| > 0
  {
    if !GrowthDue(r.count, |r.buckets|) then PutRaw(r, hash, item)
    else if allocOk then PutRaw(Resized(r, 2 * |r.buckets|), hash, item)
    else Done(r, None, true)
  }

  function ItemAt<K, V>(t: seq<Bucket<K, V>>, at: Option<nat>): Option<Item<K, V>>
    requires at.Some? ==> at.value < |t| && t[at.value].Full?
  {
    if at.Some? then Some(t[at.value].item) else None
  }

  function GetRaw<K(==), V>(r: Raw<K, V>, hash: nat, key: K): Option<Item<K, V>>
    requires |r.buckets| > 0
  {
    ItemAt(r.buckets, Found(r.buckets, hash, key, Home(hash, |r.buckets|), |r.buckets|))
  }

  function RemoveRaw<K, V>(r: Raw<K, V>, at: nat): Raw<K, V>
    requires at < |r.buckets|
  {
    Raw(Shifted(r.buckets, at, |r.buckets|), if r.count > 0 then r.count - 1 else 0)
  }

  function ShrinkRaw<K(==), V>(r: Raw<K, V>, base: nat, allocOk: bool): Raw<K, V>
    requires |r.buckets| > 1
  {
    if ShrinkDue(r.count, |r.buckets|, base) && allocOk then Resized(r, |r.buckets| / 2) else r
  }

  function DeleteRaw<K(==), V>(r: Raw<K, V>, base: nat, hash: nat, key: K, allocOk: bool): Done<K, V>
    requires |r.buckets| > 1
  {
    var at := Found(r.buckets, hash, key, Home(hash, |r.buckets|), |r.buckets|);
    var raw := if at.Some? then ShrinkRaw(RemoveRaw(r, at.value), base, allocOk) else r;
    Done(raw, ItemAt(r.buckets, at), false)
  }

  // ---------- What every run keeps, whatever it stores ----------

  lemma {:induction false} PowersOfTwoAreSpread(a: nat, b: nat)
    requires PowerOfTwo(a) && PowerOfTwo(b) && a <= b < 2 * a
    ensures a == b
  {
    if a > 1 {
      PowersOfTwoAreSpread(a / 2, b / 2);
    }
  }

  lemma DoublingFits(nbuckets: nat)
    requires PowerOfTwo(nbuckets) && MINIMUM_CAPACITY <= nbuckets
    ensures PowerOfTwo(nbuckets * 2) && GrowAt(nbuckets) < GrowAt(nbuckets * 2)
  {
  }

  /** Halving a table that has grown past its base capacity keeps it a power of two at or above it. */
  lemma ShrinkFits(nbuckets: nat, cap: nat)
    requires PowerOfTwo(nbuckets) && PowerOfTwo(cap) && MINIMUM_CAPACITY <= cap < nbuckets
    ensures PowerOfTwo(nbuckets / 2) && cap <= nbuckets / 2
    ensures ShrinkAt(nbuckets) <= GrowAt(nbuckets / 2)
  {
    if nbuckets / 2 < cap {
      PowersOfTwoAreSpread(cap, nbuckets);
    }
  }

  /** The table has an empty bucket, which ends every loop, and its distances fit their field. */
  ghost predicate Sane<K, V>(r: Raw<K, V>, base: nat) {
    && PowerOfTwo(|r.buckets|) && PowerOfTwo(base) && MINIMUM_CAPACITY <= base <= |r.buckets|
    && |Occupied(r.buckets)| <= r.count <= GrowAt(|r.buckets|)
    && Fits16(r.buckets)
  }

  /** Placing an entry fills at most one more bucket, and none when it replaces. */
  lemma {:induction false} PlaceIsSane<K, V>(t: seq<Bucket<K, V>>, entry: Bucket<K, V>, i: nat, left: nat,
                                             matching: bool)
    requires i < |t| && entry.Full? && entry.dib < DIB_RANGE && Fits16(t)
    ensures var r := Place(t, entry, i, left, matching);
      Fits16(r.table) && |Occupied(r.table)| <= |Occupied(t)| + if r.replaced.None? then 1 else 0
    decreases left
  {
    if left == 0 {
    } else if t[i].Empty? {
      assert Occupied(t[i := Copied(entry)]) <= Occupied(t) + {i};
      SubsetSize(Occupied(t[i := Copied(entry)]), Occupied(t) + {i});
    } else if matching && entry.hash == t[i].hash && entry.item.key == t[i].item.key {
      assert Occupied(t[i := t[i].(item := entry.item)]) == Occupied(t);
    } else if t[i].dib < entry.dib {
      assert Occupied(t[i := entry]) == Occupied(t);
      PlaceIsSane(t[i := entry], t[i].(dib := NextDib(t[i].dib)), Next(i, |t|), left - 1, matching);
    } else {
      PlaceIsSane(t, entry.(dib := NextDib(entry.dib)), Next(i, |t|), left - 1, matching);
    }
  }

  lemma OccupiedGrows<K, V>(t: seq<Bucket<K, V>>, i: nat)
    requires i < |t|
    ensures |Occupied(t[..i + 1])| == |Occupied(t[..i])| + if t[i].Full? then 1 else 0
    ensures |Occupied(t[..i])| <= |Occupied(t)|
  {
    assert Occupied(t[..i + 1]) == Occupied(t[..i]) + if t[i].Full? then {i} else {};
    assert i !in Occupied(t[..i]);
    assert Occupied(t[..i]) <= Occupied(t);
    SubsetSize(Occupied(t[..i]), Occupied(t));
  }

  lemma {:induction false} RehashIsSane<K, V>(t: seq<Bucket<K, V>>, i: nat, n: nat)
    requires i <= |t| && 0 < n
    ensures Fits16(Rehashed(t, i, n)) && |Occupied(Rehashed(t, i, n))| <= |Occupied(t[..i])|
  {
    if i == 0 {
      assert Occupied(Rehashed(t, i, n)) == {};
    } else {
      RehashIsSane(t, i - 1, n);
      OccupiedGrows(t, i - 1);
      if t[i - 1].Full? {
        PlaceIsSane(Rehashed(t, i - 1, n), t[i - 1].(dib := 1), Home(t[i - 1].hash, n), n, false);
      }
    }
  }

  /** Shifting empties exactly one bucket. */
  lemma {:induction false} ShiftIsSane<K, V>(t: seq<Bucket<K, V>>, p: nat, left: nat)
    requires p < |t| && t[p].Full? && Fits16(t)
    ensures Fits16(Shifted(t, p, left)) && |Occupied(Shifted(t, p, left))| == |Occupied(t)| - 1
    decreases left
  {
    var q := Next(p, |t|);
    if left == 0 || Dib(t[q]) <= 1 {
      assert Occupied(t[p := Empty]) == Occupied(t) - {p};
      assert p in Occupied(t);
    } else {
      var moved := t[p := t[q].(dib := t[q].dib - 1)];
      assert Occupied(moved) == Occupied(t);
      ShiftIsSane(moved, q, left - 1);
    }
  }

  lemma ResizeIsSane<K, V>(r: Raw<K, V>, base: nat, n: nat)
    requires Sane(r, base) && PowerOfTwo(n) && base <= n && r.count <= GrowAt(n)
    ensures Sane(Resized(r, n), base)
  {
    RehashIsSane(r.buckets, |r.buckets|, n);
    assert r.buckets[..|r.buckets|] == r.buckets;
  }

  lemma PutIsSane<K, V>(r: Raw<K, V>, base: nat, hash: nat, item: Item<K, V>)
    requires Sane(r, base) && !GrowthDue(r.count, |r.buckets|)
    ensures Sane(PutRaw(r, hash, item).raw, base)
  {
    PlaceIsSane(r.buckets, Full(hash, 1, item), Home(hash, |r.buckets|), |r.buckets|, true);
  }

  lemma SetIsSane<K, V>(r: Raw<K, V>, base: nat, hash: nat, item: Item<K, V>, allocOk: bool)
    requires Sane(r, base)
    ensures Sane(SetRaw(r, hash, item, allocOk).raw, base)
  {
    if !GrowthDue(r.count, |r.buckets|) {
      PutIsSane(r, base, hash, item);
    } else if allocOk {
      DoublingFits(|r.buckets|);
      ResizeIsSane(r, base, 2 * |r.buckets|);
      PutIsSane(Resized(r, 2 * |r.buckets|), base, hash, item);
    }
  }

  lemma ShrinkIsSane<K, V>(r: Raw<K, V>, base: nat, allocOk: bool)
    requires Sane(r, base)
    ensures Sane(ShrinkRaw(r, base, allocOk), base)
  {
    if ShrinkDue(r.count, |r.buckets|, base) {
      ShrinkFits(|r.buckets|, base);
      ResizeIsSane(r, base, |r.buckets| / 2);
    }
  }

  lemma RemoveIsSane<K, V>(r: Raw<K, V>, base: nat, at: nat)
    requires Sane(r, base) && at < |r.buckets| && r.buckets[at].Full?
    ensures r.count > 0 && Sane(RemoveRaw(r, at), base)
  {
    assert at in Occupied(r.buckets);
    ShiftIsSane(r.buckets, at, |r.buckets|);
  }

  lemma DeleteIsSane<K, V>(r: Raw<K, V>, base: nat, hash: nat, key: K, allocOk: bool)
    requires Sane(r, base)
    ensures Sane(DeleteRaw(r, base, hash, key, allocOk).raw, base)
  {
    var at := Found(r.buckets, hash, key, Home(hash, |r.buckets|), |r.buckets|);
    if at.Some? {
      RemoveIsSane(r, base, at.value);
      ShrinkIsSane(RemoveRaw(r, at.value), base, allocOk);
    }
  }

  // ---------- The load ----------

  /** A set grows the table exactly when one more item would use more than six tenths of it. */
  lemma GrowthDueIff(count: nat, nbuckets: nat)
    ensures GrowthDue(count, nbuckets) <==> 10 * (count + 1) > 6 * nbuckets
  {
  }

  /** A delete halves a table above its base size exactly when it leaves at most a tenth of it in use. */
  lemma ShrinkDueIff(count: nat, nbuckets: nat, base: nat)
    ensures ShrinkDue(count, nbuckets, base) <==> nbuckets > base && 10 * count <= nbuckets
  {
  }

  /** Between a tenth and six tenths of the table is in use; a table of the base size may be emptier. */
  predicate Loaded<K, V>(r: Raw<K, V>, base: nat) {
    && 10 * r.count <= 6 * |r.buckets|
    && (|r.buckets| == base || 10 * r.count > |r.buckets|)
  }

  /** A set with memory granted keeps the load. */
  lemma SetIsLoaded<K, V>(r: Raw<K, V>, base: nat, hash: nat, item: Item<K, V>)
    requires Sane(r, base) && Loaded(r, base)
    ensures Loaded(SetRaw(r, hash, item, true).raw, base)
  {
    GrowthDueIff(r.count, |r.buckets|);
  }

  /** A delete with memory granted keeps the load. */
  lemma DeleteIsLoaded<K, V>(r: Raw<K, V>, base: nat, hash: nat, key: K)
    requires Sane(r, base) && Loaded(r, base)
    ensures Loaded(DeleteRaw(r, base, hash, key, true).raw, base)
  {
    var at := Found(r.buckets, hash, key, Home(hash, |r.buckets|), |r.buckets|);
    if at.Some? {
      RemoveIsSane(r, base, at.value);
      ShrinkDueIff(r.count - 1, |r.buckets|, base);
      if |r.buckets| > base {
        ShrinkFits(|r.buckets|, base);
      }
    }
  }
}
