/** The hash map of shared/hashmap.c: open addressing with displacement on insert, backward shift on delete,
    growth and shrinking. Every operation does on the fields what HashTable says, and up to 65535 items
    that is what a finite map does. */
module HashMap {
  import opened Wrappers
  import opened RobinHood
  import opened HashTable
  import opened TableMeaning

  method RoundCapacity(cap: nat) returns (ncap: nat)
    ensures RoundedTo(cap, ncap)
    ensures PowerOfTwo(cap) && MINIMUM_CAPACITY <= cap ==> ncap == cap
  {
    ncap := MINIMUM_CAPACITY;
    while ncap < cap
      invariant PowerOfTwo(ncap) && MINIMUM_CAPACITY <= ncap
      invariant ncap == MINIMUM_CAPACITY || ncap < 2 * cap
      decreases cap - ncap
    {
      ncap := ncap * 2;
    }
    if PowerOfTwo(cap) && MINIMUM_CAPACITY <= cap {
      PowersOfTwoAreSpread(cap, ncap);
    }
  }

  class RobinHoodMap<K(==), V> {
    const getHash: K -> nat
    const cap: nat
    var buckets: array<Bucket<K, V>>
    var nbuckets: nat
    var count: nat
    var growat: nat
    var shrinkat: nat
    var oom: bool
    /** What the sets and deletes so far should have stored. */
    ghost var Contents: map<K, V>

    ghost function State(): Raw<K, V>
      reads this, buckets
    {
      Raw(buckets[..], count)
    }

    /** What every operation keeps, however many items are stored and however they are hashed. */
    ghost predicate Sound()
      reads this, buckets
    {
      && buckets.Length == nbuckets && growat == GrowAt(nbuckets) && shrinkat == ShrinkAt(nbuckets)
      && Sane(State(), cap)
    }

    /** The table stores exactly the items of `Contents`. */
    ghost predicate Valid()
      reads this, buckets
    {
      Sound() && Means(State(), getHash, Contents)
    }

    /** hashmap_new, for the case in which its allocations succeed. */
    constructor (cap: nat, hashOf: K -> nat)
      ensures Valid() && fresh(buckets) && Contents == map[] && !oom
      ensures getHash == Clipped(hashOf) && RoundedTo(cap, nbuckets) && nbuckets == this.cap
      ensures State() == Raw(Blank(nbuckets), 0)
      ensures forall key {:trigger getHash(key)} :: getHash(key) == hashOf(key) % 0x1_0000_0000_0000
    {
      var ncap := RoundCapacity(cap);
      getHash := Clipped(hashOf);
      this.cap := ncap;
      nbuckets := ncap;
      count := 0;
      growat := GrowAt(ncap);
      shrinkat := ShrinkAt(ncap);
      oom := false;
      buckets := new Bucket<K, V>[ncap](_ => Empty);
      Contents := map[];
      new;
      assert buckets[..] == Blank(ncap);
      EmptyTable(buckets[..], getHash);
    }

    /** hashmap_new: nothing when the map or its buckets cannot be allocated. */
    static method New(cap: nat, hashOf: K -> nat, mapOk: bool, bucketsOk: bool) returns (hashmap: RobinHoodMap?<K, V>)
      ensures hashmap == null <==> !(mapOk && bucketsOk)
      ensures hashmap != null ==>
        && fresh(hashmap) && hashmap.Valid() && fresh(hashmap.buckets) && hashmap.Contents == map[]
        && RoundedTo(cap, hashmap.nbuckets) && hashmap.nbuckets == hashmap.cap
    {
      if !mapOk || !bucketsOk {
        return null;
      }
      hashmap := new RobinHoodMap(cap, hashOf);
    }

    /** The loop of a resize that moves one item into the new table. */
    method Reinsert(table: array<Bucket<K, V>>, item: Item<K, V>, hash: nat)
      requires |Occupied(table[..])| < table.Length
      modifies table
      ensures table[..] ==
              Place(old(table[..]), Full(hash, 1, item), Home(hash, table.Length), table.Length, false).table
      ensures forall m | HasRoom(old(table[..]), getHash, m, item) && item.key !in m && hash == getHash(item.key) ::
                Table(table[..], getHash, m[item.key := item.value])
    {
      var n := table.Length;
      ghost var goal := Place(table[..], Full(hash, 1, item), Home(hash, n), n, false);
      forall m | HasRoom(table[..], getHash, m, item) && item.key !in m && hash == getHash(item.key)
        ensures Table(goal.table, getHash, m[item.key := item.value])
      {
        PlaceFromHome(table[..], item, getHash, m, false);
      }
      ghost var free := EmptyBucketExists(table[..]);
      ghost var left := n;
      var entry := Full(hash, 1, item);
      var j: nat := hash % n;
      while table[j].Full?
        invariant j < n && entry.Full? && table[free].Empty? && Dist(j, free, n) < left
        invariant Place(table[..], entry, j, left, false) == goal
        decreases left
      {
        var bucket := table[j];
        if bucket.dib < entry.dib {
          ghost var b := table[..];
          table[j] := entry;
          assert table[..] == b[j := entry];
          entry := bucket;
        }
        j := Next(j, n);
        entry := entry.(dib := NextDib(entry.dib));
        left := left - 1;
      }
      ghost var b := table[..];
      table[j] := Copied(entry);
      assert table[..] == b[j := Copied(entry)];
    }

    /** resize0: `allocOk` says whether the allocations succeed. */
    method Resize(newCap: nat, allocOk: bool) returns (ok: bool)
      requires Sound() && cap <= newCap && PowerOfTwo(newCap) && count <= GrowAt(newCap)
      modifies this`buckets, this`nbuckets, this`growat, this`shrinkat
      ensures Sound() && ok == allocOk
      ensures ok ==> fresh(buckets) && nbuckets == newCap && State() == Resized(old(State()), newCap)
      ensures !ok ==> unchanged(this)
      ensures old(Valid()) && |Contents| <= DIB_LIMIT ==> Valid()
    {
      if !allocOk {
        return false;
      }
      ghost var goal := Resized(State(), newCap);
      ResizeIsSane(State(), cap, newCap);
      if Valid() && |Contents| <= DIB_LIMIT {
        ResizeKeepsMeaning(State(), getHash, Contents, newCap);
      }
      var n := RoundCapacity(newCap);
      var table := Rehash(n);
      UseTable(table, goal);
      return true;
    }

    /** The end of a resize: the new table takes the place of the old one. */
    method UseTable(table: array<Bucket<K, V>>, ghost goal: Raw<K, V>)
      requires Raw(table[..], count) == goal && Sane(goal, cap)
      modifies this`buckets, this`nbuckets, this`growat, this`shrinkat
      ensures Sound() && State() == goal && buckets == table && nbuckets == table.Length
    {
      buckets := table;
      nbuckets := table.Length;
      growat := GrowAt(nbuckets);
      shrinkat := ShrinkAt(nbuckets);
    }

    /** The outer loop of a resize: every stored item moves into a table of `n` empty buckets. */
    method Rehash(n: nat) returns (table: array<Bucket<K, V>>)
      requires |Occupied(buckets[..])| < n
      ensures fresh(table) && table[..] == Rehashed(buckets[..], buckets.Length, n)
      ensures forall m | Means(Raw(buckets[..], |m|), getHash, m) && |m| <= DIB_LIMIT ::
                Means(Raw(table[..], |m|), getHash, m)
    {
      ghost var b := buckets[..];
      forall m | Means(Raw(b, |m|), getHash, m) && |m| <= DIB_LIMIT
        ensures Means(Raw(Rehashed(b, |b|, n), |m|), getHash, m)
      {
        ResizeKeepsMeaning(Raw(b, |m|), getHash, m, n);
      }
      table := new Bucket<K, V>[n](_ => Empty);
      assert table[..] == Blank(n);
      for i := 0 to buckets.Length
        invariant table[..] == Rehashed(b, i, n)
      {
        var entry := buckets[i];
        assert entry == b[i];
        if entry.Full? {
          OccupiedGrows(b, i);
          RehashIsSane(b, i, n);
          Reinsert(table, entry.item, entry.hash);
        }
      }
    }

    /** hashmap_set: returns the replaced item; when growth is due and refused, nothing changes. */
    method Set(item: Item<K, V>, allocOk: bool) returns (replaced: Option<Item<K, V>>)
      requires Sound()
      modifies this, buckets
      ensures Sound() && (buckets == old(buckets) || fresh(buckets))
      ensures Done(State(), replaced, oom) == SetRaw(old(State()), getHash(item.key), item, allocOk)
      ensures Contents == if oom then old(Contents) else old(Contents)[item.key := item.value]
      ensures oom == (10 * (old(count) + 1) > 6 * old(nbuckets) && !allocOk)
      ensures nbuckets == if 10 * (old(count) + 1) > 6 * old(nbuckets) && allocOk
                          then 2 * old(nbuckets) else old(nbuckets)
      ensures old(Valid()) && |old(Contents)[item.key := item.value]| <= DIB_LIMIT ==>
        && Valid() && replaced == if oom then None else Lookup(old(Contents), item.key)
    {
      ghost var before := State();
      if Valid() && |Contents[item.key := item.value]| <= DIB_LIMIT {
        SetMeans(before, cap, getHash, Contents, item, allocOk);
      }
      MakeRoom(allocOk);
      if oom {
        return None;
      }
      replaced := Put(item);
      Contents := Contents[item.key := item.value];
    }

    /** The head of a set: a table that is too full grows, or the set reports lack of memory. */
    method MakeRoom(allocOk: bool)
      requires Sound()
      modifies this`buckets, this`nbuckets, this`growat, this`shrinkat, this`oom
      ensures Sound() && (buckets == old(buckets) || fresh(buckets))
      ensures oom == (10 * (count + 1) > 6 * old(nbuckets) && !allocOk)
      ensures State() == if 10 * (count + 1) > 6 * old(nbuckets) && allocOk
                         then Resized(old(State()), 2 * old(nbuckets)) else old(State())
      ensures !oom ==> !GrowthDue(count, nbuckets)
    {
      GrowthDueIff(count, nbuckets);
      ClearOom();
      if count >= growat {
        DoublingFits(nbuckets);
        var ok := Resize(nbuckets * 2, allocOk);
        oom := !ok;
      }
    }

    /** The rest of a set, with room for one more item. */
    method Put(item: Item<K, V>) returns (replaced: Option<Item<K, V>>)
      requires Sound() && !GrowthDue(count, nbuckets)
      modifies this`count, buckets
      ensures Sound() && Done(State(), replaced, false) == PutRaw(old(State()), getHash(item.key), item)
    {
      PutIsSane(State(), cap, getHash(item.key), item);
      replaced := Insert(item);
      count := if replaced.None? then count + 1 else count;
    }

    /** The loop of a set. */
    method Insert(item: Item<K, V>) returns (replaced: Option<Item<K, V>>)
      requires |Occupied(buckets[..])| < buckets.Length
      modifies buckets
      ensures var hash, n := getHash(item.key), buckets.Length;
              Placed(buckets[..], replaced) == Place(old(buckets[..]), Full(hash, 1, item), Home(hash, n), n, true)
      ensures forall m | HasRoom(old(buckets[..]), getHash, m, item) ::
                HasPlaced(Placed(buckets[..], replaced), getHash, m, item)
    {
      var table, n := buckets, buckets.Length;
      var entry := Full(getHash(item.key), 1, item);
      var i: nat := entry.hash % n;
      ghost var goal := Place(table[..], entry, i, n, true);
      forall m | HasRoom(table[..], getHash, m, item)
        ensures HasPlaced(goal, getHash, m, item)
      {
        PlaceFromHome(table[..], item, getHash, m, true);
      }
      ghost var free := EmptyBucketExists(table[..]);
      ghost var left := n;
      while true
        invariant i < n && entry.Full? && table[free].Empty? && Dist(i, free, n) < left
        invariant Place(table[..], entry, i, left, true) == goal
        decreases left
      {
        ghost var b := table[..];
        var bucket := table[i];
        if bucket.Empty? {
          table[i] := Copied(entry);
          assert table[..] == b[i := Copied(entry)];
          return None;
        }
        if entry.hash == bucket.hash && entry.item.key == bucket.item.key {
          table[i] := bucket.(item := entry.item);
          assert table[..] == b[i := bucket.(item := entry.item)];
          return Some(bucket.item);
        }
        if bucket.dib < entry.dib {
          table[i] := entry;
          assert table[..] == b[i := entry];
          entry := bucket;
        }
        i := Next(i, n);
        entry := entry.(dib := NextDib(entry.dib));
        left := left - 1;
      }
    }

    /** The probe loop of get and delete: the bucket that holds the key, or none. */
    method Probe(key: K) returns (at: Option<nat>)
      requires Sound()
      ensures at == Found(buckets[..], getHash(key), key, Home(getHash(key), nbuckets), nbuckets)
      ensures Valid() ==> (at.Some? <==> key in Contents)
      ensures Valid() && at.Some? ==> at.value < nbuckets && buckets[at.value].Full?
                                      && buckets[at.value].item == Item(key, Contents[key])
    {
      if Valid() {
        GetMeans(State(), getHash, Contents, key);
      }
      var hash := getHash(key);
      var i: nat := hash % nbuckets;
      ghost var goal := Found(buckets[..], hash, key, i, nbuckets);
      ghost var free := EmptyBucketExists(buckets[..]);
      ghost var left := nbuckets;
      while true
        invariant i < nbuckets && Dist(i, free, nbuckets) < left
        invariant Found(buckets[..], hash, key, i, left) == goal
        decreases left
      {
        var bucket := buckets[i];
        if bucket.Empty? {
          return None;
        }
        if bucket.hash == hash && bucket.item.key == key {
          return Some(i);
        }
        i := Next(i, nbuckets);
        left := left - 1;
      }
    }

    /** hashmap_get */
    method Get(key: K) returns (found: Option<Item<K, V>>)
      requires Sound()
      ensures found == GetRaw(State(), getHash(key), key)
      ensures Valid() ==> found == Lookup(Contents, key)
    {
      if Valid() {
        GetMeans(State(), getHash, Contents, key);
      }
      var at := Probe(key);
      found := if at.Some? then Some(buckets[at.value].item) else None;
    }

    /** hashmap_delete: backward-shift removal, then a shrink whose failure is ignored. */
    method Delete(key: K, allocOk: bool) returns (removed: Option<Item<K, V>>)
      requires Sound()
      modifies this, buckets
      ensures Sound() && (buckets == old(buckets) || fresh(buckets)) && !oom
      ensures Done(State(), removed, oom) == DeleteRaw(old(State()), cap, getHash(key), key, allocOk)
      ensures Contents == old(Contents) - {key}
      ensures nbuckets == if removed.Some? && old(nbuckets) > cap && 10 * count <= old(nbuckets) && allocOk
                          then old(nbuckets) / 2 else old(nbuckets)
      ensures old(Valid()) && |Contents| <= DIB_LIMIT ==> Valid() && removed == Lookup(old(Contents), key)
    {
      if Valid() && |Contents - {key}| <= DIB_LIMIT {
        DeleteMeans(State(), cap, getHash, Contents, key, allocOk);
      }
      ClearOom();
      Contents := Contents - {key};
      var at := Probe(key);
      if at.None? {
        removed := None;
      } else {
        removed := Some(buckets[at.value].item);
        RemoveAt(at.value);
        ShrinkIfSparse(allocOk);
      }
    }

    method ClearOom()
      requires Sound()
      modifies this`oom
      ensures Sound() && State() == old(State()) && !oom
    {
      oom := false;
    }

    /** Take the item out of its bucket. */
    method RemoveAt(at: nat)
      requires Sound() && at < nbuckets && buckets[at].Full?
      modifies this`count, buckets
      ensures Sound() && State() == RemoveRaw(old(State()), at)
      ensures forall m | Means(old(State()), getHash, m) :: Means(State(), getHash, m - {old(buckets[at].item.key)})
    {
      forall m | Means(State(), getHash, m)
        ensures Means(RemoveRaw(State(), at), getHash, m - {buckets[at].item.key})
      {
        RemoveMeans(State(), getHash, m, at);
      }
      RemoveIsSane(State(), cap, at);
      ShiftBack(at);
      count := count - 1;
    }

    /** The tail of a delete; whether the memory is granted does not matter. */
    method ShrinkIfSparse(allocOk: bool)
      requires Sound()
      modifies this`buckets, this`nbuckets, this`growat, this`shrinkat
      ensures Sound() && (buckets == old(buckets) || fresh(buckets))
      ensures State() == ShrinkRaw(old(State()), cap, allocOk)
      ensures nbuckets == if old(nbuckets) > cap && 10 * count <= old(nbuckets) && allocOk
                          then old(nbuckets) / 2 else old(nbuckets)
      ensures nbuckets == old(nbuckets) ==> unchanged(this)
      ensures old(Valid()) && |Contents| <= DIB_LIMIT ==> Valid()
    {
      ShrinkDueIff(count, nbuckets, cap);
      if nbuckets > cap && count <= shrinkat {
        ShrinkFits(nbuckets, cap);
        var _ := Resize(nbuckets / 2, allocOk);
      }
    }

    /** The inner loop of a delete: close the gap at bucket `at` by shifting back what follows. */
    method ShiftBack(at: nat)
      requires at < buckets.Length && buckets[at].Full? && |Occupied(buckets[..])| < buckets.Length
      modifies buckets
      ensures buckets[..] == Shifted(old(buckets[..]), at, buckets.Length)
      ensures forall m | Table(old(buckets[..]), getHash, m) && |Occupied(old(buckets[..]))| == |m| ::
                Table(buckets[..], getHash, m - {old(buckets[at].item.key)})
    {
      forall m | Table(buckets[..], getHash, m) && |Occupied(buckets[..])| == |m|
        ensures Table(Shifted(buckets[..], at, buckets.Length), getHash, m - {buckets[at].item.key})
      {
        RemoveMeans(Raw(buckets[..], |m|), getHash, m, at);
      }
      var table, n := buckets, buckets.Length;
      ghost var t := table[..];
      ghost var free := EmptyBucketExists(t);
      ghost var left := n;
      table[at] := Empty;
      assert table[..] == t[at := Empty];
      HoleIsStale(t, at, left);
      var prev: nat, i: nat := at, Next(at, n);
      while Dib(table[i]) > 1
        invariant prev < n && i == Next(prev, n) && prev != free
        invariant table[free].Empty? && Dist(prev, free, n) < left
        invariant Shifted(table[..], prev, left) == Shifted(t, at, n)
        decreases left
      {
        ghost var b := table[..];
        table[prev] := table[i].(dib := table[i].dib - 1);
        assert table[..] == b[prev := b[i].(dib := b[i].dib - 1)];
        prev, i := i, Next(i, n);
        left := left - 1;
      }
      ghost var b := table[..];
      table[prev] := Empty;
      assert table[..] == b[prev := Empty];
    }

    /** hashmap_count */
    method Count() returns (n: nat)
      requires Sound()
      ensures n == count < nbuckets
      ensures Valid() ==> n == |Contents|
    {
      n := count;
    }
  }

  /** What the bucket of the hole still holds does not matter. */
  lemma HoleIsStale<K, V>(t: seq<Bucket<K, V>>, p: nat, left: nat)
    requires p < |t| && |t| > 1
    ensures Shifted(t[p := Empty], p, left) == Shifted(t, p, left)
  {
    var t', next := t[p := Empty], t[Next(p, |t|)];
    assert t'[p := Empty] == t[p := Empty];
    if Dib(next) > 1 {
      var moved := next.(dib := next.dib - 1);
      assert t'[p := moved] == t[p := moved];
    }
  }
}
