/** The orders that the replacement policies of shared/replacement_policy.c keep, as functions on
    the sequence of deque entries, victim first. */
module PolicyOrder {

  datatype Kind = Fifo | Lfu | Lru

  const WORD_RANGE: nat := 0x1_0000_0000

  /** A buffer header in a policy deque: its 32-bit access count, its 64-bit timestamp, and when it
      was last accessed on the scale of the accesses themselves. */
  datatype Entry = Entry(id: nat, count: nat, stamp: nat, time: nat)

  /** What the walk of a policy compares, both as unsigned int: a timestamp is truncated. */
  function Key(kind: Kind, e: Entry): nat {
    match kind
    case Fifo => 0
    case Lfu => e.count
    case Lru => e.stamp % WORD_RANGE
  }

  function SwapNext(q: seq<Entry>, at: nat): (r: seq<Entry>)
    requires at + 1 < |q|
    ensures |r| == |q|
  {
    q[at := q[at + 1]][at + 1 := q[at]]
  }

  /** The loop of LFU and LRU: the entry moves towards the end while its key is not less than the next one. */
  function Walk(kind: Kind, q: seq<Entry>, at: nat): (r: seq<Entry>)
    requires at < |q|
    ensures |r| == |q|
    decreases |q| - at
  {
    if at + 1 < |q| && Key(kind, q[at]) >= Key(kind, q[at + 1]) then Walk(kind, SwapNext(q, at), at + 1) else q
  }

  function Without(q: seq<Entry>, at: nat): (r: seq<Entry>)
    requires at < |q|
    ensures |r| == |q| - 1
  {
    q[..at] + q[at + 1..]
  }

  /** The entry after an access at the given timestamp. */
  function Touch(kind: Kind, e: Entry, now: nat, time: nat): Entry {
    match kind
    case Fifo => e.(time := time)
    case Lfu => e.(count := (e.count + 1) % WORD_RANGE, time := time)
    case Lru => e.(stamp := now, time := time)
  }

  /** updateAccessInfo for an entry that is in the deque at position `at`. */
  function Access(kind: Kind, q: seq<Entry>, at: nat, now: nat, time: nat): seq<Entry>
    requires at < |q|
  {
    var e := Touch(kind, q[at], now, time);
    if kind == Fifo then Without(q, at) + [e] else Walk(kind, q[at := e], at)
  }

  /** updateAccessInfo for a header that is not in the deque yet. */
  function Insert(kind: Kind, q: seq<Entry>, fresh': Entry, now: nat, time: nat): seq<Entry> {
    var e := Touch(kind, fresh', now, time);
    if kind == Lfu then Walk(kind, [e] + q, 0) else q + [e]
  }

  ghost predicate DistinctIds(q: seq<Entry>) {
    forall i, j | 0 <= i < j < |q| :: q[i].id != q[j].id
  }

  lemma WithoutIsDistinct(q: seq<Entry>, at: nat)
    requires DistinctIds(q) && at < |q|
    ensures DistinctIds(Without(q, at)) && forall i | 0 <= i < |q| - 1 :: Without(q, at)[i].id != q[at].id
  {
  }

  function Ids(q: seq<Entry>): seq<nat> {
    seq(|q|, i requires 0 <= i < |q| => q[i].id)
  }

  /** Where a walk ends. */
  function WalkEnd(kind: Kind, q: seq<Entry>, at: nat): (end: nat)
    requires at < |q|
    ensures at <= end < |q|
    decreases |q| - at
  {
    if at + 1 < |q| && Key(kind, q[at]) >= Key(kind, q[at + 1]) then WalkEnd(kind, SwapNext(q, at), at + 1) else at
  }

  /** A walk takes one entry out at `at` and puts it back at its end, changing nothing else. */
  lemma {:induction false} WalkMoves(kind: Kind, q: seq<Entry>, at: nat)
    requires at < |q|
    ensures var end, rest := WalkEnd(kind, q, at), Without(q, at);
            Walk(kind, q, at) == rest[..end] + [q[at]] + rest[end..]
    decreases |q| - at
  {
    if at + 1 < |q| && Key(kind, q[at]) >= Key(kind, q[at + 1]) {
      assert Without(SwapNext(q, at), at + 1) == Without(q, at);
      WalkMoves(kind, SwapNext(q, at), at + 1);
    }
  }

  function Reinsert(rest: seq<Entry>, e: Entry, end: nat): (r: seq<Entry>)
    requires end <= |rest|
    ensures |r| == |rest| + 1
  {
    rest[..end] + [e] + rest[end..]
  }

  /** An access takes the entry out, touches it and puts it back somewhere. */
  lemma AccessReinserts(kind: Kind, q: seq<Entry>, at: nat, now: nat, time: nat) returns (end: nat)
    requires at < |q|
    ensures end < |q|
    ensures Access(kind, q, at, now, time) == Reinsert(Without(q, at), Touch(kind, q[at], now, time), end)
  {
    var w := q[at := Touch(kind, q[at], now, time)];
    assert Without(w, at) == Without(q, at);
    WalkMoves(kind, w, at);
    end := if kind == Fifo then |q| - 1 else WalkEnd(kind, w, at);
  }

  lemma InsertReinserts(kind: Kind, q: seq<Entry>, fresh': Entry, now: nat, time: nat) returns (end: nat)
    ensures end <= |q|
    ensures Insert(kind, q, fresh', now, time) == Reinsert(q, Touch(kind, fresh', now, time), end)
  {
    var w := [Touch(kind, fresh', now, time)] + q;
    assert Without(w, 0) == q;
    WalkMoves(kind, w, 0);
    end := if kind == Lfu then WalkEnd(kind, w, 0) else |q|;
  }

  /** Every entry a walk passes has a key not above that of the walking one, and the next one has. */
  lemma {:induction false} WalkStops(kind: Kind, q: seq<Entry>, at: nat)
    requires at < |q|
    ensures var end := WalkEnd(kind, q, at);
            && (forall j | at < j <= end :: Key(kind, q[j]) <= Key(kind, q[at]))
            && (end + 1 < |q| ==> Key(kind, q[end + 1]) > Key(kind, q[at]))
    decreases |q| - at
  {
    if at + 1 < |q| && Key(kind, q[at]) >= Key(kind, q[at + 1]) {
      var w := SwapNext(q, at);
      WalkStops(kind, w, at + 1);
      assert forall j | at + 1 < j < |q| :: w[j] == q[j];
    }
  }

  // ---------- LFU ----------

  /** `a` is used less than `b`, or equally often but not as recently. */
  predicate Before(a: Entry, b: Entry) {
    a.count < b.count || (a.count == b.count && a.time < b.time)
  }

  ghost predicate LfuSorted(q: seq<Entry>) {
    forall i, j | 0 <= i < j < |q| :: Before(q[i], q[j])
  }

  ghost predicate InPast(q: seq<Entry>, time: nat) {
    forall i | 0 <= i < |q| :: q[i].time < time
  }

  /** What stands before an entry, or is passed by its walk, comes before it. */
  lemma FitsLeft(q: seq<Entry>, at: nat, i: nat)
    requires at < |q| && i < |q| - 1 && LfuSorted(Without(q, at))
    requires i < at ==> Before(q[at - 1], q[at])
    requires i >= at ==> q[i + 1].count <= q[at].count && q[i + 1].time < q[at].time
    ensures Before(Without(q, at)[i], q[at])
  {
    var rest := Without(q, at);
    if i < at {
      assert rest[at - 1] == q[at - 1];
      assert i < at - 1 ==> Before(rest[i], rest[at - 1]);
    } else {
      assert rest[i] == q[i + 1];
    }
  }

  /** What stands behind the entry that stops a walk comes after the walking one. */
  lemma FitsRight(q: seq<Entry>, at: nat, end: nat, i: nat)
    requires at <= end <= i < |q| - 1 && LfuSorted(Without(q, at)) && q[at].count < q[end + 1].count
    ensures Before(q[at], Without(q, at)[i])
  {
    var rest := Without(q, at);
    assert rest[end] == q[end + 1];
    assert end < i ==> Before(rest[end], rest[i]);
  }

  /** Where the walk ends, everything to the left comes before and everything to the right after. */
  lemma WalkFits(q: seq<Entry>, at: nat)
    requires at < |q| && LfuSorted(Without(q, at))
    requires forall i | 0 <= i < |q| && i != at :: q[i].time < q[at].time
    requires at == 0 || Before(q[at - 1], q[at])
    ensures var end, rest := WalkEnd(Lfu, q, at), Without(q, at);
      && at <= end < |q|
      && (forall i | 0 <= i < end :: Before(rest[i], q[at]))
      && (forall i | end <= i < |rest| :: Before(q[at], rest[i]))
  {
    WalkMoves(Lfu, q, at);
    WalkStops(Lfu, q, at);
    var end, rest := WalkEnd(Lfu, q, at), Without(q, at);
    forall i | 0 <= i < end
      ensures Before(rest[i], q[at])
    {
      assert i >= at ==> Key(Lfu, q[i + 1]) <= Key(Lfu, q[at]);
      FitsLeft(q, at, i);
    }
    forall i | end <= i < |rest|
      ensures Before(q[at], rest[i])
    {
      FitsRight(q, at, end, i);
    }
  }

  lemma ReinsertSorted(rest: seq<Entry>, e: Entry, end: nat)
    requires LfuSorted(rest) && end <= |rest|
    requires forall i | 0 <= i < end :: Before(rest[i], e)
    requires forall i | end <= i < |rest| :: Before(e, rest[i])
    ensures LfuSorted(Reinsert(rest, e, end))
  {
    var r := Reinsert(rest, e, end);
    forall i, j | 0 <= i < j < |r|
      ensures Before(r[i], r[j])
    {
      if i != end && j != end {
        assert Before(rest[if i < end then i else i - 1], rest[if j < end then j else j - 1]);
      }
    }
  }

  /** The walk of the latest entry sorts the deque if and only if its left neighbour precedes it. */
  lemma WalkSorts(q: seq<Entry>, at: nat)
    requires at < |q| && LfuSorted(Without(q, at))
    requires forall i | 0 <= i < |q| && i != at :: q[i].time < q[at].time
    ensures LfuSorted(Walk(Lfu, q, at)) <==> at == 0 || Before(q[at - 1], q[at])
  {
    WalkMoves(Lfu, q, at);
    var end, r := WalkEnd(Lfu, q, at), Walk(Lfu, q, at);
    if at == 0 || Before(q[at - 1], q[at]) {
      WalkFits(q, at);
      ReinsertSorted(Without(q, at), q[at], end);
    } else {
      assert r[at - 1] == q[at - 1] && r[end] == q[at];
    }
  }

  /** An access to a present buffer keeps the deque sorted by (count, last access) if and only if
      its count does not wrap, or it has nothing but zero counts before it. */
  lemma LfuAccessSorted(q: seq<Entry>, at: nat, now: nat, time: nat)
    requires at < |q| && LfuSorted(q) && InPast(q, time) && forall i | 0 <= i < |q| :: q[i].count < WORD_RANGE
    ensures LfuSorted(Access(Lfu, q, at, now, time)) <==>
              q[at].count + 1 < WORD_RANGE || at == 0 || q[at - 1].count == 0
  {
    var e := Touch(Lfu, q[at], now, time);
    var w := q[at := e];
    assert Without(w, at) == Without(q, at);
    WalkSorts(w, at);
    if at > 0 {
      assert Before(q[at - 1], q[at]);
    }
  }

  /** A new buffer always finds its sorted place. */
  lemma LfuInsertSorted(q: seq<Entry>, fresh': Entry, now: nat, time: nat)
    requires LfuSorted(q) && InPast(q, time)
    ensures LfuSorted(Insert(Lfu, q, fresh', now, time))
  {
    var w := [Touch(Lfu, fresh', now, time)] + q;
    assert Without(w, 0) == q;
    WalkSorts(w, 0);
  }

  lemma LfuDeleteSorted(q: seq<Entry>, at: nat)
    requires at < |q| && LfuSorted(q)
    ensures LfuSorted(Without(q, at))
  {
    var r := Without(q, at);
    forall i, j | 0 <= i < j < |r|
      ensures Before(r[i], r[j])
    {
      assert Before(q[if i < at then i else i + 1], q[if j < at then j else j + 1]);
    }
  }

  /** The victim of a sorted LFU deque is the least used buffer and, among ties, the one touched longest ago. */
  lemma LfuVictim(q: seq<Entry>, i: nat)
    requires LfuSorted(q) && i < |q|
    ensures q[0].count < q[i].count || (q[0].count == q[i].count && q[0].time <= q[i].time)
  {
  }

  // ---------- LRU and FIFO ----------

  /** An LRU access moves the buffer behind all others, as a FIFO access does, if and only if the
      truncated timestamps behind it do not exceed the truncated present. */
  lemma LruAccessIsFifoAccess(q: seq<Entry>, at: nat, now: nat, time: nat)
    requires at < |q| && DistinctIds(q)
    ensures Ids(Access(Lru, q, at, now, time)) == Ids(Access(Fifo, q, at, now, time)) <==>
              forall j | at < j < |q| :: q[j].stamp % WORD_RANGE <= now % WORD_RANGE
  {
    var e := Touch(Lru, q[at], now, time);
    var w := q[at := e];
    WalkMoves(Lru, w, at);
    WalkStops(Lru, w, at);
    var end := WalkEnd(Lru, w, at);
    var lru, fifo := Access(Lru, q, at, now, time), Access(Fifo, q, at, now, time);
    if end + 1 == |q| {
      forall j | at < j < |q|
        ensures q[j].stamp % WORD_RANGE <= now % WORD_RANGE
      {
        assert w[j] == q[j];
      }
      assert Ids(lru) == Ids(fifo);
    } else {
      assert w[end + 1] == q[end + 1];
      assert Ids(lru)[end] == q[at].id;
      assert Ids(fifo)[|q| - 1] == q[at].id;
      assert Ids(lru)[|q| - 1] == q[|q| - 1].id;
    }
  }

  /** Timestamps that do not decrease and lie in the same 32-bit period meet that condition. */
  lemma SamePeriodKeepsOrder(stamp: nat, now: nat)
    requires stamp <= now && stamp / WORD_RANGE == now / WORD_RANGE
    ensures stamp % WORD_RANGE <= now % WORD_RANGE
  {
  }

  /** Across a wrap of the truncated clock an LRU access can leave the buffer first in line for eviction. */
  lemma LruFailsAcrossWrap()
    ensures var q := [Entry(0, 0, 5, 0), Entry(1, 0, 0xFFFF_FFFF, 1)];
            Ids(Access(Lru, q, 0, 0x1_0000_0000, 2)) == [0, 1] && Ids(Access(Fifo, q, 0, 0x1_0000_0000, 2)) == [1, 0]
  {
    var q := [Entry(0, 0, 5, 0), Entry(1, 0, 0xFFFF_FFFF, 1)];
    var e := Touch(Lru, q[0], 0x1_0000_0000, 2);
    assert Key(Lru, e) == 0 && Key(Lru, q[1]) == 0xFFFF_FFFF;
    assert Access(Lru, q, 0, 0x1_0000_0000, 2) == [e, q[1]];
    assert Access(Fifo, q, 0, 0x1_0000_0000, 2) == [q[1], q[0].(time := 2)];
  }
}
