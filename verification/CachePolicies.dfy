/** The replacement policies inside the cache machine: the order that a policy computes is one that
    the steps of the machine allow, so what holds for every order holds for FIFO, LFU and LRU. */
module CachePolicies {
  import opened Wrappers
  import CacheMachine
  import opened PolicyOrder
  import opened PolicyTraces

  lemma IdsReinsert(rest: seq<Entry>, e: Entry, end: nat)
    requires end <= |rest|
    ensures multiset(Ids(Reinsert(rest, e, end))) == multiset(Ids(rest)) + multiset{e.id}
  {
    assert |Ids(rest)| == |rest|;
    assert Ids(Reinsert(rest, e, end)) == Ids(rest)[..end] + [e.id] + Ids(rest)[end..];
    assert Ids(rest) == Ids(rest)[..end] + Ids(rest)[end..];
  }

  lemma IdsOnce(q: seq<Entry>, at: nat)
    requires DistinctIds(q) && at < |q|
    ensures multiset(Ids(Without(q, at))) == multiset(Ids(q))[q[at].id := 0]
    ensures multiset(Ids(q))[q[at].id] == 1
  {
    IdsWithout(q, at);
    var ids := Ids(q);
    assert ids == ids[..at] + [ids[at]] + ids[at + 1..];
    assert q[at].id !in ids[..at] && q[at].id !in ids[at + 1..];
  }

  lemma IdsNever(q: seq<Entry>, id: nat)
    requires Find(q, id).None?
    ensures multiset(Ids(q))[id] == 0
  {
    assert |Ids(q)| == |q|;
    assert id !in Ids(q);
  }

  /** An access under any policy yields an order that a read or write step may take. */
  lemma AccessOrderIsAllowed(kind: Kind, q: seq<Entry>, id: nat, now: nat, time: nat)
    requires DistinctIds(q)
    ensures CacheMachine.Touched(Ids(q), id, Ids(Apply(kind, q, AccessOp(id, now), time)))
  {
    var at := Find(q, id);
    if at.Some? {
      var end := AccessReinserts(kind, q, at.value, now, time);
      IdsReinsert(Without(q, at.value), Touch(kind, q[at.value], now, time), end);
      IdsOnce(q, at.value);
    } else {
      var end := InsertReinserts(kind, q, Entry(id, 0, 0, 0), now, time);
      IdsReinsert(q, Touch(kind, Entry(id, 0, 0, 0), now, time), end);
      IdsNever(q, id);
    }
  }

  lemma DeleteForgets(kind: Kind, q: seq<Entry>, victim: nat, time: nat)
    requires Sound(q, time) && Find(q, victim).Some?
    ensures DistinctIds(Apply(kind, q, DeleteOp(victim), time))
    ensures multiset(Ids(Apply(kind, q, DeleteOp(victim), time))) == multiset(Ids(q))[victim := 0]
  {
    var at := Find(q, victim).value;
    IdsOnce(q, at);
    WithoutKeepsSound(q, at, time);
  }

  lemma InsertAfterDelete(kind: Kind, rest: seq<Entry>, policy: multiset<nat>, victim: nat, incoming: nat,
                          now: nat, time: nat)
    requires DistinctIds(rest) && multiset(Ids(rest)) == policy[victim := 0]
    ensures multiset(Ids(Apply(kind, rest, AccessOp(incoming, now), time))) == policy[victim := 0][incoming := 1]
  {
    AccessOrderIsAllowed(kind, rest, incoming, now, time);
  }

  /** Deleting the victim that a policy names and then inserting the new buffer yields an order that
      an eviction step may take. */
  lemma EvictionOrderIsAllowed(kind: Kind, q: seq<Entry>, rest: seq<Entry>, incoming: nat, now: nat, time: nat)
    requires Sound(q, time) && q != []
    requires rest == Apply(kind, q, DeleteOp(q[0].id), time)
    ensures multiset(Ids(Apply(kind, rest, AccessOp(incoming, now), time + 1)))
         == multiset(Ids(q))[q[0].id := 0][incoming := 1]
  {
    DeleteForgets(kind, q, q[0].id, time);
    InsertAfterDelete(kind, rest, multiset(Ids(q)), q[0].id, incoming, now, time + 1);
  }
}
