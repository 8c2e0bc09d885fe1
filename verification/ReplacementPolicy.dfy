/** The replacement policies of shared/replacement_policy.c over the linked deque. */
module ReplacementPolicy {
  import opened Wrappers
  import opened PolicyOrder
  import opened Deque

  /** The part of a buffer header that a policy uses. The source has one node field for each policy;
      only that of the primary policy is ever set. */
  class BufferHeader {
    ghost const id: nat
    var accessCount: nat
    var timestamp: nat
    ghost var time: nat
    var node: DequeNode?<BufferHeader>

    constructor (ghost id: nat)
      ensures this.id == id && accessCount == 0 && timestamp == 0 && node == null
    {
      this.id := id;
      accessCount, timestamp, node := 0, 0, null;
      time := 0;
    }

    ghost function Snapshot(): Entry
      reads this
    {
      Entry(id, accessCount, timestamp, time)
    }
  }

  lemma SwapKeepsMembers<T>(s: seq<T>, k: nat)
    requires k + 1 < |s|
    ensures forall x | x in s[k := s[k + 1]][k + 1 := s[k]] :: x in s
  {
  }

  class Policy {
    const kind: Kind
    const deque: LinkedDeque<BufferHeader>
    ghost var entries: seq<Entry>

    /** The header at position `i` knows its node, and stands for entry `i`. */
    ghost predicate Stands(i: int)
      requires 0 <= i < |deque.nodes| == |entries|
      reads this, deque, set n | n in deque.nodes :: n.value
    {
      deque.nodes[i].value.node == deque.nodes[i] && deque.nodes[i].value.Snapshot() == entries[i]
    }

    ghost predicate Valid()
      reads this, deque, deque.nodes, set n | n in deque.nodes :: n.value
    {
      && deque.Valid()
      && |entries| == |deque.nodes|
      && (forall i | 0 <= i < |deque.nodes| :: Stands(i))
      && DistinctIds(entries)
    }

    constructor (kind: Kind)
      ensures Valid() && this.kind == kind && entries == []
    {
      this.kind := kind;
      deque := new LinkedDeque<BufferHeader>();
      entries := [];
    }

    /** getEvictableNode */
    method GetEvictable() returns (victim: BufferHeader?)
      requires Valid()
      ensures entries == [] ==> victim == null
      ensures entries != [] ==> victim != null && victim.Snapshot() == entries[0]
    {
      assert entries != [] ==> Stands(0);
      victim := if deque.first == null then null else deque.first.value;
    }

    function KeyOf(header: BufferHeader): (key: nat)
      reads header
    {
      match kind
      case Fifo => 0
      case Lfu => header.accessCount
      case Lru => header.timestamp % WORD_RANGE
    }

    /** The loop of LFU and LRU: switch the node with its successor while its key is not less. */
    method WalkRight(header: BufferHeader, ghost start: nat)
      requires Valid() && start < |deque.nodes| && deque.nodes[start].value == header
      modifies this`entries, deque, deque.nodes
      ensures Valid() && entries == Walk(kind, old(entries), start)
      ensures forall i | 0 <= i < |deque.nodes| :: deque.nodes[i] in old(deque.nodes)
    {
      assert Stands(start);
      var node: DequeNode<BufferHeader> := header.node;
      var key := KeyOf(header);
      ghost var at: nat := start;
      assert deque.Linked(at);
      var next := node.next;
      while next != null
        invariant at < |deque.nodes| && deque.nodes[at] == node && next == deque.Node(at + 1)
        invariant Valid() && forall i | 0 <= i < |deque.nodes| :: deque.nodes[i] in old(deque.nodes)
        invariant Walk(kind, entries, at) == Walk(kind, old(entries), start)
        decreases |deque.nodes| - at
      {
        assert Stands(at) && Stands(at + 1);
        if key >= KeyOf(next.value) {
          next := Pass(node, next, at);
          at := at + 1;
        } else {
          break;
        }
      }
      assert Stands(at);
    }

    /** One round of the walk: the node changes places with the next one. */
    method Pass(node: DequeNode<BufferHeader>, next: DequeNode<BufferHeader>, ghost at: nat)
      returns (beyond: DequeNode?<BufferHeader>)
      requires Valid() && at + 1 < |deque.nodes| && deque.nodes[at] == node && deque.nodes[at + 1] == next
      requires Key(kind, entries[at]) >= Key(kind, entries[at + 1])
      modifies this`entries, deque, deque.nodes
      ensures Valid() && |entries| == old(|entries|) && Walk(kind, entries, at + 1) == Walk(kind, old(entries), at)
      ensures deque.nodes[at + 1] == node && beyond == deque.Node(at + 2)
      ensures forall i | 0 <= i < |deque.nodes| :: deque.nodes[i] in old(deque.nodes)
    {
      SwapKeepsMembers(deque.nodes, at);
      Switch(node, next, at);
      assert deque.Linked(at + 1);
      beyond := node.next;
    }

    method Switch(node: DequeNode<BufferHeader>, next: DequeNode<BufferHeader>, ghost at: nat)
      requires Valid() && at + 1 < |deque.nodes| && deque.nodes[at] == node && deque.nodes[at + 1] == next
      modifies this`entries, deque, deque.nodes
      ensures Valid() && entries == SwapNext(old(entries), at)
      ensures deque.nodes == old(deque.nodes)[at := next][at + 1 := node]
    {
      deque.SwitchNode(node, next, at);
      entries := SwapNext(entries, at);
      forall i | 0 <= i < |deque.nodes|
        ensures Stands(i)
      {
        assert old(Stands(i)) && old(Stands(at)) && old(Stands(at + 1));
      }
    }

    /** The header is in the deque at the given position, or is new to it. */
    ghost predicate Known(header: BufferHeader, at: Option<nat>)
      requires Valid()
      reads this, deque, deque.nodes, header, set n | n in deque.nodes :: n.value
    {
      match at
      case Some(i) => i < |deque.nodes| && deque.nodes[i].value == header
      case None => header.node == null && forall i | 0 <= i < |entries| :: entries[i].id != header.id
    }

    /** updateAccessInfo, dispatched on the primary policy. */
    method UpdateAccessInfo(header: BufferHeader, now: nat, ghost time: nat, ghost at: Option<nat>)
      requires Valid() && Known(header, at)
      modifies this`entries, deque, deque.nodes, header
      ensures Valid()
      ensures entries == if at.Some? then Access(kind, old(entries), at.value, now, time)
                         else Insert(kind, old(entries), old(header.Snapshot()), now, time)
      ensures forall i | 0 <= i < |deque.nodes| :: deque.nodes[i] in old(deque.nodes) || fresh(deque.nodes[i])
    {
      match kind
      case Fifo => UpdateFifo(header, now, time, at);
      case Lfu => UpdateLfu(header, now, time, at);
      case Lru => UpdateLru(header, now, time, at);
    }

    /** Take the header's node out of the deque. */
    method Remove(header: BufferHeader, ghost at: nat)
      requires Valid() && Known(header, Some(at))
      modifies this`entries, deque, deque.nodes
      ensures Valid() && entries == Without(old(entries), at)
      ensures forall i | 0 <= i < |entries| :: entries[i].id != header.id
      ensures forall i | 0 <= i < |deque.nodes| :: deque.nodes[i] in old(deque.nodes)
    {
      assert Stands(at);
      WithoutIsDistinct(entries, at);
      var _ := deque.PopAt(header.node, at);
      entries := Without(entries, at);
      forall i | 0 <= i < |deque.nodes|
        ensures Stands(i) && deque.nodes[i] in old(deque.nodes)
      {
        var j := if i < at then i else i + 1;
        assert deque.nodes[i] == old(deque.nodes)[j] && old(Stands(j));
      }
    }

    /** Put a header that is not in the deque at its end. */
    method Append(header: BufferHeader)
      requires Valid() && forall i | 0 <= i < |entries| :: entries[i].id != header.id
      modifies this`entries, deque, deque.nodes, header`node
      ensures Valid() && entries == old(entries) + [old(header.Snapshot())]
      ensures forall i | 0 <= i < |deque.nodes| :: deque.nodes[i] in old(deque.nodes) || fresh(deque.nodes[i])
    {
      var node := deque.PushLast(header);
      header.node := node;
      entries := entries + [header.Snapshot()];
      forall i | 0 <= i < |deque.nodes|
        ensures Stands(i)
      {
        assert i < |deque.nodes| - 1 ==> old(Stands(i));
      }
    }

    method UpdateFifo(header: BufferHeader, ghost now: nat, ghost time: nat, ghost at: Option<nat>)
      requires kind == Fifo && Valid() && Known(header, at)
      modifies this`entries, deque, deque.nodes, header
      ensures Valid()
      ensures entries == if at.Some? then Access(kind, old(entries), at.value, now, time)
                         else Insert(kind, old(entries), old(header.Snapshot()), now, time)
      ensures forall i | 0 <= i < |deque.nodes| :: deque.nodes[i] in old(deque.nodes) || fresh(deque.nodes[i])
    {
      assert at.Some? ==> Stands(at.value);
      if header.node != null {
        Remove(header, at.value);
      }
      SetTime(header, time);
      Append(header);
    }

    ghost method SetTime(header: BufferHeader, time: nat)
      requires Valid() && forall i | 0 <= i < |entries| :: entries[i].id != header.id
      modifies header`time
      ensures Valid() && header.time == time
    {
      header.time := time;
      forall i | 0 <= i < |deque.nodes|
        ensures Stands(i)
      {
        assert old(Stands(i));
      }
    }

    /** The access is counted in 32 bits, for a header in the deque or not. */
    method CountAccess(header: BufferHeader, ghost now: nat, ghost time: nat, ghost at: Option<nat>)
      requires kind == Lfu && Valid() && Known(header, at)
      modifies this`entries, header
      ensures Valid() && header.node == old(header.node)
      ensures header.Snapshot() == Touch(Lfu, old(header.Snapshot()), now, time)
      ensures entries == if at.Some? then old(entries)[at.value := header.Snapshot()] else old(entries)
    {
      assert at.Some? ==> Stands(at.value);
      header.accessCount := (header.accessCount + 1) % WORD_RANGE;
      header.time := time;
      forall i | 0 <= i < |deque.nodes| && at != Some(i)
        ensures Stands(i)
      {
        assert old(Stands(i));
      }
      if at.Some? {
        TouchEntry(header, at.value);
      }
    }

    method UpdateLfu(header: BufferHeader, ghost now: nat, ghost time: nat, ghost at: Option<nat>)
      requires kind == Lfu && Valid() && Known(header, at)
      modifies this`entries, deque, deque.nodes, header
      ensures Valid()
      ensures entries == if at.Some? then Access(kind, old(entries), at.value, now, time)
                         else Insert(kind, old(entries), old(header.Snapshot()), now, time)
      ensures forall i | 0 <= i < |deque.nodes| :: deque.nodes[i] in old(deque.nodes) || fresh(deque.nodes[i])
    {
      assert at.Some? ==> Stands(at.value);
      CountAccess(header, now, time, at);
      if header.node != null {
        WalkRight(header, at.value);
      } else {
        PrependAndWalk(header);
      }
    }

    method PrependAndWalk(header: BufferHeader)
      requires Valid() && forall i | 0 <= i < |entries| :: entries[i].id != header.id
      modifies this`entries, deque, deque.nodes, header`node
      ensures Valid() && entries == Walk(kind, [old(header.Snapshot())] + old(entries), 0)
      ensures forall i | 0 <= i < |deque.nodes| :: deque.nodes[i] in old(deque.nodes) || fresh(deque.nodes[i])
    {
      Prepend(header);
      WalkRight(header, 0);
    }

    /** Put a header that is not in the deque at its front. */
    method Prepend(header: BufferHeader)
      requires Valid() && forall i | 0 <= i < |entries| :: entries[i].id != header.id
      modifies this`entries, deque, deque.nodes, header`node
      ensures Valid() && entries == [old(header.Snapshot())] + old(entries)
      ensures |deque.nodes| > 0 && deque.nodes[0].value == header
      ensures forall i | 0 <= i < |deque.nodes| :: deque.nodes[i] in old(deque.nodes) || fresh(deque.nodes[i])
    {
      var node := deque.PushFirst(header);
      header.node := node;
      entries := [header.Snapshot()] + entries;
      forall i | 0 <= i < |deque.nodes|
        ensures Stands(i)
      {
        assert i > 0 ==> old(Stands(i - 1));
      }
    }

    /** The header is stamped, whether it is in the deque or not. */
    method StampAccess(header: BufferHeader, now: nat, ghost time: nat, ghost at: Option<nat>)
      requires kind == Lru && Valid() && Known(header, at)
      modifies this`entries, header
      ensures Valid() && header.node == old(header.node)
      ensures header.Snapshot() == Touch(Lru, old(header.Snapshot()), now, time)
      ensures entries == if at.Some? then old(entries)[at.value := header.Snapshot()] else old(entries)
    {
      assert at.Some? ==> Stands(at.value);
      header.timestamp := now;
      header.time := time;
      forall i | 0 <= i < |deque.nodes| && at != Some(i)
        ensures Stands(i)
      {
        assert old(Stands(i));
      }
      if at.Some? {
        TouchEntry(header, at.value);
      }
    }

    method UpdateLru(header: BufferHeader, now: nat, ghost time: nat, ghost at: Option<nat>)
      requires kind == Lru && Valid() && Known(header, at)
      modifies this`entries, deque, deque.nodes, header
      ensures Valid()
      ensures entries == if at.Some? then Access(kind, old(entries), at.value, now, time)
                         else Insert(kind, old(entries), old(header.Snapshot()), now, time)
      ensures forall i | 0 <= i < |deque.nodes| :: deque.nodes[i] in old(deque.nodes) || fresh(deque.nodes[i])
    {
      assert at.Some? ==> Stands(at.value);
      StampAccess(header, now, time, at);
      if header.node != null {
        WalkRight(header, at.value);
      } else {
        Append(header);
      }
    }

    /** The fields of a header in the deque have changed; so does its entry. */
    ghost method TouchEntry(header: BufferHeader, at: nat)
      requires deque.Valid() && at < |deque.nodes| == |entries| && deque.nodes[at].value == header
      requires header.node == deque.nodes[at] && header.id == entries[at].id && DistinctIds(entries)
      requires forall i | 0 <= i < |deque.nodes| && i != at :: Stands(i)
      modifies this`entries
      ensures Valid() && entries == old(entries)[at := header.Snapshot()]
    {
      entries := entries[at := header.Snapshot()];
      forall i | 0 <= i < |deque.nodes|
        ensures Stands(i)
      {
        assert i != at ==> old(Stands(i));
      }
    }

    /** deleteAt: nothing for a header without a node; FIFO and LRU leave the header pointing at the
        first node of the others. */
    method DeleteAt(header: BufferHeader, ghost at: Option<nat>)
      requires Valid() && Known(header, at)
      modifies this`entries, deque, deque.nodes, header
      ensures Valid() && entries == if at.Some? then Without(old(entries), at.value) else old(entries)
      ensures header.node == if at.None? || kind == Lfu then old(header.node) else deque.first
      ensures forall i | 0 <= i < |deque.nodes| :: deque.nodes[i] in old(deque.nodes)
    {
      assert at.Some? ==> Stands(at.value);
      if header.node != null {
        Remove(header, at.value);
        label Removed:
        if kind != Lfu {
          header.node := deque.first;
        }
        forall i | 0 <= i < |deque.nodes|
          ensures Stands(i)
        {
          assert old@Removed(Stands(i));
        }
      }
    }
  }
}
