/** The doubly linked deque of shared/doubly_linked_deque.c. */
module Deque {

  class DequeNode<T> {
    var previous: DequeNode?<T>
    var next: DequeNode?<T>
    const value: T

    constructor (value: T)
      ensures this.value == value && previous == null && next == null
    {
      this.value := value;
      previous, next := null, null;
    }
  }

  class LinkedDeque<T> {
    var count: nat
    var first: DequeNode?<T>
    var last: DequeNode?<T>
    ghost var nodes: seq<DequeNode<T>>

    ghost function Node(i: int): DequeNode?<T>
      reads this
    {
      if 0 <= i < |nodes| then nodes[i] else null
    }

    /** The neighbours of the node at position `i` are those at `i - 1` and `i + 1`. */
    ghost predicate Linked(i: int)
      requires 0 <= i < |nodes|
      reads this, nodes
    {
      nodes[i].previous == Node(i - 1) && nodes[i].next == Node(i + 1)
    }

    ghost predicate Valid()
      reads this, nodes
    {
      && count == |nodes|
      && first == Node(0) && last == Node(|nodes| - 1)
      && (forall i, j | 0 <= i < j < |nodes| :: nodes[i] != nodes[j])
      && (forall i | 0 <= i < |nodes| :: Linked(i))
    }

    constructor ()
      ensures Valid() && nodes == []
    {
      count := 0;
      first, last := null, null;
      nodes := [];
    }

    method PushFirst(value: T) returns (node: DequeNode<T>)
      requires Valid()
      modifies this, nodes
      ensures Valid() && fresh(node) && node.value == value && nodes == [node] + old(nodes)
    {
      node := new DequeNode(value);
      if count == 0 {
        first := node;
        last := node;
      } else {
        assert Linked(0);
        var current := first;
        current.previous := node;
        node.next := current;
        first := node;
      }
      count := count + 1;
      nodes := [node] + nodes;
      forall i | 0 <= i < |nodes|
        ensures Linked(i)
      {
        assert i > 0 ==> old(Linked(i - 1));
      }
    }

    method PushLast(value: T) returns (node: DequeNode<T>)
      requires Valid()
      modifies this, nodes
      ensures Valid() && fresh(node) && node.value == value && nodes == old(nodes) + [node]
    {
      node := new DequeNode(value);
      if count == 0 {
        first := node;
        last := node;
      } else {
        assert Linked(|nodes| - 1);
        var current := last;
        current.next := node;
        node.previous := current;
        last := node;
      }
      count := count + 1;
      nodes := nodes + [node];
      forall i | 0 <= i < |nodes|
        ensures Linked(i)
      {
        assert i < |nodes| - 1 ==> old(Linked(i));
      }
    }

    method PopFirst() returns (popped: bool)
      requires Valid()
      modifies this, nodes
      ensures Valid() && popped == (old(nodes) != []) && nodes == if popped then old(nodes)[1..] else []
    {
      popped := false;
      if count > 1 {
        assert Linked(0) && Linked(1);
        var current := first;
        var next := current.next;
        first := next;
        next.previous := null;
        count := count - 1;
        popped := true;
        nodes := nodes[1..];
        forall i | 0 <= i < |nodes|
          ensures Linked(i)
        {
          assert old(Linked(i + 1));
        }
      } else if count == 1 {
        first, last := null, null;
        count := count - 1;
        popped := true;
        nodes := [];
      }
    }

    method PopLast() returns (popped: bool)
      requires Valid()
      modifies this, nodes
      ensures Valid() && popped == (old(nodes) != [])
      ensures nodes == if popped then old(nodes)[..|old(nodes)| - 1] else []
    {
      popped := false;
      if count > 1 {
        assert Linked(|nodes| - 1) && Linked(|nodes| - 2);
        var current := last;
        var next := current.previous;
        last := next;
        next.next := null;
        count := count - 1;
        popped := true;
        nodes := nodes[..count];
        forall i | 0 <= i < |nodes|
          ensures Linked(i)
        {
          assert old(Linked(i));
        }
      } else if count == 1 {
        first, last := null, null;
        count := count - 1;
        popped := true;
        nodes := [];
      }
    }

    /** Take out the node `at`, wherever it stands; it is the node at position `k`. */
    method PopAt(at: DequeNode?<T>, ghost k: nat) returns (popped: bool)
      requires Valid() && (at != null ==> k < |nodes| && nodes[k] == at)
      modifies this, nodes
      ensures Valid() && popped == (at != null)
      ensures nodes == if popped then old(nodes)[..k] + old(nodes)[k + 1..] else old(nodes)
    {
      popped := false;
      if at != null {
        assert Linked(k);
        assert k > 0 ==> Linked(k - 1);
        assert k + 1 < |nodes| ==> Linked(k + 1);
        var previous, next := at.previous, at.next;
        var isFirst, isLast := at == first, at == last;
        if previous != null {
          previous.next := next;
        }
        if next != null {
          next.previous := previous;
        }
        if isLast {
          last := previous;
        }
        if isFirst {
          first := next;
        }
        count := count - 1;
        popped := true;
        nodes := nodes[..k] + nodes[k + 1..];
        forall i | 0 <= i < |nodes|
          ensures Linked(i)
        {
          assert old(Linked(if i < k then i else i + 1));
        }
      }
    }

    /** Switch a node with its successor: exactly their two positions are swapped, at either end and
        in a list of two nodes as well. */
    method SwitchNode(dest: DequeNode<T>, src: DequeNode<T>, ghost k: nat)
      requires Valid() && k + 1 < |nodes| && nodes[k] == dest && nodes[k + 1] == src
      modifies this, nodes
      ensures Valid() && nodes == old(nodes)[k := src][k + 1 := dest]
    {
      SwitchEnds(dest, src, k);
      Relink(dest, src, k);
      nodes := nodes[k := src][k + 1 := dest];
      forall i | 0 <= i < |nodes|
        ensures Linked(i)
      {
        assert old(Linked(i));
      }
    }

    /** The first part of a switch: which ends of the deque the two nodes take over. */
    method SwitchEnds(dest: DequeNode<T>, src: DequeNode<T>, ghost k: nat)
      requires Valid() && k + 1 < |nodes| && nodes[k] == dest && nodes[k + 1] == src
      modifies this`first, this`last
      ensures first == (if k == 0 then src else old(first))
      ensures last == (if k + 2 == |nodes| then dest else old(last))
      ensures forall i | 0 <= i < |nodes| :: Linked(i)
    {
      var destFirst, destLast, srcFirst, srcLast := dest == first, dest == last, src == first, src == last;
      if (destFirst || destLast) && (srcFirst || srcLast) {
        first, last := last, first;
      } else if destFirst {
        first := src;
      } else if destLast {
        assert false;
      } else if srcFirst {
        assert false;
      } else if srcLast {
        last := dest;
      }
      forall i | 0 <= i < |nodes|
        ensures Linked(i)
      {
        assert old(Linked(i));
      }
    }

    /** The second part: the links of the two nodes and of their neighbours. */
    method Relink(dest: DequeNode<T>, src: DequeNode<T>, ghost k: nat)
      requires k + 1 < |nodes| && nodes[k] == dest && nodes[k + 1] == src
      requires (forall i, j | 0 <= i < j < |nodes| :: nodes[i] != nodes[j]) && forall i | 0 <= i < |nodes| :: Linked(i)
      modifies nodes
      ensures src.previous == Node(k - 1) && src.next == dest && dest.previous == src && dest.next == Node(k + 2)
      ensures k > 0 ==> nodes[k - 1].next == src && nodes[k - 1].previous == old(nodes[k - 1].previous)
      ensures k + 2 < |nodes| ==> nodes[k + 2].previous == dest && nodes[k + 2].next == old(nodes[k + 2].next)
      ensures forall i | (0 <= i < k - 1 || k + 2 < i < |nodes|) :: unchanged(nodes[i])
    {
      assert Linked(k) && Linked(k + 1);
      assert k > 0 ==> Linked(k - 1);
      assert k + 2 < |nodes| ==> Linked(k + 2);
      var destPrevious, destNext := dest.previous, dest.next;
      var srcPrevious, srcNext := src.previous, src.next;
      if destPrevious != null {
        destPrevious.next := src;
      }
      if destNext != null {
        destNext.previous := src;
      }
      src.previous := destPrevious;
      src.next := srcPrevious;
      if srcPrevious != null {
        srcPrevious.next := dest;
      }
      if srcNext != null {
        srcNext.previous := dest;
      }
      dest.previous := destNext;
      dest.next := srcNext;
    }
  }
}
