/** The pointer-based binary heap of shared/linked_heap.c: nodes are found by the bits of their
    index, and values move along parent and child links. */
module LinkedHeap {
  import opened Wrappers
  import opened HeapOrder

  class HeapNode {
    const index: nat
    var left: HeapNode?
    var right: HeapNode?
    var parent: HeapNode?
    var value: QueueUnit

    constructor (index: nat, value: QueueUnit)
      ensures this.index == index && this.value == value
      ensures left == null && right == null && parent == null
    {
      this.index := index;
      this.value := value;
      left, right, parent := null, null, null;
    }
  }

  function Power2(k: nat): nat {
    if k == 0 then 1 else 2 * Power2(k - 1)
  }

  lemma HalfIsParent(i: nat, n: nat)
    ensures 2 * i == n || 2 * i + 1 == n <==> i == n / 2
  {
  }

  const WORD: nat := 32
  const STACK_SIZE: nat := 128
  const PARENT_STACK_SIZE: nat := 256

  ghost function NodeIn(nodes: seq<HeapNode>, i: nat): HeapNode? {
    if 1 <= i <= |nodes| then nodes[i - 1] else null
  }

  /** In a complete binary tree node `i` has children `2 * i` and `2 * i + 1`. */
  ghost predicate LinkedIn(nodes: seq<HeapNode>, i: nat)
    requires 1 <= i <= |nodes|
    reads nodes
  {
    && nodes[i - 1].index == i
    && nodes[i - 1].left == NodeIn(nodes, 2 * i)
    && nodes[i - 1].right == NodeIn(nodes, 2 * i + 1)
    && nodes[i - 1].parent == NodeIn(nodes, i / 2)
  }

  ghost predicate AllLinked(nodes: seq<HeapNode>)
    reads nodes
  {
    forall i | 1 <= i <= |nodes| :: LinkedIn(nodes, i)
  }

  /** Hanging node `n` below node `n / 2` completes a tree of `n` nodes. */
  lemma LinkedAfterHanging(nodes: seq<HeapNode>, node: HeapNode, half: nat)
    requires 1 <= |nodes| && half == (|nodes| + 1) / 2 && node.index == |nodes| + 1
    requires node.left == node.right == null && node.parent == nodes[half - 1]
    requires forall i | 1 <= i <= |nodes| && i != half :: LinkedIn(nodes, i)
    requires nodes[half - 1].index == half && nodes[half - 1].parent == NodeIn(nodes, half / 2)
    requires nodes[half - 1].left == if node.index % 2 == 0 then node else NodeIn(nodes, 2 * half)
    requires nodes[half - 1].right == if node.index % 2 == 0 then null else node
    ensures AllLinked(nodes + [node])
  {
    var nodes' := nodes + [node];
    forall i | 1 <= i <= |nodes'|
      ensures LinkedIn(nodes', i)
    {
      HalfIsParent(i, |nodes'|);
      if i < |nodes'| && i != half {
        assert LinkedIn(nodes, i);
        assert NodeIn(nodes', 2 * i) == NodeIn(nodes, 2 * i) && NodeIn(nodes', 2 * i + 1) == NodeIn(nodes, 2 * i + 1);
      }
    }
  }

  class Heap {
    var count: nat
    var root: HeapNode?
    ghost var nodes: seq<HeapNode>
    ghost var values: seq<QueueUnit>

    ghost function Node(i: nat): HeapNode?
      reads this
    {
      NodeIn(nodes, i)
    }

    ghost predicate Holds(i: nat)
      requires 1 <= i <= |nodes| == |values|
      reads this, nodes
    {
      nodes[i - 1].value == values[i - 1]
    }

    ghost predicate Shaped()
      reads this, nodes
    {
      && count == |nodes| && root == Node(1)
      && AllLinked(nodes)
    }

    ghost predicate Valid()
      reads this, nodes
    {
      && Shaped() && |nodes| == |values|
      && (forall i | 1 <= i <= |nodes| :: Holds(i))
    }

    constructor ()
      ensures Valid() && values == []
    {
      count := 0;
      root := null;
      nodes := [];
      values := [];
    }

    /** The round of the descent that goes on to the child with index `next`. */
    method Descend(node: HeapNode, next: nat) returns (child: HeapNode)
      requires Shaped() && 2 <= next <= count && node == Node(next / 2)
      ensures child == Node(next)
    {
      assert LinkedIn(nodes, next / 2) && LinkedIn(nodes, next) && LinkedIn(nodes, 2 * (next / 2));
      child := node;
      if node.left != null && node.left.index == next {
        child := node.left;
      } else if node.right != null && node.right.index == next {
        child := node.right;
      }
    }

    /** The descent of both lookups: follow the stacked halvings down from the root. */
    method Follow(stack: array<nat>, stackCount: nat) returns (node: HeapNode)
      requires Shaped() && 1 <= stackCount <= stack.Length && stack[stackCount - 1] == 1
      requires forall k | 0 <= k < stackCount :: 1 <= stack[k] <= count
      requires forall k | 0 <= k < stackCount - 1 :: stack[k] / 2 == stack[k + 1]
      ensures node == nodes[stack[0] - 1]
    {
      node := root;
      var left := stackCount - 1;
      while left > 0
        invariant left < stack.Length && node == Node(stack[left])
        decreases left
        modifies {}
      {
        left := left - 1;
        node := Descend(node, stack[left]);
      }
    }

    /** findNodeByIndex */
    method FindNodeByIndex(index: nat) returns (node: HeapNode)
      requires Shaped() && 1 <= index <= count && index < Power2(WORD)
      ensures node == nodes[index - 1]
    {
      var stack, stackCount := StackHalvings(index, STACK_SIZE);
      node := Follow(stack, stackCount);
    }

    /** findParentNode: the node that a node with this index hangs below. */
    method FindParentNode(index: nat) returns (node: HeapNode)
      requires Shaped() && 2 <= index <= count + 1 && index < Power2(WORD)
      ensures node == nodes[index / 2 - 1]
    {
      var stack, stackCount := StackHalvings(index / 2, PARENT_STACK_SIZE);
      node := Follow(stack, stackCount);
    }

    /** LHeapPush: hang a new node below its parent, then let its value climb. */
    method PushValue(value: QueueUnit)
      requires Valid() && count + 1 < Power2(WORD)
      modifies this, nodes
      ensures Valid() && values == Push(old(values), value)
      ensures old(nodes) < nodes && fresh(nodes[|nodes| - 1])
    {
      var node := Attach(value);
      SiftUpFrom(node);
    }

    method Attach(value: QueueUnit) returns (node: HeapNode)
      requires Valid() && count + 1 < Power2(WORD)
      modifies this, nodes
      ensures Valid() && values == old(values) + [value]
      ensures fresh(node) && nodes == old(nodes) + [node]
    {
      node := new HeapNode(count + 1, value);
      if root != null {
        LinkLast(node, nodes[(count + 1) / 2 - 1]);
      } else {
        root := node;
      }
      forall i | 1 <= i <= |nodes|
        ensures Holds(i)
      {
        assert old(Holds(i));
      }
      CountLast(node);
    }

    /** The tree has taken in its last node. */
    method CountLast(node: HeapNode)
      requires AllLinked(nodes + [node]) && root == NodeIn(nodes + [node], 1)
      requires count == |nodes| == |values| && forall i | 1 <= i <= |nodes| :: Holds(i)
      modifies this`count, this`nodes, this`values
      ensures Valid() && nodes == old(nodes) + [node] && values == old(values) + [node.value]
    {
      count := count + 1;
      nodes := nodes + [node];
      values := values + [node.value];
      forall i | 1 <= i <= |nodes|
        ensures Holds(i)
      {
        assert i < |nodes| ==> old(Holds(i));
      }
    }

    /** Hang a node under the parent that its index asks for. */
    method LinkLast(node: HeapNode, ghost parent: HeapNode)
      requires Shaped() && 1 <= count && node.index == count + 1 < Power2(WORD) && node !in nodes
      requires node.left == node.right == null
      requires parent == nodes[(count + 1) / 2 - 1]
      modifies node`parent, parent`left, parent`right
      ensures AllLinked(nodes + [node])
    {
      var found := FindParentNode(count + 1);
      Hang(node, found);
    }

    method Hang(node: HeapNode, found: HeapNode)
      requires Shaped() && 1 <= count && node.index == count + 1 && node !in nodes
      requires node.left == node.right == null && found == nodes[(count + 1) / 2 - 1]
      modifies node`parent, found`left, found`right
      ensures AllLinked(nodes + [node])
    {
      ghost var half := (count + 1) / 2;
      assert LinkedIn(nodes, half);
      node.parent := found;
      if node.index == found.index * 2 {
        found.left := node;
      } else {
        found.right := node;
      }
      forall i | 1 <= i <= |nodes| && i != half
        ensures LinkedIn(nodes, i)
      {
        assert old(LinkedIn(nodes, i));
      }
      LinkedAfterHanging(nodes, node, half);
    }

    /** The loop of a push: swap values with the parent wherever the child is not greater. */
    method SiftUpFrom(node: HeapNode)
      requires Valid() && count > 0 && node == nodes[count - 1]
      modifies nodes`value, this`values
      ensures Valid() && values == SiftUp(old(values), count)
    {
      assert LinkedIn(nodes, count);
      var current: HeapNode? := node;
      while current.parent != null
        invariant Valid() && count == old(count)
        invariant current != null && 1 <= current.index <= count && current == nodes[current.index - 1]
        invariant SiftUp(values, current.index) == SiftUp(old(values), count)
        decreases current.index
      {
        var parent := current.parent;
        assert LinkedIn(nodes, current.index) && LinkedIn(nodes, current.index / 2);
        assert Holds(current.index) && Holds(current.index / 2);
        if Compare(current.value, parent.value) <= 0 {
          SwapValues(current, parent);
        }
        current := parent;
      }
      assert LinkedIn(nodes, current.index);
    }

    method SwapValues(a: HeapNode, b: HeapNode)
      requires Valid() && 1 <= a.index <= count && a == nodes[a.index - 1]
      requires 1 <= b.index <= count && b == nodes[b.index - 1] && a != b
      modifies a`value, b`value, this`values
      ensures Valid() && values == Swap(old(values), a.index, b.index)
    {
      assert Holds(a.index) && Holds(b.index);
      a.value, b.value := b.value, a.value;
      values := Swap(values, a.index, b.index);
      forall i | 1 <= i <= |nodes|
        ensures LinkedIn(nodes, i) && Holds(i)
      {
        assert old(LinkedIn(nodes, i)) && old(Holds(i));
      }
    }

    /** LHeapGet */
    method Get() returns (front: Option<QueueUnit>)
      requires Valid()
      ensures front == NodeAt(values, 1)
    {
      if count > 0 && root != null {
        assert Holds(1);
        front := Some(root.value);
      } else {
        front := None;
      }
    }

    /** LHeapPop: move the last value to the root, drop the last node, let the value sink. */
    method PopValue()
      requires Valid() && count < Power2(WORD)
      modifies this, nodes
      ensures Valid() && values == Pop(old(values))
      ensures nodes == old(nodes)[..|values|]
    {
      if count == 1 {
        count := 0;
        root := null;
        nodes, values := [], [];
      } else if count > 1 {
        Detach();
        SiftDownFromRoot();
      }
    }

    method Detach()
      requires Valid() && 2 <= count < Power2(WORD)
      modifies this, nodes
      ensures Valid() && values == old(values)[0 := old(values)[old(count) - 1]][..old(count) - 1]
      ensures count == old(count) - 1 && nodes == old(nodes)[..count]
    {
      var last := FindNodeByIndex(count);
      assert LinkedIn(nodes, count) && LinkedIn(nodes, 1) && Holds(count);
      SetRootValue(last.value);
      label Before:
      UnlinkLast(last, nodes[count / 2 - 1]);
      forall i | 1 <= i <= |nodes|
        ensures Holds(i)
      {
        assert old@Before(Holds(i));
      }
      DiscountLast();
    }

    /** The tree has lost its last node. */
    method DiscountLast()
      requires 2 <= count == |nodes| == |values| && AllLinked(nodes[..count - 1]) && root == nodes[0]
      requires forall i | 1 <= i <= |nodes| :: Holds(i)
      modifies this`count, this`nodes, this`values
      ensures Valid() && count == old(count) - 1
      ensures nodes == old(nodes)[..count] && values == old(values)[..count]
    {
      count := count - 1;
      nodes := nodes[..count];
      values := values[..count];
      forall i | 1 <= i <= |nodes|
        ensures Holds(i)
      {
        assert old(Holds(i));
      }
    }

    method SetRootValue(value: QueueUnit)
      requires Valid() && count > 0
      modifies nodes`value, this`values
      ensures Valid() && values == old(values)[0 := value]
    {
      assert LinkedIn(nodes, 1);
      root.value := value;
      values := values[0 := value];
      forall i | 1 <= i <= |nodes|
        ensures LinkedIn(nodes, i) && Holds(i)
      {
        assert old(LinkedIn(nodes, i)) && old(Holds(i));
      }
    }

    method UnlinkLast(last: HeapNode, ghost parent: HeapNode)
      requires Shaped() && 2 <= count && last == nodes[count - 1] && parent == nodes[count / 2 - 1]
      modifies parent`left, parent`right
      ensures AllLinked(nodes[..count - 1])
    {
      ghost var n, half := count, count / 2;
      assert LinkedIn(nodes, n) && LinkedIn(nodes, half);
      assert 2 * half + 1 <= n ==> LinkedIn(nodes, 2 * half);
      var lastParent := last.parent;
      if lastParent != null {
        if lastParent.left == last {
          lastParent.left := null;
        } else {
          lastParent.right := null;
        }
      }
      ghost var rest := nodes[..n - 1];
      forall i | 1 <= i <= |rest|
        ensures LinkedIn(rest, i)
      {
        HalfIsParent(i, n);
        assert old(LinkedIn(nodes, i));
      }
    }

    method PickChild(node: HeapNode, ghost i: nat) returns (next: HeapNode?)
      requires Valid() && 1 <= i <= count && node == Node(i)
      ensures next == Node(NextChild(values, i))
    {
      assert LinkedIn(nodes, i);
      assert 2 * i <= count ==> Holds(2 * i);
      assert 2 * i + 1 <= count ==> Holds(2 * i + 1);
      next := if CompareNodes(ValueOf(node.left), ValueOf(node.right)) < 0 then node.left else node.right;
    }

    /** The loop of a pop. A missing child is ranked below a present one, so a node whose only
        child is on the left is passed over. */
    method SiftDownFromRoot()
      requires Valid() && count > 0
      modifies nodes`value, this`values
      ensures Valid() && values == SiftDown(old(values), 1)
    {
      var current := root;
      ghost var i: nat := 1;
      while current != null
        invariant Valid() && count == old(count)
        invariant 1 <= i && current == Node(i)
        invariant SiftDown(values, i) == SiftDown(old(values), 1)
        decreases count + 1 - i
      {
        var next := PickChild(current, i);
        assert LinkedIn(nodes, i) && Holds(i);
        i := NextChild(values, i);
        assert i <= count ==> LinkedIn(nodes, i) && Holds(i);
        if CompareNodes(ValueOf(next), ValueOf(current)) < 0 {
          if next != null {
            SwapValues(current, next);
          }
          current := next;
        } else {
          current := next;
        }
      }
    }
  }

  function ValueOf(node: HeapNode?): Option<QueueUnit>
    reads node
  {
    if node == null then None else Some(node.value)
  }

  /** The first loop of both lookups. Indices are 32-bit, so neither stack is ever full. */
  method StackHalvings(index: nat, size: nat) returns (stack: array<nat>, stackCount: nat)
    requires 1 <= index < Power2(WORD) && WORD < size
    ensures stack.Length == size
    ensures 1 <= stackCount <= stack.Length
    ensures stack[0] == index && stack[stackCount - 1] == 1
    ensures forall k | 0 <= k < stackCount :: 1 <= stack[k] <= index
    ensures forall k | 0 <= k < stackCount - 1 :: stack[k] / 2 == stack[k + 1]
  {
    stack := new nat[size];
    stackCount := 0;
    var search := index;
    ghost var bits := WORD;
    while search >= 1
      invariant stackCount + bits == WORD && search < Power2(bits)
      invariant search <= index
      invariant stackCount == 0 ==> search == index
      invariant stackCount > 0 ==> stack[0] == index && stack[stackCount - 1] / 2 == search
      invariant forall k | 0 <= k < stackCount :: 1 <= stack[k] <= index
      invariant forall k | 0 <= k < stackCount - 1 :: stack[k] / 2 == stack[k + 1]
      decreases search
    {
      stack[stackCount] := search;
      stackCount := stackCount + 1;
      search := search / 2;
      bits := bits - 1;
    }
  }
}
