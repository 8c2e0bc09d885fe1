/** The priority heap of shared/linked_heap.c seen as the sequence of its values in index order:
    what sifting computes, and exactly which order push and pop keep. */
module HeapOrder {
  import opened Wrappers

  datatype QueueUnit = QueueUnit(block: int, priority: int, buffer: nat)

  /** lhq_comparator on two present values: higher priority first, then lower block number. */
  function Compare(a: QueueUnit, b: QueueUnit): int {
    if a.priority == b.priority then a.block - b.block else b.priority - a.priority
  }

  /** lhq_comparator: a missing node ranks before a present one. */
  function CompareNodes(a: Option<QueueUnit>, b: Option<QueueUnit>): int {
    match (a, b)
    case (Some(x), Some(y)) => Compare(x, y)
    case (Some(_), None) => 1
    case (None, Some(_)) => -1
    case (None, None) => 0
  }

  predicate Le(a: QueueUnit, b: QueueUnit) {
    Compare(a, b) <= 0
  }

  /** The comparator is a total order up to equal keys, and for non-negative 32-bit keys its
      subtractions stay in the range of a 32-bit int. */
  lemma ComparatorLaws(a: QueueUnit, b: QueueUnit, c: QueueUnit)
    ensures Le(a, b) <==> a.priority > b.priority || (a.priority == b.priority && a.block <= b.block)
    ensures Le(a, b) || Le(b, a)
    ensures Le(a, b) && Le(b, c) ==> Le(a, c)
    ensures Compare(a, b) == -Compare(b, a)
    ensures Compare(a, b) == 0 <==> a.priority == b.priority && a.block == b.block
    ensures 0 <= a.block < 0x8000_0000 && 0 <= b.block < 0x8000_0000 &&
            0 <= a.priority < 0x8000_0000 && 0 <= b.priority < 0x8000_0000
            ==> -0x8000_0000 <= Compare(a, b) < 0x8000_0000
  {
  }

  // ---------- Positions, counted from 1 ----------

  function At(v: seq<QueueUnit>, i: nat): QueueUnit
    requires 1 <= i <= |v|
  {
    v[i - 1]
  }

  function NodeAt(v: seq<QueueUnit>, i: nat): Option<QueueUnit> {
    if 1 <= i <= |v| then Some(v[i - 1]) else None
  }

  function Swap(v: seq<QueueUnit>, i: nat, j: nat): (w: seq<QueueUnit>)
    requires 1 <= i <= |v| && 1 <= j <= |v|
    ensures |w| == |v|
  {
    v[i - 1 := v[j - 1]][j - 1 := v[i - 1]]
  }

  lemma SwapKeepsMultiset(v: seq<QueueUnit>, i: nat, j: nat)
    requires 1 <= i <= |v| && 1 <= j <= |v|
    ensures multiset(Swap(v, i, j)) == multiset(v)
  {
  }

  ghost predicate Edge(v: seq<QueueUnit>, i: nat)
    requires 2 <= i <= |v|
  {
    Le(At(v, i / 2), At(v, i))
  }

  ghost predicate Ordered(v: seq<QueueUnit>) {
    forall i | 2 <= i <= |v| :: Edge(v, i)
  }

  /** In an ordered heap the front is a least value. */
  lemma {:induction false} FrontIsLeast(v: seq<QueueUnit>, i: nat)
    requires Ordered(v) && 1 <= i <= |v|
    ensures Le(v[0], At(v, i))
  {
    if i > 1 {
      FrontIsLeast(v, i / 2);
      assert Edge(v, i);
    }
  }

  /** The front of an ordered heap has the highest priority and, among those that have it, the lowest block. */
  lemma FrontIsMostUrgent(v: seq<QueueUnit>, i: nat)
    requires Ordered(v) && 1 <= i <= |v|
    ensures v[0].priority >= At(v, i).priority
    ensures v[0].priority == At(v, i).priority ==> v[0].block <= At(v, i).block
  {
    FrontIsLeast(v, i);
  }

  // ---------- Push ----------

  /** The loop of a push: it climbs to the root, swapping wherever the child is not greater. */
  function SiftUp(v: seq<QueueUnit>, i: nat): (w: seq<QueueUnit>)
    requires 1 <= i <= |v|
    ensures |w| == |v|
    decreases i
  {
    if i == 1 then v
    else if Compare(At(v, i), At(v, i / 2)) > 0 then SiftUp(v, i / 2)
    else SiftUp(Swap(v, i, i / 2), i / 2)
  }

  function Push(v: seq<QueueUnit>, x: QueueUnit): (w: seq<QueueUnit>)
    ensures |w| == |v| + 1
  {
    SiftUp(v + [x], |v| + 1)
  }

  lemma {:induction false} SiftUpKeepsMultiset(v: seq<QueueUnit>, i: nat)
    requires 1 <= i <= |v|
    ensures multiset(SiftUp(v, i)) == multiset(v)
    decreases i
  {
    if i > 1 {
      if Compare(At(v, i), At(v, i / 2)) > 0 {
        SiftUpKeepsMultiset(v, i / 2);
      } else {
        SwapKeepsMultiset(v, i, i / 2);
        SiftUpKeepsMultiset(Swap(v, i, i / 2), i / 2);
      }
    }
  }

  /** Only the edge above `i` may be out of order. */
  ghost predicate OrderedExceptAbove(v: seq<QueueUnit>, i: nat)
    requires 1 <= i <= |v|
  {
    && (forall j | 2 <= j <= |v| && j != i :: Edge(v, j))
    && (forall j | 4 <= j <= |v| && j / 2 == i :: Le(At(v, i / 2), At(v, j)))
  }

  lemma SiftUpStep(v: seq<QueueUnit>, i: nat)
    requires 2 <= i <= |v| && OrderedExceptAbove(v, i)
    ensures Compare(At(v, i), At(v, i / 2)) > 0 ==> OrderedExceptAbove(v, i / 2)
    ensures Compare(At(v, i), At(v, i / 2)) <= 0 ==> OrderedExceptAbove(Swap(v, i, i / 2), i / 2)
  {
    var p := i / 2;
    if Compare(At(v, i), At(v, p)) > 0 {
      forall j | 4 <= j <= |v| && j / 2 == p
        ensures Le(At(v, p / 2), At(v, j))
      {
        assert Edge(v, p);
        assert j != i ==> Edge(v, j);
      }
    } else {
      var w := Swap(v, i, p);
      forall j | 2 <= j <= |w| && j != p
        ensures Edge(w, j)
      {
        assert j != i ==> Edge(v, j);
      }
      forall j | 4 <= j <= |w| && j / 2 == p
        ensures Le(At(w, p / 2), At(w, j))
      {
        assert Edge(v, p);
        assert j != i ==> Edge(v, j);
      }
    }
  }

  lemma {:induction false} SiftUpOrders(v: seq<QueueUnit>, i: nat)
    requires 1 <= i <= |v| && OrderedExceptAbove(v, i)
    ensures Ordered(SiftUp(v, i))
    decreases i
  {
    if i > 1 {
      SiftUpStep(v, i);
      if Compare(At(v, i), At(v, i / 2)) > 0 {
        SiftUpOrders(v, i / 2);
      } else {
        SiftUpOrders(Swap(v, i, i / 2), i / 2);
      }
    }
  }

  /** A push adds its value and keeps the heap order. */
  lemma PushKeepsOrder(v: seq<QueueUnit>, x: QueueUnit)
    ensures multiset(Push(v, x)) == multiset(v) + multiset{x}
    ensures Ordered(v) ==> Ordered(Push(v, x))
  {
    var w := v + [x];
    SiftUpKeepsMultiset(w, |w|);
    if Ordered(v) {
      forall j | 2 <= j <= |w| && j != |w|
        ensures Edge(w, j)
      {
        assert Edge(v, j);
      }
      SiftUpOrders(w, |w|);
    }
  }

  // ---------- Which of equal values comes first ----------

  /** Position `k` is `i` or below it. */
  predicate Under(i: nat, k: nat)
    requires 1 <= i
  {
    k == i || (k > i && Under(i, k / 2))
  }

  lemma {:induction false} RootIsAbove(k: nat)
    requires 1 <= k
    ensures Under(1, k)
  {
    if k > 1 {
      RootIsAbove(k / 2);
    }
  }

  /** Of the values on the way from `i` to the root, the one at `k` is a least one, and the lowest of those. */
  ghost predicate LowestLeast(v: seq<QueueUnit>, k: nat, i: nat)
    requires 1 <= i <= |v|
  {
    && 1 <= k <= i && Under(k, i)
    && forall j | 1 <= j <= i && Under(j, i) ::
         if j > k then Compare(At(v, k), At(v, j)) < 0 else Le(At(v, k), At(v, j))
  }

  /** Climbing brings to the front the least value on the way, and of equal ones the lowest. */
  lemma {:induction false} SiftUpFront(v: seq<QueueUnit>, i: nat) returns (k: nat)
    requires 1 <= i <= |v|
    ensures LowestLeast(v, k, i) && At(SiftUp(v, i), 1) == At(v, k)
    decreases i
  {
    if i == 1 {
      k := 1;
    } else if Compare(At(v, i), At(v, i / 2)) > 0 {
      k := SiftUpFront(v, i / 2);
      forall j | 1 <= j <= i && Under(j, i)
        ensures if j > k then Compare(At(v, k), At(v, j)) < 0 else Le(At(v, k), At(v, j))
      {
        if j != i {
          UnderIsAbove(j, i / 2);
        }
      }
    } else {
      var w := Swap(v, i, i / 2);
      var above := SiftUpFront(w, i / 2);
      k := if above == i / 2 then i else above;
      forall j | 1 <= j <= i && Under(j, i)
        ensures if j > k then Compare(At(v, k), At(v, j)) < 0 else Le(At(v, k), At(v, j))
      {
        if j != i {
          UnderIsAbove(j, i / 2);
        }
      }
    }
  }

  /** After a push onto an ordered heap the front is the new value if it compares equal or below the old front, so the
      later of equal values comes out first; otherwise it is a value equal to the old front. */
  lemma PushFront(v: seq<QueueUnit>, x: QueueUnit)
    requires Ordered(v)
    ensures v == [] || Compare(x, v[0]) <= 0 ==> Push(v, x)[0] == x
    ensures v != [] && Compare(x, v[0]) > 0 ==> Compare(Push(v, x)[0], v[0]) == 0
  {
    var w := v + [x];
    var k := SiftUpFront(w, |w|);
    RootIsAbove(|w|);
    assert Under(1, |w|) && Under(|w|, |w|);
    if k < |w| {
      FrontIsLeast(v, k);
      assert At(w, k) == At(v, k);
    }
  }

  // ---------- Pop ----------

  /** The child that the loop of a pop goes on with: the left one only if it compares below the
      right one, so a lone left child is passed over for the missing right one. */
  function NextChild(v: seq<QueueUnit>, i: nat): nat {
    if CompareNodes(NodeAt(v, 2 * i), NodeAt(v, 2 * i + 1)) < 0 then 2 * i else 2 * i + 1
  }

  function SiftDown(v: seq<QueueUnit>, i: nat): (w: seq<QueueUnit>)
    requires 1 <= i
    ensures |w| == |v|
    decreases |v| + 1 - i
  {
    if i > |v| then v
    else
      var next := NextChild(v, i);
      if next <= |v| && CompareNodes(NodeAt(v, next), NodeAt(v, i)) < 0 then SiftDown(Swap(v, i, next), next)
      else SiftDown(v, next)
  }

  /** The last value replaces the first and sinks. */
  function Pop(v: seq<QueueUnit>): (w: seq<QueueUnit>)
    ensures |w| == if |v| == 0 then 0 else |v| - 1
  {
    if |v| <= 1 then [] else SiftDown(v[0 := v[|v| - 1]][..|v| - 1], 1)
  }

  lemma {:induction false} SiftDownKeepsMultiset(v: seq<QueueUnit>, i: nat)
    requires 1 <= i
    ensures multiset(SiftDown(v, i)) == multiset(v)
    decreases |v| + 1 - i
  {
    if i <= |v| {
      var next := NextChild(v, i);
      if next <= |v| && CompareNodes(NodeAt(v, next), NodeAt(v, i)) < 0 {
        SwapKeepsMultiset(v, i, next);
        SiftDownKeepsMultiset(Swap(v, i, next), next);
      } else {
        SiftDownKeepsMultiset(v, next);
      }
    }
  }

  /** A pop removes the front value and no other. */
  lemma PopRemovesFront(v: seq<QueueUnit>)
    requires |v| > 0
    ensures multiset(Pop(v)) == multiset(v) - multiset{v[0]}
  {
    if |v| > 1 {
      var n := |v| - 1;
      var w := v[0 := v[n]][..n];
      SiftDownKeepsMultiset(w, 1);
      assert v == [v[0]] + v[1..n] + [v[n]];
      assert w == [v[n]] + v[1..n];
    } else {
      assert v == [v[0]];
    }
  }

  /** The edge to the last node, when that node is a lone left child. */
  predicate LoneEdge(v: seq<QueueUnit>, j: nat) {
    j == |v| && j % 2 == 0
  }

  ghost predicate OrderedExceptLone(v: seq<QueueUnit>) {
    forall j | 2 <= j <= |v| && !LoneEdge(v, j) :: Edge(v, j)
  }

  /** Only the edges below `i` may be out of order. */
  ghost predicate OrderedExceptBelow(v: seq<QueueUnit>, i: nat)
    requires 1 <= i
  {
    && (forall j | 2 <= j <= |v| && j / 2 != i :: Edge(v, j))
    && (forall j | 4 <= j <= |v| && j / 2 == i :: Le(At(v, i / 2), At(v, j)))
  }

  /** One round of the loop with two children. */
  lemma SiftDownStep(v: seq<QueueUnit>, i: nat)
    requires 1 <= i && 2 * i + 1 <= |v| && OrderedExceptBelow(v, i)
    ensures var next := NextChild(v, i);
            if Compare(At(v, next), At(v, i)) < 0 then OrderedExceptBelow(Swap(v, i, next), next)
            else OrderedExceptBelow(v, next) && Ordered(v)
  {
    var next := NextChild(v, i);
    if Compare(At(v, next), At(v, i)) < 0 {
      var w := Swap(v, i, next);
      forall j | 2 <= j <= |w| && j / 2 != next
        ensures Edge(w, j)
      {
        assert j / 2 != i ==> Edge(v, j);
      }
      forall j | 4 <= j <= |w| && j / 2 == next
        ensures Le(At(w, next / 2), At(w, j))
      {
        assert Edge(v, j);
      }
    } else {
      forall j | 2 <= j <= |v|
        ensures Edge(v, j)
      {
        assert j / 2 != i ==> Edge(v, j);
      }
      forall j | 4 <= j <= |v| && j / 2 == next
        ensures Le(At(v, next / 2), At(v, j))
      {
        assert Edge(v, j) && Edge(v, next);
      }
    }
  }

  lemma {:induction false} SiftDownOrders(v: seq<QueueUnit>, i: nat)
    requires 1 <= i && OrderedExceptBelow(v, i)
    ensures OrderedExceptLone(SiftDown(v, i))
    decreases |v| + 1 - i
  {
    if 2 * i + 1 <= |v| {
      SiftDownStep(v, i);
      var next := NextChild(v, i);
      if Compare(At(v, next), At(v, i)) < 0 {
        SiftDownOrders(Swap(v, i, next), next);
      } else {
        SiftDownOrders(v, next);
      }
    } else {
      LeafStops(v, i);
    }
  }

  /** Without two children the loop ends and changes nothing. */
  lemma LeafStops(v: seq<QueueUnit>, i: nat)
    requires 1 <= i && |v| < 2 * i + 1
    ensures SiftDown(v, i) == v
  {
  }

  /** A pop leaves every edge ordered, except possibly the edge to the last node when the remaining
      count is even; and it needs no more than that itself. */
  lemma PopKeepsOrderExceptLone(v: seq<QueueUnit>)
    requires OrderedExceptLone(v)
    ensures OrderedExceptLone(Pop(v))
    ensures |v| % 2 == 0 ==> Ordered(Pop(v))
  {
    if |v| > 1 {
      var n := |v| - 1;
      var w := v[0 := v[n]][..n];
      WithoutRoot(v);
      SiftDownOrders(w, 1);
    }
  }

  lemma WithoutRoot(v: seq<QueueUnit>)
    requires OrderedExceptLone(v) && |v| > 1
    ensures OrderedExceptBelow(v[0 := v[|v| - 1]][..|v| - 1], 1)
  {
    var w := v[0 := v[|v| - 1]][..|v| - 1];
    forall j | 2 <= j <= |w| && j / 2 != 1
      ensures Edge(w, j)
    {
      assert Edge(v, j);
    }
  }

  // ---------- Exactly when a pop breaks the order ----------

  /** Node `k` is the child that a pop would go on with at its parent. */
  predicate Chosen(v: seq<QueueUnit>, k: nat)
    requires 2 <= k
  {
    NextChild(v, k / 2) == k
  }

  /** The path of chosen children leads from `i` to `k`. */
  predicate MinPath(v: seq<QueueUnit>, i: nat, k: nat)
    requires 1 <= i
  {
    k == i || (k > i && Chosen(v, k) && MinPath(v, i, k / 2))
  }

  /** A caller can tell from the heap whether the next pop leaves an edge out of order: the
      remaining count is even, the path of lesser children leads to the parent of the last node
      left, and the value that moves to the root is greater than that node's. */
  predicate PopBreaksOrder(v: seq<QueueUnit>) {
    && |v| >= 3 && |v| % 2 == 1
    && MinPath(v, 1, (|v| - 1) / 2)
    && Compare(At(v, |v|), At(v, |v| - 1)) > 0
  }

  /** Sifting below `i` does not touch what is not under `i`. */
  lemma {:induction false} SiftDownIsLocal(v: seq<QueueUnit>, i: nat, k: nat)
    requires 1 <= i && 1 <= k <= |v| && !Under(i, k)
    ensures At(SiftDown(v, i), k) == At(v, k)
    decreases |v| + 1 - i
  {
    if i <= |v| {
      var next := NextChild(v, i);
      UnderChild(i, next, k);
      if next <= |v| && CompareNodes(NodeAt(v, next), NodeAt(v, i)) < 0 {
        SiftDownIsLocal(Swap(v, i, next), next, k);
      } else {
        SiftDownIsLocal(v, next, k);
      }
    }
  }

  lemma {:induction false} UnderChild(i: nat, child: nat, k: nat)
    requires 1 <= i && child / 2 == i
    ensures Under(child, k) ==> Under(i, k)
  {
    if k > child {
      UnderChild(i, child, k / 2);
    }
  }

  lemma {:induction false} AncestorIsLe(v: seq<QueueUnit>, i: nat, k: nat)
    requires Ordered(v) && 1 <= i <= |v| && k <= |v| && Under(i, k)
    ensures Le(At(v, i), At(v, k))
  {
    if k > i {
      AncestorIsLe(v, i, k / 2);
      assert Edge(v, k);
    }
  }

  /** A path of chosen children from `i` starts with the chosen child of `i`. */
  lemma {:induction false} MinPathStart(v: seq<QueueUnit>, i: nat, k: nat)
    requires 1 <= i < k && Under(i, k)
    ensures 2 * i <= k
    ensures MinPath(v, i, k) <==> Under(NextChild(v, i), k) && MinPath(v, NextChild(v, i), k)
  {
    if k / 2 > i {
      MinPathStart(v, i, k / 2);
    }
  }

  lemma {:induction false} MinPathFrame(v: seq<QueueUnit>, w: seq<QueueUnit>, i: nat, k: nat)
    requires 1 <= i && |v| == |w| && forall j | i < j <= |v| :: At(w, j) == At(v, j)
    ensures MinPath(v, i, k) == MinPath(w, i, k)
  {
    if k > i {
      MinPathFrame(v, w, i, k / 2);
      if k / 2 >= i {
        var left := 2 * (k / 2);
        assert left <= |v| ==> At(w, left) == At(v, left);
        assert left + 1 <= |v| ==> At(w, left + 1) == At(v, left + 1);
      } else {
        NotUnderIsNotOnPath(v, i, k / 2);
        NotUnderIsNotOnPath(w, i, k / 2);
      }
    }
  }

  lemma NotUnderIsNotOnPath(v: seq<QueueUnit>, i: nat, k: nat)
    requires 1 <= i && k < i
    ensures !MinPath(v, i, k)
  {
  }

  /** Whether the edge to a lone last child survives the sinking of the value at `i`. */
  lemma {:induction false} LoneEdgeAfterSift(v: seq<QueueUnit>, i: nat)
    requires |v| >= 2 && |v| % 2 == 0 && 1 <= i && Under(i, |v| / 2) && OrderedExceptBelow(v, i)
    ensures i <= |v| / 2
    ensures Edge(SiftDown(v, i), |v|) <==> !(MinPath(v, i, |v| / 2) && Compare(At(v, i), At(v, |v|)) > 0)
    decreases |v| + 1 - i
  {
    var n, p := |v|, |v| / 2;
    UnderIsAbove(i, p);
    if i == p {
      LeafStops(v, i);
    } else {
      MinPathStart(v, i, p);
      var next := NextChild(v, i);
      SiftDownStep(v, i);
      var swap := Compare(At(v, next), At(v, i)) < 0;
      var w := if swap then Swap(v, i, next) else v;
      assert SiftDown(v, i) == SiftDown(w, next);
      if Under(next, p) {
        LoneEdgeAfterSift(w, next);
        MinPathFrame(v, w, next, p);
        if !swap {
          AncestorIsLe(v, next, p);
          assert Edge(v, n);
        }
      } else {
        SiftDownIsLocal(w, next, p);
        SiftDownIsLocal(w, next, n);
        assert Edge(v, n);
      }
    }
  }

  lemma {:induction false} UnderIsAbove(i: nat, k: nat)
    requires 1 <= i && Under(i, k)
    ensures i <= k
  {
  }

  /** A pop leaves the heap ordered if and only if the heap was not one of those that a caller can
      recognise beforehand; a break left by the pop before does not matter. */
  lemma PopKeepsOrderIff(v: seq<QueueUnit>)
    requires OrderedExceptLone(v)
    ensures Ordered(Pop(v)) <==> !PopBreaksOrder(v)
  {
    PopKeepsOrderExceptLone(v);
    if |v| >= 3 && |v| % 2 == 1 {
      var n := |v| - 1;
      var w := v[0 := v[n]][..n];
      WithoutRoot(v);
      RootIsAbove(n / 2);
      LoneEdgeAfterSift(w, 1);
      WithoutLastPath(v, w, n / 2);
    }
  }

  lemma {:induction false} WithoutLastPath(v: seq<QueueUnit>, w: seq<QueueUnit>, k: nat)
    requires |v| >= 3 && |v| % 2 == 1 && w == v[0 := v[|v| - 1]][..|v| - 1] && k <= |w| / 2
    ensures MinPath(v, 1, k) == MinPath(w, 1, k)
  {
    if k > 1 {
      WithoutLastPath(v, w, k / 2);
      var left := 2 * (k / 2);
      assert NodeAt(v, left) == NodeAt(w, left) && NodeAt(v, left + 1) == NodeAt(w, left + 1);
    }
  }

  /** Such heaps exist: after this pop a value of block 2 stands above one of block 1. */
  lemma PopCanBreakOrder()
    ensures var v := [QueueUnit(0, 0, 0), QueueUnit(1, 0, 1), QueueUnit(2, 0, 2)];
            Ordered(v) && Pop(v) == [QueueUnit(2, 0, 2), QueueUnit(1, 0, 1)] && !Ordered(Pop(v))
  {
    var v := [QueueUnit(0, 0, 0), QueueUnit(1, 0, 1), QueueUnit(2, 0, 2)];
    assert PopBreaksOrder(v);
    PopKeepsOrderIff(v);
    var w := v[0 := v[2]][..2];
    assert w == [QueueUnit(2, 0, 2), QueueUnit(1, 0, 1)];
    LeafStops(w, 1);
  }

  /** The front after a pop: with two children left, the lesser one, of equal ones the right, if it is less than the
      last value; otherwise the last value, which goes on past a lone left child. */
  lemma PopFront(v: seq<QueueUnit>)
    requires |v| >= 2
    ensures var last := v[|v| - 1];
            Pop(v)[0] ==
              if |v| <= 3 then last
              else var child := if Compare(v[1], v[2]) < 0 then v[1] else v[2];
                   if Compare(child, last) < 0 then child else last
  {
    var w := v[0 := v[|v| - 1]][..|v| - 1];
    if |v| <= 3 {
      LeafStops(w, 1);
    } else {
      var next := NextChild(w, 1);
      RootIsUnderNone(next);
      if Compare(At(w, next), At(w, 1)) < 0 {
        SiftDownIsLocal(Swap(w, 1, next), next, 1);
      } else {
        SiftDownIsLocal(w, next, 1);
      }
    }
  }

  lemma RootIsUnderNone(i: nat)
    requires i > 1
    ensures !Under(i, 1)
  {
  }

  // ---------- Drains ----------

  /** The heap after `k` pops, and the values they delivered. */
  function Drain(v: seq<QueueUnit>, k: nat): (w: seq<QueueUnit>)
    requires k <= |v|
    ensures |w| == |v| - k
  {
    if k == 0 then v else Pop(Drain(v, k - 1))
  }

  function Delivered(v: seq<QueueUnit>, k: nat): (d: seq<QueueUnit>)
    requires k <= |v|
    ensures |d| == k
  {
    if k == 0 then [] else Delivered(v, k - 1) + [Drain(v, k - 1)[0]]
  }

  /** In such a heap the front is least among all values but the one at a lone last node. */
  lemma {:induction false} FrontIsLeastExceptLone(v: seq<QueueUnit>, i: nat)
    requires OrderedExceptLone(v) && 1 <= i <= |v| && !LoneEdge(v, i)
    ensures Le(v[0], At(v, i))
  {
    if i > 1 {
      FrontIsLeastExceptLone(v, i / 2);
      assert Edge(v, i);
    }
  }

  /** However long a drain goes on, at most the edge to a lone last node is out of order. */
  lemma {:induction false} DrainKeepsOrderExceptLone(v: seq<QueueUnit>, k: nat)
    requires OrderedExceptLone(v) && k <= |v|
    ensures OrderedExceptLone(Drain(v, k))
    ensures (|v| - k) % 2 == 1 ==> Ordered(Drain(v, k))
  {
    if k > 0 {
      DrainKeepsOrderExceptLone(v, k - 1);
      PopKeepsOrderExceptLone(Drain(v, k - 1));
    }
  }

  lemma {:induction false} DrainLosesNothing(v: seq<QueueUnit>, k: nat)
    requires k <= |v|
    ensures multiset(Delivered(v, k)) + multiset(Drain(v, k)) == multiset(v)
  {
    if k > 0 {
      DrainLosesNothing(v, k - 1);
      OneMoreDelivered(Delivered(v, k - 1), Drain(v, k - 1));
    }
  }

  lemma OneMoreDelivered(d: seq<QueueUnit>, w: seq<QueueUnit>)
    requires |w| > 0
    ensures multiset(d + [w[0]]) + multiset(Pop(w)) == multiset(d) + multiset(w)
  {
    PopRemovesFront(w);
    assert w[0] in multiset(w);
  }

  /** What a drain delivers next is least among all that is left, except possibly the last of an even
      number; with an odd number left it is least. */
  lemma DrainDeliversLeast(v: seq<QueueUnit>, k: nat, i: nat)
    requires OrderedExceptLone(v) && k < |v| && 1 <= i <= |v| - k
    ensures !LoneEdge(Drain(v, k), i) ==> Le(Delivered(v, k + 1)[k], At(Drain(v, k), i))
    ensures (|v| - k) % 2 == 1 ==> Le(Delivered(v, k + 1)[k], At(Drain(v, k), i))
  {
    DrainKeepsOrderExceptLone(v, k);
    if !LoneEdge(Drain(v, k), i) {
      FrontIsLeastExceptLone(Drain(v, k), i);
    }
  }

  /** A push does not mend a break: it can leave a broken edge above a node that is no longer last. */
  lemma PushCanKeepBreak()
    ensures var v := [QueueUnit(2, 0, 2), QueueUnit(1, 0, 1)];
            OrderedExceptLone(v) && Push(v, QueueUnit(3, 0, 3)) == v + [QueueUnit(3, 0, 3)]
            && !OrderedExceptLone(Push(v, QueueUnit(3, 0, 3)))
  {
    var v := [QueueUnit(2, 0, 2), QueueUnit(1, 0, 1)];
    var w := v + [QueueUnit(3, 0, 3)];
    assert SiftUp(w, 3) == SiftUp(w, 1) == w;
    assert !Edge(w, 2);
  }
}
