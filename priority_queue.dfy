/** The single-ended priority queue: a pointer-linked binary heap whose nodes also record the
    sizes of their two subtrees, so that insertion can steer towards the smaller side. Nodes live
    in an arena of parallel columns indexed by handle; `pr` fixes the comparator, with Highest
    ranking larger elements first and Lowest ranking smaller ones first. */
module SingleEndedQueue {
  import opened Outcomes
  import opened Priorities
  import opened Bags
  import opened Shape
  import opened Sifting

  class PriorityQueue {
    /** The comparator the queue was built with. */
    const pr: Priority
    /** Node columns: the element, the three links and the two subtree sizes of each handle. */
    var value: seq<int>
    var parent: seq<int>
    var left: seq<int>
    var right: seq<int>
    var leftCount: seq<int>
    var rightCount: seq<int>
    /** The root node, or Nil when the queue is empty. */
    var root: int
    /** The handles of the subtree below each handle. */
    ghost var sub: seq<set<int>>

    /** The nodes reachable from the root. */
    ghost function Live(): set<int>
      reads this`sub, this`root
    {
      Sub(sub, root)
    }

    /** The nodes form a counted, heap-ordered tree. */
    ghost predicate Wf()
      reads this
    {
      CountedHeap(pr, root, value, parent, left, right, leftCount, rightCount, sub)
    }

    /** The invariant between public operations: additionally, no node has a right child without
        a left one, and the size fits the signed 32-bit count. */
    ghost predicate Valid()
      reads this
    {
      Wf() && LeftFirst(root, left, right, sub) && |Live()| <= MaxCount
    }

    /** The elements held by the queue. */
    ghost function Contents(): multiset<int>
      reads this`value, this`sub, this`root
    {
      Vals(value, Live())
    }

    /** Allocates a detached node holding element. */
    method NewNode(element: int) returns (x: int)
      requires Valid()
      modifies this
      ensures x == old(|value|) && root == old(root)
      ensures value == old(value) + [element] && parent == old(parent) + [Nil]
      ensures left == old(left) + [Nil] && right == old(right) + [Nil]
      ensures leftCount == old(leftCount) + [0] && rightCount == old(rightCount) + [0]
      ensures sub == old(sub) + [{x}]
      ensures Valid() && Live() == old(Live()) && Contents() == old(Contents())
    {
      x := |value|;
      Extend(pr, root, value, parent, left, right, leftCount, rightCount, sub, element);
      value := value + [element];
      parent := parent + [Nil];
      left := left + [Nil];
      right := right + [Nil];
      leftCount := leftCount + [0];
      rightCount := rightCount + [0];
      sub := sub + [{x}];
    }

    /** Adds delta to the counter facing start on every ancestor of start. */
    method AddParentCount(start: int, delta: int)
      requires Shaped(root, parent, left, right, sub)
      requires |leftCount| == |left| && |rightCount| == |left|
      requires start in Live()
      modifies this`leftCount, this`rightCount
      ensures (leftCount, rightCount) == Raised(root, parent, left, right, sub, old(leftCount), old(rightCount), start, delta)
    {
      var node := start;
      while parent[node] != Nil
        invariant node in Live() && |leftCount| == |left| && |rightCount| == |left|
        invariant Raised(root, parent, left, right, sub, leftCount, rightCount, node, delta)
                  == Raised(root, parent, left, right, sub, old(leftCount), old(rightCount), start, delta)
        decreases |Live()| - |Sub(sub, node)|
      {
        var q := parent[node];
        ChildInsideParent(root, parent, left, right, sub, node);
        if left[q] == node {
          leftCount := leftCount[q := leftCount[q] + delta];
        } else {
          rightCount := rightCount[q := rightCount[q] + delta];
        }
        node := q;
      }
    }

    /** Exchanges the elements of two nodes. */
    method SwapValue(a: int, b: int)
      requires 0 <= a < |value| && 0 <= b < |value|
      modifies this`value
      ensures value == old(value)[a := old(value)[b]][b := old(value)[a]]
    {
      var v := value[a];
      value := value[a := value[b]];
      value := value[b := v];
    }

    /** Moves the element at start up while it outranks its parent's. */
    method UpHeap(start: int)
      requires Shaped(root, parent, left, right, sub) && |value| == |parent|
      requires start in Live()
      modifies this`value
      ensures value == Risen(pr, root, parent, left, right, sub, old(value), start)
    {
      var node := start;
      while parent[node] != Nil
        invariant node in Live() && |value| == |parent|
        invariant Risen(pr, root, parent, left, right, sub, value, node)
                  == Risen(pr, root, parent, left, right, sub, old(value), start)
        decreases |Live()| - |Sub(sub, node)|
      {
        var p := parent[node];
        ChildInsideParent(root, parent, left, right, sub, node);
        if Compare(pr, value[p], value[node]) {
          SwapValue(node, p);
          node := p;
        } else {
          break;
        }
      }
    }

    /** Moves the element at start down while the selected child outranks it. */
    method DownHeap(start: int)
      requires Shaped(root, parent, left, right, sub) && |value| == |parent|
      requires 0 <= start < |left| && (start in Live() || (left[start] == Nil && right[start] == Nil))
      modifies this`value
      ensures value == Sunk(pr, root, parent, left, right, sub, old(value), start)
    {
      var node := start;
      while left[node] != Nil || right[node] != Nil
        invariant 0 <= node < |left| && (node in Live() || (left[node] == Nil && right[node] == Nil))
        invariant |value| == |parent|
        invariant Sunk(pr, root, parent, left, right, sub, value, node)
                  == Sunk(pr, root, parent, left, right, sub, old(value), start)
        decreases |Sub(sub, node)|
      {
        assert NodeShaped(node, root, parent, left, right, sub);
        var select := if right[node] != Nil then right[node] else left[node];
        if left[node] != Nil && right[node] != Nil {
          select := if Compare(pr, value[left[node]], value[right[node]]) then right[node] else left[node];
        }
        if Compare(pr, value[node], value[select]) {
          ChildOf(root, parent, left, right, sub, node, select);
          SwapValue(node, select);
          node := select;
        } else {
          break;
        }
      }
    }

    /** Removes the element of target: the element of a leaf below target takes its place, the
        leaf is detached and the moved element sinks to its position. */
    method DeleteNode(target: int) returns (ghost leaf: int)
      requires Wf() && target in Live()
      modifies this
      ensures Wf()
      ensures leaf == old(LeafOf(root, parent, left, right, sub, target))
      ensures leaf in old(Sub(sub, target)) && Live() == old(Live()) - {leaf}
      ensures Contents() == old(Contents()) - multiset{old(value[target])}
      ensures old(LeftFirst(root, left, right, sub)) && (target == old(root) || old(left[target]) != Nil || old(right[target]) != Nil)
              ==> LeftFirst(root, left, right, sub)
    {
      ghost var root0, value0, left0, right0, sub0 := root, value, left, right, sub;
      ghost var leftCount0, rightCount0 := leftCount, rightCount;
      var node := SwapWithLeaf(target);
      leaf := node;
      DetachLeaf(node);
      Settle(root0, value0, left0, right0, leftCount0, rightCount0, sub0, target, node);
      if LeftFirst(root0, left0, right0, sub0) && (target == root0 || left0[target] != Nil || right0[target] != Nil) {
        UnlinkLeftFirst(root0, parent, left0, right0, sub0, node, root, left, right, sub);
      }
    }

    /** The first half of DeleteNode: the walk to a leaf below target, the exchange of the
        elements of target and the leaf, and the counters above the leaf dropping by one. */
    method SwapWithLeaf(target: int) returns (leaf: int)
      requires Wf() && target in Live()
      modifies this`value, this`leftCount, this`rightCount
      ensures leaf == LeafOf(root, parent, left, right, sub, target)
      ensures leaf in Sub(sub, target) && leaf in Live() && left[leaf] == Nil && right[leaf] == Nil
      ensures leaf != target ==> 0 <= parent[leaf] < |right| && (right[parent[leaf]] == leaf || right[parent[leaf]] == Nil)
      ensures 0 <= target < |value| && 0 <= leaf < |value| && |value| == old(|value|)
      ensures value == old(value)[target := old(value[leaf])][leaf := old(value[target])]
      ensures (leftCount, rightCount) == Raised(root, parent, left, right, sub, old(leftCount), old(rightCount), leaf, -1)
    {
      leaf := LeafBelow(target);
      SwapValue(target, leaf);
      AddParentCount(leaf, -1);
    }

    /** The second half of DeleteNode, once the leaf is detached: the element moved to target
        sinks, and the tree is again a counted heap, without the leaf and without target's old
        element. */
    method Settle(ghost root0: int, ghost value0: seq<int>, ghost left0: seq<int>, ghost right0: seq<int>,
                  ghost leftCount0: seq<int>, ghost rightCount0: seq<int>, ghost sub0: seq<set<int>>,
                  target: int, ghost leaf: int)
      requires CountedHeap(pr, root0, value0, parent, left0, right0, leftCount0, rightCount0, sub0)
      requires target in Sub(sub0, root0) && leaf in Sub(sub0, target)
      requires Unlinked(root0, parent, left0, right0, sub0, leaf, root, left, right, sub)
      requires (leftCount, rightCount) == Raised(root0, parent, left0, right0, sub0, leftCount0, rightCount0, leaf, -1)
      requires value == value0[target := value0[leaf]][leaf := value0[target]]
      modifies this`value
      ensures Wf() && Live() == Sub(sub0, root0) - {leaf}
      ensures Contents() == Vals(value0, Sub(sub0, root0)) - multiset{value0[target]}
    {
      UnlinkShape(root0, parent, left0, right0, sub0, leaf, root, left, right, sub);
      DownHeap(target);
      DeleteRestores(pr, root0, value0, parent, left0, right0, leftCount0, rightCount0, sub0, target, leaf,
                     root, value, left, right, leftCount, rightCount, sub);
    }

    /** The walk of DeleteNode from target down to a leaf, preferring right children. */
    method LeafBelow(target: int) returns (leaf: int)
      requires Shaped(root, parent, left, right, sub) && target in Live()
      ensures leaf in Sub(sub, target) && leaf in Live() && left[leaf] == Nil && right[leaf] == Nil
      ensures leaf != target ==> 0 <= parent[leaf] < |right| && (right[parent[leaf]] == leaf || right[parent[leaf]] == Nil)
      ensures target == leaf <==> left[target] == Nil && right[target] == Nil
      ensures leaf == LeafOf(root, parent, left, right, sub, target)
    {
      leaf := target;
      assert NodeShaped(target, root, parent, left, right, sub);
      while left[leaf] != Nil || right[leaf] != Nil
        invariant leaf in Sub(sub, target) && leaf in Live() && 0 <= leaf < |left|
        invariant leaf != target ==> 0 <= parent[leaf] < |right| && (right[parent[leaf]] == leaf || right[parent[leaf]] == Nil)
        invariant target == leaf || left[target] != Nil || right[target] != Nil
        invariant LeafOf(root, parent, left, right, sub, leaf) == LeafOf(root, parent, left, right, sub, target)
        decreases |Sub(sub, leaf)|
      {
        var next := if right[leaf] != Nil then right[leaf] else left[leaf];
        ChildOf(root, parent, left, right, sub, leaf, next);
        Descendant(root, parent, left, right, sub, target, leaf);
        assert NodeShaped(next, root, parent, left, right, sub);
        leaf := next;
      }
    }

    /** Detaches the live leaf: the tree becomes empty when it is the root, otherwise its
        parent's reference to it is cleared. */
    method DetachLeaf(leaf: int)
      requires Shaped(root, parent, left, right, sub)
      requires leaf in Live() && left[leaf] == Nil && right[leaf] == Nil
      modifies this`root, this`left, this`right, this`sub
      ensures Unlinked(old(root), parent, old(left), old(right), old(sub), leaf, root, left, right, sub)
    {
      ghost var root0, sub0 := root, sub;
      assert NodeShaped(leaf, root, parent, left, right, sub);
      if leaf == root {
        root := Nil;
      } else if left[parent[leaf]] == leaf {
        left := left[parent[leaf] := Nil];
      } else {
        right := right[parent[leaf] := Nil];
      }
      sub := SubAfterUnlink(sub0, root0, leaf);
    }

    /** Creates an empty queue ranking elements by pr. */
    constructor(pr: Priority)
      ensures this.pr == pr && Valid() && Contents() == multiset{}
    {
      this.pr := pr;
      value, parent, left, right := [], [], [], [];
      leftCount, rightCount := [], [];
      root := Nil;
      sub := [];
    }

    /** Hangs the detached node x below p as its left or right child and sifts its element up. */
    method LinkLeaf(p: int, x: int, asLeft: bool)
      requires Wf() && p in Live()
      requires 0 <= x < |parent| && x !in Live() && left[x] == Nil && right[x] == Nil
      requires leftCount[x] == 0 && rightCount[x] == 0
      requires if asLeft then left[p] == Nil else right[p] == Nil
      modifies this
      ensures Wf() && root == old(root) && Live() == old(Live()) + {x}
      ensures Contents() == old(Contents()) + multiset{old(value[x])}
      ensures old(LeftFirst(root, left, right, sub)) && (asLeft || old(left[p]) != Nil) ==> LeftFirst(root, left, right, sub)
      ensures parent == old(parent)[x := p]
      ensures left == (if asLeft then old(left)[p := x] else old(left))
      ensures right == (if asLeft then old(right) else old(right)[p := x])
    {
      ghost var value0, parent0, left0, right0, sub0 := value, parent, left, right, sub;
      ghost var leftCount0, rightCount0 := leftCount, rightCount;
      if asLeft {
        left := left[p := x];
      } else {
        right := right[p := x];
      }
      parent := parent[x := p];
      sub := SubAfterLink(sub0, root, p, x);
      assert Linked(root, parent0, left0, right0, sub0, p, x, asLeft, parent, left, right, sub);
      LinkShape(root, parent0, left0, right0, sub0, p, x, asLeft, parent, left, right, sub);
      AddParentCount(x, 1);
      UpHeap(x);
      LinkRestores(pr, root, value0, parent0, left0, right0, leftCount0, rightCount0, sub0, p, x, asLeft,
                   value, parent, left, right, leftCount, rightCount, sub);
      if LeftFirst(root, left0, right0, sub0) && (asLeft || left0[p] != Nil) {
        LinkLeftFirst(root, parent0, left0, right0, sub0, p, x, asLeft, parent, left, right, sub);
      }
    }

    /** The insertion branch of Enqueue: the walk from the root goes to the smaller side until
        a node with a free child slot, where x is hung, in the left slot first. */
    method Insert(x: int) returns (ghost p: int)
      requires Wf() && root != Nil
      requires 0 <= x < |parent| && x !in Live() && left[x] == Nil && right[x] == Nil
      requires leftCount[x] == 0 && rightCount[x] == 0
      modifies this
      ensures Wf() && root == old(root) && Live() == old(Live()) + {x}
      ensures Contents() == old(Contents()) + multiset{old(value[x])}
      ensures old(LeftFirst(root, left, right, sub)) ==> LeftFirst(root, left, right, sub)
      ensures p == old(InsertionPoint(root, parent, left, right, sub, leftCount, rightCount, root))
      ensures parent == old(parent)[x := p]
      ensures left == (if old(left[p]) == Nil then old(left)[p := x] else old(left))
      ensures right == (if old(left[p]) == Nil then old(right) else old(right)[p := x])
    {
      assert root in Live();
      var node := root;
      while left[node] != Nil && right[node] != Nil
        invariant node in Live() && 0 <= node < |left|
        invariant InsertionPoint(root, parent, left, right, sub, leftCount, rightCount, node)
                  == InsertionPoint(root, parent, left, right, sub, leftCount, rightCount, root)
        modifies {}
        decreases |Sub(sub, node)|
      {
        ChildOf(root, parent, left, right, sub, node, left[node]);
        ChildOf(root, parent, left, right, sub, node, right[node]);
        node := if leftCount[node] > rightCount[node] then right[node] else left[node];
      }
      assert NodeShaped(node, root, parent, left, right, sub);
      p := node;
      LinkLeaf(node, x, left[node] == Nil);
    }

    /** Adds element, or reports Overflow when the count is already the largest signed 32-bit
        integer. */
    method Enqueue(element: int) returns (o: Outcome)
      requires Valid()
      modifies this
      ensures Valid()
      ensures o == (if old(|Contents()|) < MaxCount then Pass else Fail(Overflow))
      ensures o.Pass? ==> Contents() == old(Contents()) + multiset{element}
      ensures o.Fail? ==> Contents() == old(Contents()) && Live() == old(Live())
      ensures o.Pass? && old(root) == Nil ==> root == old(|value|)
      ensures o.Pass? && old(root) != Nil ==>
                var p := old(InsertionPoint(root, parent, left, right, sub, leftCount, rightCount, root));
                root == old(root) && parent == old(parent) + [p]
                && left == (if old(left[p]) == Nil then (old(left) + [Nil])[p := old(|value|)] else old(left) + [Nil])
                && right == (if old(left[p]) == Nil then old(right) + [Nil] else (old(right) + [Nil])[p := old(|value|)])
    {
      ghost var parent0, left0, right0, sub0, leftCount0, rightCount0 := parent, left, right, sub, leftCount, rightCount;
      var x := NewNode(element);
      if root == Nil {
        ValsSize(value, Live());
        ghost var before := Contents();
        assert before == Vals(value, {});
        root := x;
        Singleton(pr, x, parent, left, right, sub, value, leftCount, rightCount);
        ValsAdd(value, {}, x);
        assert {} + {x} == {x};
        assert Contents() == before + multiset{element};
        o := Pass;
      } else if Count() < MaxCount {
        InsertionPointExtend(root, parent0, left0, right0, sub0, leftCount0, rightCount0, root);
        ghost var before := Contents();
        ghost var p := Insert(x);
        assert Contents() == before + multiset{element};
        o := Pass;
      } else {
        o := Fail(Overflow);
      }
    }

    /** Removes and returns the element of highest priority, or reports EmptyQueue. */
    method Dequeue() returns (r: Result<int>)
      requires Valid()
      modifies this
      ensures Valid()
      ensures r == old(Front())
      ensures r.Success? ==> Contents() == old(Contents()) - multiset{r.value}
      ensures r.Failure? ==> Contents() == old(Contents()) && Live() == old(Live())
    {
      if root == Nil {
        return Failure(EmptyQueue);
      }
      var returnValue := value[root];
      ghost var leaf := DeleteNode(root);
      r := Success(returnValue);
    }

    /** The number of elements. */
    function Count(): (c: int)
      reads this
      requires Wf()
      ensures c == |Contents()| && c == |Live()|
    {
      ValsSize(value, Live());
      if root != Nil then
        TreeSize(root, parent, left, right, sub);
        assert root in Live();
        leftCount[root] + rightCount[root] + 1
      else
        0
    }

    /** The element of highest priority, or EmptyQueue. */
    function Front(): (r: Result<int>)
      reads this
      requires Wf()
      ensures r.Success? <==> Contents() != multiset{}
      ensures r.Failure? ==> r.error == EmptyQueue
      ensures r.Success? ==> r.value in Contents() && forall y | y in Contents() :: InOrder(pr, r.value, y)
    {
      ValsSize(value, Live());
      if root != Nil then
        RootOrdered(pr, root, parent, left, right, sub, value);
        assert root in Live();
        ValsRemove(value, Live(), root);
        var top := value[root];
        ValsBounded(value, Live(), y => InOrder(pr, top, y));
        Success(top)
      else
        Failure(EmptyQueue)
    }
  }
}
