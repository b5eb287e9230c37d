/** The private helpers both queues share, as functions over the arena columns, and what
    they achieve: AddParentCount (Raised), UpHeap (Risen) and DownHeap (Sunk), and the two
    compound edits built from them, deleting a node's element and hanging a fresh leaf. */
module Sifting {
  import opened Priorities
  import opened Bags
  import opened Shape

  /** What both queues keep for each of their trees between operations: a shaped tree whose
      counters are the subtree sizes and whose edges are heap-ordered. */
  ghost predicate CountedHeap(pr: Priority, root: int, value: seq<int>, parent: seq<int>, left: seq<int>,
                              right: seq<int>, leftCount: seq<int>, rightCount: seq<int>, sub: seq<set<int>>)
  {
    Shaped(root, parent, left, right, sub)
    && |value| == |parent| && |leftCount| == |parent| && |rightCount| == |parent|
    && Counted(root, left, right, leftCount, rightCount, sub)
    && HeapOrdered(pr, root, value, parent, sub)
  }

  // ---------------------------------------------------------------------------------------
  // AddParentCount

  /** The counters after AddParentCount(node, delta): climbing from node to the root, each
      parent's counter on the side the climb came from moves by delta. */
  ghost function Raised(root: int, parent: seq<int>, left: seq<int>, right: seq<int>, sub: seq<set<int>>,
                        leftCount: seq<int>, rightCount: seq<int>, node: int, delta: int): (counts: (seq<int>, seq<int>))
    requires Shaped(root, parent, left, right, sub) && |leftCount| == |left| && |rightCount| == |left|
    requires node in Sub(sub, root)
    ensures |counts.0| == |left| && |counts.1| == |left|
    decreases |Sub(sub, root)| - |Sub(sub, node)|
  {
    if parent[node] == Nil then
      (leftCount, rightCount)
    else
      ChildInsideParent(root, parent, left, right, sub, node);
      var q := parent[node];
      if left[q] == node then
        Raised(root, parent, left, right, sub, leftCount[q := leftCount[q] + delta], rightCount, q, delta)
      else
        Raised(root, parent, left, right, sub, leftCount, rightCount[q := rightCount[q] + delta], q, delta)
  }

  /** The climb from node, with the ancestors of start inside the subtree of node already
      moved, moves exactly the remaining ancestors of start. */
  lemma {:induction false} RaisedClimb(root: int, parent: seq<int>, left: seq<int>, right: seq<int>, sub: seq<set<int>>,
                                       base: seq<int>, baseRight: seq<int>, leftCount: seq<int>, rightCount: seq<int>,
                                       start: int, node: int, delta: int)
    requires Shaped(root, parent, left, right, sub)
    requires |base| == |left| && |baseRight| == |left| && |leftCount| == |left| && |rightCount| == |left|
    requires node in Sub(sub, root) && start in Sub(sub, node)
    requires forall m | 0 <= m < |left| ::
               leftCount[m] == base[m] + (if m in Sub(sub, node) && start in Sub(sub, left[m]) then delta else 0)
               && rightCount[m] == baseRight[m] + (if m in Sub(sub, node) && start in Sub(sub, right[m]) then delta else 0)
    ensures var counts := Raised(root, parent, left, right, sub, leftCount, rightCount, node, delta);
            forall m | 0 <= m < |left| ::
              counts.0[m] == base[m] + (if m in Sub(sub, root) && start in Sub(sub, left[m]) then delta else 0)
              && counts.1[m] == baseRight[m] + (if m in Sub(sub, root) && start in Sub(sub, right[m]) then delta else 0)
    decreases |Sub(sub, root)| - |Sub(sub, node)|
  {
    if parent[node] == Nil {
      OrphanIsRoot(root, parent, left, right, sub, node);
    } else {
      ChildInsideParent(root, parent, left, right, sub, node);
      var q := parent[node];
      var leftCount', rightCount' :=
        if left[q] == node then leftCount[q := leftCount[q] + delta] else leftCount,
        if left[q] == node then rightCount else rightCount[q := rightCount[q] + delta];
      forall m | 0 <= m < |left|
        ensures leftCount'[m] == base[m] + (if m in Sub(sub, q) && start in Sub(sub, left[m]) then delta else 0)
        ensures rightCount'[m] == baseRight[m] + (if m in Sub(sub, q) && start in Sub(sub, right[m]) then delta else 0)
      {
        ClimbStep(root, parent, left, right, sub, node, start, m);
      }
      RaisedClimb(root, parent, left, right, sub, base, baseRight, leftCount', rightCount', start, q, delta);
    }
  }

  /** AddParentCount(start, delta) moves by delta exactly the counter facing start on every
      ancestor of start, and no other counter. */
  lemma RaisedCounts(root: int, parent: seq<int>, left: seq<int>, right: seq<int>, sub: seq<set<int>>,
                     leftCount: seq<int>, rightCount: seq<int>, start: int, delta: int)
    requires Shaped(root, parent, left, right, sub) && |leftCount| == |left| && |rightCount| == |left|
    requires start in Sub(sub, root)
    ensures var counts := Raised(root, parent, left, right, sub, leftCount, rightCount, start, delta);
            forall m | 0 <= m < |left| ::
              counts.0[m] == leftCount[m] + (if m in Sub(sub, root) && start in Sub(sub, left[m]) then delta else 0)
              && counts.1[m] == rightCount[m] + (if m in Sub(sub, root) && start in Sub(sub, right[m]) then delta else 0)
  {
    assert NodeShaped(start, root, parent, left, right, sub);
    forall m | 0 <= m < |left| && m in Sub(sub, start)
      ensures start !in Sub(sub, left[m]) && start !in Sub(sub, right[m])
    {
      NotBelowDescendant(root, parent, left, right, sub, start, m);
    }
    RaisedClimb(root, parent, left, right, sub, leftCount, rightCount, leftCount, rightCount, start, start, delta);
  }

  // ---------------------------------------------------------------------------------------
  // UpHeap and DownHeap

  /** The column after the element at node has climbed: while its parent is outranked by it,
      the two elements trade places. */
  ghost function Risen(pr: Priority, root: int, parent: seq<int>, left: seq<int>, right: seq<int>,
                       sub: seq<set<int>>, value: seq<int>, node: int): (value': seq<int>)
    requires Shaped(root, parent, left, right, sub) && |value| == |parent|
    requires node in Sub(sub, root)
    ensures |value'| == |value|
    decreases |Sub(sub, root)| - |Sub(sub, node)|
  {
    if parent[node] == Nil then
      value
    else
      ChildInsideParent(root, parent, left, right, sub, node);
      var p := parent[node];
      if Compare(pr, value[p], value[node]) then
        Risen(pr, root, parent, left, right, sub, value[node := value[p]][p := value[node]], p)
      else
        value
  }

  /** The child of node that DownHeap compares with: the only child, or of two children the
      right one exactly when it outranks the left one. */
  ghost function Selected(pr: Priority, value: seq<int>, left: seq<int>, right: seq<int>, node: int): int
    requires 0 <= node < |left| && node < |right|
    requires Nil <= left[node] < |value| && Nil <= right[node] < |value|
  {
    if left[node] != Nil && right[node] != Nil then
      if Compare(pr, value[left[node]], value[right[node]]) then right[node] else left[node]
    else if right[node] != Nil then right[node] else left[node]
  }

  /** The column after the element at node has sunk: while the selected child outranks it,
      the two elements trade places. A node without children is left alone. */
  ghost function Sunk(pr: Priority, root: int, parent: seq<int>, left: seq<int>, right: seq<int>,
                      sub: seq<set<int>>, value: seq<int>, node: int): (value': seq<int>)
    requires Shaped(root, parent, left, right, sub) && |value| == |parent|
    requires 0 <= node < |left| && (node in Sub(sub, root) || (left[node] == Nil && right[node] == Nil))
    ensures |value'| == |value|
    decreases |Sub(sub, node)|
  {
    if left[node] == Nil && right[node] == Nil then
      value
    else
      assert NodeShaped(node, root, parent, left, right, sub);
      var sel := Selected(pr, value, left, right, node);
      if Compare(pr, value[node], value[sel]) then
        ChildOf(root, parent, left, right, sub, node, sel);
        Sunk(pr, root, parent, left, right, sub, value[node := value[sel]][sel := value[node]], sel)
      else
        value
  }

  /** Climbing only exchanges elements of the tree: the multiset of the tree is kept and
      every other handle keeps its element. */
  lemma {:induction false} RiseKeeps(pr: Priority, root: int, parent: seq<int>, left: seq<int>, right: seq<int>,
                                     sub: seq<set<int>>, value: seq<int>, node: int)
    requires Shaped(root, parent, left, right, sub) && |value| == |parent|
    requires node in Sub(sub, root)
    ensures var value' := Risen(pr, root, parent, left, right, sub, value, node);
            Vals(value', Sub(sub, root)) == Vals(value, Sub(sub, root))
            && forall i | 0 <= i < |value| && i !in Sub(sub, root) :: value'[i] == value[i]
    decreases |Sub(sub, root)| - |Sub(sub, node)|
  {
    if parent[node] != Nil {
      ChildInsideParent(root, parent, left, right, sub, node);
      var p := parent[node];
      if Compare(pr, value[p], value[node]) {
        ValsSwap(value, Sub(sub, root), node, p);
        RiseKeeps(pr, root, parent, left, right, sub, value[node := value[p]][p := value[node]], p);
      }
    }
  }

  /** Climbing the element at the one node whose incoming edge may be out of order restores
      heap order. */
  lemma {:induction false} RiseOrders(pr: Priority, root: int, parent: seq<int>, left: seq<int>, right: seq<int>,
                                      sub: seq<set<int>>, value: seq<int>, node: int)
    requires Shaped(root, parent, left, right, sub) && |value| == |parent|
    requires node in Sub(sub, root)
    requires OrderedExceptInto(pr, root, value, parent, sub, node) && Bridged(pr, root, value, parent, sub, node)
    ensures HeapOrdered(pr, root, Risen(pr, root, parent, left, right, sub, value, node), parent, sub)
    decreases |Sub(sub, root)| - |Sub(sub, node)|
  {
    if parent[node] != Nil {
      ChildInsideParent(root, parent, left, right, sub, node);
      var p := parent[node];
      if Compare(pr, value[p], value[node]) {
        SiftUpStep(pr, root, parent, left, right, sub, value, node);
        RiseOrders(pr, root, parent, left, right, sub, value[node := value[p]][p := value[node]], p);
      } else {
        SiftUpDone(pr, root, parent, left, right, sub, value, node);
      }
    } else {
      SiftUpDone(pr, root, parent, left, right, sub, value, node);
    }
  }

  /** Sinking only exchanges elements of the tree: the multiset of the tree is kept and every
      other handle keeps its element. */
  lemma {:induction false} SinkKeeps(pr: Priority, root: int, parent: seq<int>, left: seq<int>, right: seq<int>,
                                     sub: seq<set<int>>, value: seq<int>, node: int)
    requires Shaped(root, parent, left, right, sub) && |value| == |parent|
    requires 0 <= node < |left| && (node in Sub(sub, root) || (left[node] == Nil && right[node] == Nil))
    ensures var value' := Sunk(pr, root, parent, left, right, sub, value, node);
            Vals(value', Sub(sub, root)) == Vals(value, Sub(sub, root))
            && forall i | 0 <= i < |value| && i !in Sub(sub, root) :: value'[i] == value[i]
    decreases |Sub(sub, node)|
  {
    if left[node] != Nil || right[node] != Nil {
      assert NodeShaped(node, root, parent, left, right, sub);
      var sel := Selected(pr, value, left, right, node);
      if Compare(pr, value[node], value[sel]) {
        ChildOf(root, parent, left, right, sub, node, sel);
        ValsSwap(value, Sub(sub, root), node, sel);
        SinkKeeps(pr, root, parent, left, right, sub, value[node := value[sel]][sel := value[node]], sel);
      }
    }
  }

  /** Sinking the element at the one node whose outgoing edges may be out of order restores
      heap order. */
  lemma {:induction false} SinkOrders(pr: Priority, root: int, parent: seq<int>, left: seq<int>, right: seq<int>,
                                      sub: seq<set<int>>, value: seq<int>, node: int)
    requires Shaped(root, parent, left, right, sub) && |value| == |parent|
    requires 0 <= node < |left| && (node in Sub(sub, root) || (left[node] == Nil && right[node] == Nil))
    requires OrderedExceptOutOf(pr, root, value, parent, sub, node) && Bridged(pr, root, value, parent, sub, node)
    ensures HeapOrdered(pr, root, Sunk(pr, root, parent, left, right, sub, value, node), parent, sub)
    decreases |Sub(sub, node)|
  {
    if left[node] == Nil && right[node] == Nil {
      SiftDownDone(pr, root, parent, left, right, sub, value, node, node);
    } else {
      assert NodeShaped(node, root, parent, left, right, sub);
      var sel := Selected(pr, value, left, right, node);
      assert BestChild(pr, value, left, right, node, sel);
      if Compare(pr, value[node], value[sel]) {
        ChildOf(root, parent, left, right, sub, node, sel);
        SiftDownStep(pr, root, parent, left, right, sub, value, node, sel);
        SinkOrders(pr, root, parent, left, right, sub, value[node := value[sel]][sel := value[node]], sel);
      } else {
        SiftDownDone(pr, root, parent, left, right, sub, value, node, sel);
      }
    }
  }

  // ---------------------------------------------------------------------------------------
  // Compound edits

  /** Allocating a detached node at the end of the columns leaves the tree as it was. */
  lemma Extend(pr: Priority, root: int, value: seq<int>, parent: seq<int>, left: seq<int>, right: seq<int>,
               leftCount: seq<int>, rightCount: seq<int>, sub: seq<set<int>>, element: int)
    requires CountedHeap(pr, root, value, parent, left, right, leftCount, rightCount, sub)
    ensures var x := |sub|;
            CountedHeap(pr, root, value + [element], parent + [Nil], left + [Nil], right + [Nil],
                        leftCount + [0], rightCount + [0], sub + [{x}])
            && Sub(sub + [{x}], root) == Sub(sub, root)
            && Vals(value + [element], Sub(sub, root)) == Vals(value, Sub(sub, root))
            && (LeftFirst(root, left, right, sub) ==> LeftFirst(root, left + [Nil], right + [Nil], sub + [{x}]))
  {
    var x := |sub|;
    var value', parent', left', right' := value + [element], parent + [Nil], left + [Nil], right + [Nil];
    var leftCount', rightCount', sub' := leftCount + [0], rightCount + [0], sub + [{x}];
    ShapedFrame(root, parent, left, right, sub, parent', left', right', sub');
    CountedFrame(root, parent, left, right, sub, leftCount, rightCount, left', right', sub', leftCount', rightCount');
    OrderedFrame(pr, root, parent, left, right, sub, value, parent', sub', value');
    if LeftFirst(root, left, right, sub) {
      LeftFirstFrame(root, parent, left, right, sub, left', right', sub');
    }
    ValsFrame(value, value', Sub(sub, root));
  }

  /** DeleteNode(target): the element of a leaf below target replaces target's element, the
      counters above the leaf drop by one, the leaf is detached and the moved element sinks.
      The result is again a counted heap, without the leaf and without target's element, and
      nothing outside the old tree changes. */
  lemma DeleteRestores(pr: Priority, root: int, value: seq<int>, parent: seq<int>, left: seq<int>, right: seq<int>,
                       leftCount: seq<int>, rightCount: seq<int>, sub: seq<set<int>>, target: int, leaf: int,
                       root': int, value': seq<int>, left': seq<int>, right': seq<int>,
                       leftCount': seq<int>, rightCount': seq<int>, sub': seq<set<int>>)
    requires CountedHeap(pr, root, value, parent, left, right, leftCount, rightCount, sub)
    requires target in Sub(sub, root) && leaf in Sub(sub, target)
    requires Unlinked(root, parent, left, right, sub, leaf, root', left', right', sub')
    requires (leftCount', rightCount') == Raised(root, parent, left, right, sub, leftCount, rightCount, leaf, -1)
    requires Shaped(root', parent, left', right', sub') && 0 <= target < |left'|
    requires target in Sub(sub', root') || (left'[target] == Nil && right'[target] == Nil)
    requires value' == Sunk(pr, root', parent, left', right', sub',
                            value[target := value[leaf]][leaf := value[target]], target)
    ensures CountedHeap(pr, root', value', parent, left', right', leftCount', rightCount', sub')
    ensures Sub(sub', root') == Sub(sub, root) - {leaf}
    ensures Vals(value', Sub(sub', root')) == Vals(value, Sub(sub, root)) - multiset{value[target]}
    ensures forall i | 0 <= i < |value| && i !in Sub(sub, root) ::
              value'[i] == value[i] && leftCount'[i] == leftCount[i] && rightCount'[i] == rightCount[i]
    ensures 0 <= leaf < |value'| && value'[leaf] == value[target]
  {
    Descendant(root, parent, left, right, sub, target, leaf);
    UnlinkShape(root, parent, left, right, sub, leaf, root', left', right', sub');
    DeleteCounted(root, parent, left, right, sub, leftCount, rightCount, leaf,
                  root', left', right', sub', leftCount', rightCount');
    DeleteOrders(pr, root, value, parent, left, right, sub, target, leaf, root', value', left', right', sub');
    DeleteKeeps(pr, root, value, parent, left, right, sub, target, leaf, root', value', left', right', sub');
  }

  /** The counters after DeleteNode count the smaller tree; outside the old tree none moves. */
  lemma DeleteCounted(root: int, parent: seq<int>, left: seq<int>, right: seq<int>, sub: seq<set<int>>,
                      leftCount: seq<int>, rightCount: seq<int>, leaf: int,
                      root': int, left': seq<int>, right': seq<int>, sub': seq<set<int>>,
                      leftCount': seq<int>, rightCount': seq<int>)
    requires Unlinked(root, parent, left, right, sub, leaf, root', left', right', sub')
    requires Counted(root, left, right, leftCount, rightCount, sub) && |leftCount| == |rightCount| == |left|
    requires (leftCount', rightCount') == Raised(root, parent, left, right, sub, leftCount, rightCount, leaf, -1)
    ensures |leftCount'| == |left| && |rightCount'| == |left|
    ensures Counted(root', left', right', leftCount', rightCount', sub')
    ensures forall i | 0 <= i < |left| && i !in Sub(sub, root) :: leftCount'[i] == leftCount[i] && rightCount'[i] == rightCount[i]
  {
    RaisedCounts(root, parent, left, right, sub, leftCount, rightCount, leaf, -1);
    UnlinkCounted(root, parent, left, right, sub, leaf, root', left', right', sub',
                  leftCount, rightCount, leftCount', rightCount');
  }

  /** The column after DeleteNode is heap-ordered over the smaller tree. */
  lemma DeleteOrders(pr: Priority, root: int, value: seq<int>, parent: seq<int>, left: seq<int>, right: seq<int>,
                     sub: seq<set<int>>, target: int, leaf: int,
                     root': int, value': seq<int>, left': seq<int>, right': seq<int>, sub': seq<set<int>>)
    requires Unlinked(root, parent, left, right, sub, leaf, root', left', right', sub')
    requires |value| == |parent| && HeapOrdered(pr, root, value, parent, sub)
    requires target in Sub(sub, root) && leaf in Sub(sub, target)
    requires Shaped(root', parent, left', right', sub') && 0 <= target < |left'|
    requires target in Sub(sub', root') || (left'[target] == Nil && right'[target] == Nil)
    requires value' == Sunk(pr, root', parent, left', right', sub',
                            value[target := value[leaf]][leaf := value[target]], target)
    ensures HeapOrdered(pr, root', value', parent, sub')
  {
    UnlinkOrder(pr, root, parent, left, right, sub, leaf, root', left', right', sub', value, target);
    SinkOrders(pr, root', parent, left', right', sub', value[target := value[leaf]][leaf := value[target]], target);
  }

  /** DeleteNode removes exactly target's element from the tree and changes no element outside
      the old tree. */
  lemma DeleteKeeps(pr: Priority, root: int, value: seq<int>, parent: seq<int>, left: seq<int>, right: seq<int>,
                    sub: seq<set<int>>, target: int, leaf: int,
                    root': int, value': seq<int>, left': seq<int>, right': seq<int>, sub': seq<set<int>>)
    requires Unlinked(root, parent, left, right, sub, leaf, root', left', right', sub')
    requires |value| == |parent| && target in Sub(sub, root)
    requires Shaped(root', parent, left', right', sub') && 0 <= target < |left'|
    requires target in Sub(sub', root') || (left'[target] == Nil && right'[target] == Nil)
    requires value' == Sunk(pr, root', parent, left', right', sub',
                            value[target := value[leaf]][leaf := value[target]], target)
    ensures |value'| == |value|
    ensures Vals(value', Sub(sub', root')) == Vals(value, Sub(sub, root)) - multiset{value[target]}
    ensures forall i | 0 <= i < |value| && i !in Sub(sub, root) :: value'[i] == value[i]
    ensures 0 <= leaf < |value'| && value'[leaf] == value[target]
  {
    var live, live' := Sub(sub, root), Sub(sub', root');
    var swapped := value[target := value[leaf]][leaf := value[target]];
    UnlinkLive(root, parent, left, right, sub, leaf, root', left', right', sub');
    SinkKeeps(pr, root', parent, left', right', sub', swapped, target);
    ValsSwap(value, live, target, leaf);
    ValsRemove(swapped, live, leaf);
    var rest := Vals(swapped, live');
    assert Vals(value, live) == rest + multiset{value[target]};
    assert Vals(value', live') == rest;
    forall i | 0 <= i < |value| && i !in live ensures value'[i] == value[i] {
      assert i !in live' && i != target && i != leaf;
    }
  }

  /** The leaf whose element DeleteNode moves into the target: from node, the walk takes the
      right child when there is one and the left child otherwise, and it stops at the first
      node with no children. */
  ghost function LeafOf(root: int, parent: seq<int>, left: seq<int>, right: seq<int>, sub: seq<set<int>>,
                        node: int): (leaf: int)
    requires Shaped(root, parent, left, right, sub) && node in Sub(sub, root)
    ensures leaf in Sub(sub, node) && leaf in Sub(sub, root) && 0 <= leaf < |left|
    ensures left[leaf] == Nil && right[leaf] == Nil
    ensures leaf == node <==> left[node] == Nil && right[node] == Nil
    decreases |Sub(sub, node)|
  {
    assert NodeShaped(node, root, parent, left, right, sub);
    if left[node] != Nil || right[node] != Nil then
      var next := if right[node] != Nil then right[node] else left[node];
      ChildOf(root, parent, left, right, sub, node, next);
      LeafOf(root, parent, left, right, sub, next)
    else
      node
  }

  // ---------------------------------------------------------------------------------------
  // Insert

  /** The node below which Insert hangs a new leaf: from node, while both child slots are
      taken, the walk goes right when the left subtree holds more nodes and left otherwise,
      and it stops at the first node with a free slot. */
  ghost function InsertionPoint(root: int, parent: seq<int>, left: seq<int>, right: seq<int>, sub: seq<set<int>>,
                                leftCount: seq<int>, rightCount: seq<int>, node: int): (p: int)
    requires Shaped(root, parent, left, right, sub) && |leftCount| == |left| && |rightCount| == |left|
    requires node in Sub(sub, root)
    ensures p in Sub(sub, node) && p in Sub(sub, root) && 0 <= p < |left|
    ensures left[p] == Nil || right[p] == Nil
    decreases |Sub(sub, node)|
  {
    assert NodeShaped(node, root, parent, left, right, sub);
    if left[node] != Nil && right[node] != Nil then
      var next := if leftCount[node] > rightCount[node] then right[node] else left[node];
      ChildOf(root, parent, left, right, sub, node, next);
      InsertionPoint(root, parent, left, right, sub, leftCount, rightCount, next)
    else
      node
  }

  /** Appending a fresh, unlinked node to the columns does not move the insertion point. */
  lemma {:induction false} InsertionPointExtend(root: int, parent: seq<int>, left: seq<int>, right: seq<int>,
                                                sub: seq<set<int>>, leftCount: seq<int>, rightCount: seq<int>, node: int)
    requires Shaped(root, parent, left, right, sub) && |leftCount| == |left| && |rightCount| == |left|
    requires Shaped(root, parent + [Nil], left + [Nil], right + [Nil], sub + [{|sub|}])
    requires node in Sub(sub, root) && Sub(sub + [{|sub|}], root) == Sub(sub, root)
    ensures InsertionPoint(root, parent + [Nil], left + [Nil], right + [Nil], sub + [{|sub|}],
                           leftCount + [0], rightCount + [0], node)
            == InsertionPoint(root, parent, left, right, sub, leftCount, rightCount, node)
    decreases |Sub(sub, node)|
  {
    assert NodeShaped(node, root, parent, left, right, sub);
    if left[node] != Nil && right[node] != Nil {
      var next := if leftCount[node] > rightCount[node] then right[node] else left[node];
      ChildOf(root, parent, left, right, sub, node, next);
      InsertionPointExtend(root, parent, left, right, sub, leftCount, rightCount, next);
    }
  }

  /** Hanging the detached node x below p, raising the counters above it by one and climbing
      its element gives again a counted heap, with x added, x's element added, and nothing
      outside the new tree changed. */
  lemma LinkRestores(pr: Priority, root: int, value: seq<int>, parent: seq<int>, left: seq<int>, right: seq<int>,
                     leftCount: seq<int>, rightCount: seq<int>, sub: seq<set<int>>, p: int, x: int, asLeft: bool,
                     value': seq<int>, parent': seq<int>, left': seq<int>, right': seq<int>,
                     leftCount': seq<int>, rightCount': seq<int>, sub': seq<set<int>>)
    requires CountedHeap(pr, root, value, parent, left, right, leftCount, rightCount, sub)
    requires Linked(root, parent, left, right, sub, p, x, asLeft, parent', left', right', sub')
    requires leftCount[x] == 0 && rightCount[x] == 0
    requires Shaped(root, parent', left', right', sub') && x in Sub(sub', root)
    requires (leftCount', rightCount') == Raised(root, parent', left', right', sub', leftCount, rightCount, x, 1)
    requires value' == Risen(pr, root, parent', left', right', sub', value, x)
    ensures CountedHeap(pr, root, value', parent', left', right', leftCount', rightCount', sub')
    ensures Sub(sub', root) == Sub(sub, root) + {x}
    ensures Vals(value', Sub(sub', root)) == Vals(value, Sub(sub, root)) + multiset{value[x]}
    ensures forall i | 0 <= i < |value| && i !in Sub(sub', root) ::
              value'[i] == value[i] && leftCount'[i] == leftCount[i] && rightCount'[i] == rightCount[i]
  {
    LinkShape(root, parent, left, right, sub, p, x, asLeft, parent', left', right', sub');
    RaisedCounts(root, parent', left', right', sub', leftCount, rightCount, x, 1);
    LinkCounted(root, parent, left, right, sub, p, x, asLeft, parent', left', right', sub',
                leftCount, rightCount, leftCount', rightCount');
    LinkOrder(pr, root, parent, left, right, sub, p, x, asLeft, parent', left', right', sub', value);
    RiseOrders(pr, root, parent', left', right', sub', value, x);
    RiseKeeps(pr, root, parent', left', right', sub', value, x);
    ValsAdd(value, Sub(sub, root), x);
  }
}
