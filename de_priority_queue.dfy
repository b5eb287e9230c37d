/** The double-ended priority queue: every element is held by a node of a max tree and by a
    twin node of a min tree, and the twins point at each other. Each tree is a pointer-linked
    binary heap whose nodes record the sizes of their two subtrees, exactly as in the
    single-ended queue. A node reference is modelled as the arena of its tree together with a
    handle into it; the min tree sifts with the negation of the caller's comparator. */
module DoubleEndedQueue {
  import opened Outcomes
  import opened Priorities
  import opened Bags
  import opened Shape
  import opened Sifting
  import opened Twins

  /** The nodes of one of the two trees, as parallel columns indexed by handle: the element,
      the twin in the other tree, the three links and the two subtree sizes. */
  class Arena {
    var value: seq<int>
    var another: seq<int>
    var parent: seq<int>
    var left: seq<int>
    var right: seq<int>
    var leftCount: seq<int>
    var rightCount: seq<int>
    /** The handles of the subtree below each handle. */
    ghost var sub: seq<set<int>>

    /** An arena without nodes. */
    constructor()
      ensures value == [] && another == [] && parent == [] && left == [] && right == []
      ensures leftCount == [] && rightCount == [] && sub == []
    {
      value, another, parent, left, right := [], [], [], [], [];
      leftCount, rightCount, sub := [], [], [];
    }

    /** The nodes under root form a counted heap ordered by pr. */
    ghost predicate Heap(pr: Priority, root: int)
      reads this
    {
      CountedHeap(pr, root, value, parent, left, right, leftCount, rightCount, sub) && |another| == |parent|
    }

    /** Node x is allocated, and has no links, zero counters and a subtree of its own. */
    ghost predicate Loose(x: int)
      reads this
    {
      Shape.Arena(parent, left, right, sub) && |value| == |leftCount| == |rightCount| == |another| == |parent|
      && 0 <= x < |sub| && sub[x] == {x}
      && parent[x] == Nil && left[x] == Nil && right[x] == Nil && leftCount[x] == 0 && rightCount[x] == 0
    }

    /** A loose node is a counted heap of its own. */
    lemma Planted(pr: Priority, x: int)
      requires Loose(x)
      ensures Heap(pr, x) && Sub(sub, x) == {x} && Vals(value, Sub(sub, x)) == multiset{value[x]}
    {
      Singleton(pr, x, parent, left, right, sub, value, leftCount, rightCount);
      assert {} + {x} == {x};
      BelowEmpty(value, |value|);
      ValsAdd(value, {}, x);
    }

    /** Allocates a node holding element, with no links, no twin and zero counters. */
    method NewNode(element: int) returns (x: int)
      modifies this
      ensures x == old(|value|)
      ensures value == old(value) + [element] && another == old(another) + [Nil]
      ensures parent == old(parent) + [Nil] && left == old(left) + [Nil] && right == old(right) + [Nil]
      ensures leftCount == old(leftCount) + [0] && rightCount == old(rightCount) + [0]
      ensures sub == old(sub) + [{x}]
    {
      x := |value|;
      value := value + [element];
      another := another + [Nil];
      parent := parent + [Nil];
      left := left + [Nil];
      right := right + [Nil];
      leftCount := leftCount + [0];
      rightCount := rightCount + [0];
      sub := sub + [{x}];
    }
  }

  class DEPriorityQueue {
    /** The nodes of the max tree and of the min tree. */
    const maxTree: Arena
    const minTree: Arena
    /** The roots of the two trees, or Nil when the queue is empty. */
    var maxRoot: int
    var minRoot: int

    /** The arena of the tree of the given priority. */
    function TreeOf(p: Priority): Arena {
      if p == Highest then maxTree else minTree
    }

    /** The root of the tree of the given priority. */
    function RootOf(p: Priority): int
      reads this`maxRoot, this`minRoot
    {
      if p == Highest then maxRoot else minRoot
    }

    /** The nodes of the tree of the given priority. */
    ghost function Live(p: Priority): set<int>
      reads this`maxRoot, this`minRoot, maxTree`sub, minTree`sub
    {
      Sub(TreeOf(p).sub, RootOf(p))
    }

    /** The handles S of the tree of priority p and the handles T of the other tree are
        matched one to one as twins. */
    ghost predicate Matched(p: Priority, S: set<int>, T: set<int>)
      reads maxTree`value, maxTree`another, minTree`value, minTree`another
    {
      Paired(TreeOf(p).value, TreeOf(p).another, S, TreeOf(p.Other()).value, TreeOf(p.Other()).another, T)
    }

    /** Both trees are counted heaps, in opposite orders, whose nodes are twins of each other. */
    ghost predicate Wf()
      reads this, maxTree, minTree
    {
      maxTree != minTree
      && maxTree.Heap(Highest, maxRoot) && minTree.Heap(Lowest, minRoot)
      && Matched(Highest, Live(Highest), Live(Lowest))
    }

    /** The invariant between public operations: additionally, the size fits the signed 32-bit
        count. */
    ghost predicate Valid()
      reads this, maxTree, minTree
    {
      Wf() && |Live(Highest)| <= MaxCount
    }

    /** The elements held by the tree of the given priority. */
    ghost function Elements(p: Priority): multiset<int>
      reads this`maxRoot, this`minRoot, maxTree`sub, minTree`sub, maxTree`value, minTree`value
    {
      Vals(TreeOf(p).value, Live(p))
    }

    /** The elements held by the queue: those of the max tree. */
    ghost function Contents(): multiset<int>
      reads this`maxRoot, this`minRoot, maxTree`sub, minTree`sub, maxTree`value, minTree`value
    {
      Elements(Highest)
    }

    /** Adds delta to the counter facing start on every ancestor of start in tree t. */
    method AddParentCount(t: Arena, ghost root: int, start: int, delta: int)
      requires Shaped(root, t.parent, t.left, t.right, t.sub)
      requires |t.leftCount| == |t.left| && |t.rightCount| == |t.left|
      requires start in Sub(t.sub, root)
      modifies t`leftCount, t`rightCount
      ensures (t.leftCount, t.rightCount)
              == Raised(root, t.parent, t.left, t.right, t.sub, old(t.leftCount), old(t.rightCount), start, delta)
    {
      var node := start;
      while t.parent[node] != Nil
        invariant node in Sub(t.sub, root) && |t.leftCount| == |t.left| && |t.rightCount| == |t.left|
        invariant Raised(root, t.parent, t.left, t.right, t.sub, t.leftCount, t.rightCount, node, delta)
                  == Raised(root, t.parent, t.left, t.right, t.sub, old(t.leftCount), old(t.rightCount), start, delta)
        decreases |Sub(t.sub, root)| - |Sub(t.sub, node)|
      {
        var q := t.parent[node];
        ChildInsideParent(root, t.parent, t.left, t.right, t.sub, node);
        if t.left[q] == node {
          t.leftCount := t.leftCount[q := t.leftCount[q] + delta];
        } else {
          t.rightCount := t.rightCount[q := t.rightCount[q] + delta];
        }
        node := q;
      }
    }

    /** Exchanges the elements and the twins of nodes a and b of tree t: first the twins are
        pointed at the other node, then elements and twin links trade places. The twins stay
        matched. */
    method SwapValue(t: Arena, o: Arena, a: int, b: int, ghost S: set<int>, ghost T: set<int>)
      requires t != o && a in S && b in S
      requires 0 <= a < |t.value| && 0 <= b < |t.value| && 0 <= a < |t.another| && 0 <= b < |t.another|
      requires Paired(t.value, t.another, S, o.value, o.another, T)
      modifies t`value, t`another, o`another
      ensures t.value == old(t.value)[a := old(t.value)[b]][b := old(t.value)[a]]
      ensures t.another == old(t.another)[a := old(t.another)[b]][b := old(t.another)[a]]
      ensures 0 <= old(t.another[a]) < old(|o.another|) && 0 <= old(t.another[b]) < old(|o.another|)
      ensures o.another == old(o.another)[old(t.another)[b] := a][old(t.another)[a] := b]
      ensures Paired(t.value, t.another, S, o.value, o.another, T)
    {
      PairedSwap(t.value, t.another, S, o.value, o.another, T, a, b);
      o.another := o.another[t.another[b] := a];
      o.another := o.another[t.another[a] := b];
      var v := t.value[a];
      var twin := t.another[a];
      t.value := t.value[a := t.value[b]];
      t.another := t.another[a := t.another[b]];
      t.value := t.value[b := v];
      t.another := t.another[b := twin];
    }

    /** Moves the element at start of tree t up while it outranks its parent's, by pr. */
    method UpHeap(t: Arena, o: Arena, ghost root: int, ghost T: set<int>, start: int, pr: Priority)
      requires t != o && Shaped(root, t.parent, t.left, t.right, t.sub)
      requires |t.value| == |t.parent| && |t.another| == |t.parent|
      requires start in Sub(t.sub, root)
      requires Paired(t.value, t.another, Sub(t.sub, root), o.value, o.another, T)
      modifies t`value, t`another, o`another
      ensures t.value == Risen(pr, root, t.parent, t.left, t.right, t.sub, old(t.value), start)
      ensures Paired(t.value, t.another, Sub(t.sub, root), o.value, o.another, T)
      ensures |t.another| == old(|t.another|) && |o.another| == old(|o.another|)
    {
      var node := start;
      while t.parent[node] != Nil
        invariant node in Sub(t.sub, root) && |t.value| == |t.parent|
        invariant Risen(pr, root, t.parent, t.left, t.right, t.sub, t.value, node)
                  == Risen(pr, root, t.parent, t.left, t.right, t.sub, old(t.value), start)
        invariant Paired(t.value, t.another, Sub(t.sub, root), o.value, o.another, T)
        invariant |t.another| == old(|t.another|) && |o.another| == old(|o.another|)
        decreases |Sub(t.sub, root)| - |Sub(t.sub, node)|
      {
        var p := t.parent[node];
        ChildInsideParent(root, t.parent, t.left, t.right, t.sub, node);
        if Compare(pr, t.value[p], t.value[node]) {
          SwapValue(t, o, node, p, Sub(t.sub, root), T);
          node := p;
        } else {
          break;
        }
      }
    }

    /** Moves the element at start of tree t down while the selected child outranks it, by pr.
        S holds the nodes of the tree and possibly detached nodes, all matched with T; only
        nodes of the tree change their twins, so the detached node keep keeps its own. */
    method DownHeap(t: Arena, o: Arena, ghost root: int, ghost S: set<int>, ghost T: set<int>,
                    start: int, pr: Priority, ghost keep: int)
      requires t != o && Shaped(root, t.parent, t.left, t.right, t.sub)
      requires |t.value| == |t.parent| && |t.another| == |t.parent|
      requires 0 <= start < |t.left| && (start in Sub(t.sub, root) || (t.left[start] == Nil && t.right[start] == Nil))
      requires Sub(t.sub, root) <= S && Paired(t.value, t.another, S, o.value, o.another, T)
      requires 0 <= keep < |t.another| && keep !in Sub(t.sub, root)
      modifies t`value, t`another, o`another
      ensures t.value == Sunk(pr, root, t.parent, t.left, t.right, t.sub, old(t.value), start)
      ensures Paired(t.value, t.another, S, o.value, o.another, T)
      ensures |t.another| == old(|t.another|) && |o.another| == old(|o.another|)
      ensures t.another[keep] == old(t.another[keep])
    {
      var node := start;
      while t.left[node] != Nil || t.right[node] != Nil
        invariant 0 <= node < |t.left| && (node in Sub(t.sub, root) || (t.left[node] == Nil && t.right[node] == Nil))
        invariant |t.value| == |t.parent|
        invariant Sunk(pr, root, t.parent, t.left, t.right, t.sub, t.value, node)
                  == Sunk(pr, root, t.parent, t.left, t.right, t.sub, old(t.value), start)
        invariant Paired(t.value, t.another, S, o.value, o.another, T)
        invariant |t.another| == old(|t.another|) && |o.another| == old(|o.another|)
        invariant t.another[keep] == old(t.another[keep])
        decreases |Sub(t.sub, node)|
      {
        assert NodeShaped(node, root, t.parent, t.left, t.right, t.sub);
        var select := if t.right[node] != Nil then t.right[node] else t.left[node];
        if t.left[node] != Nil && t.right[node] != Nil {
          select := if Compare(pr, t.value[t.left[node]], t.value[t.right[node]]) then t.right[node] else t.left[node];
        }
        if Compare(pr, t.value[node], t.value[select]) {
          ChildOf(root, t.parent, t.left, t.right, t.sub, node, select);
          assert node != keep && select != keep;
          SwapValue(t, o, node, select, S, T);
          node := select;
        } else {
          break;
        }
      }
    }

    /** The walk of DeleteNode from target down to a leaf of tree t, preferring right children. */
    method LeafBelow(t: Arena, ghost root: int, target: int) returns (leaf: int)
      requires Shaped(root, t.parent, t.left, t.right, t.sub) && target in Sub(t.sub, root)
      ensures leaf in Sub(t.sub, target) && leaf in Sub(t.sub, root)
      ensures t.left[leaf] == Nil && t.right[leaf] == Nil
      ensures leaf == LeafOf(root, t.parent, t.left, t.right, t.sub, target)
    {
      leaf := target;
      assert NodeShaped(target, root, t.parent, t.left, t.right, t.sub);
      while t.left[leaf] != Nil || t.right[leaf] != Nil
        invariant leaf in Sub(t.sub, target) && leaf in Sub(t.sub, root) && 0 <= leaf < |t.left|
        invariant LeafOf(root, t.parent, t.left, t.right, t.sub, leaf) == LeafOf(root, t.parent, t.left, t.right, t.sub, target)
        decreases |Sub(t.sub, leaf)|
      {
        var next := if t.right[leaf] != Nil then t.right[leaf] else t.left[leaf];
        ChildOf(root, t.parent, t.left, t.right, t.sub, leaf, next);
        Descendant(root, t.parent, t.left, t.right, t.sub, target, leaf);
        assert NodeShaped(next, root, t.parent, t.left, t.right, t.sub);
        leaf := next;
      }
    }

    /** Detaches a leaf of the tree of the given priority: that tree becomes empty when the
        leaf is its root, otherwise the parent's reference to the leaf is cleared. */
    method DetachLeaf(leaf: int, priority: Priority)
      requires Shaped(RootOf(priority), TreeOf(priority).parent, TreeOf(priority).left, TreeOf(priority).right,
                      TreeOf(priority).sub)
      requires leaf in Live(priority) && TreeOf(priority).left[leaf] == Nil && TreeOf(priority).right[leaf] == Nil
      modifies this`maxRoot, this`minRoot, TreeOf(priority)`left, TreeOf(priority)`right, TreeOf(priority)`sub
      ensures Unlinked(old(RootOf(priority)), TreeOf(priority).parent, old(TreeOf(priority).left),
                       old(TreeOf(priority).right), old(TreeOf(priority).sub), leaf,
                       RootOf(priority), TreeOf(priority).left, TreeOf(priority).right, TreeOf(priority).sub)
      ensures RootOf(priority.Other()) == old(RootOf(priority.Other()))
    {
      var t := TreeOf(priority);
      ghost var root0, sub0 := RootOf(priority), t.sub;
      assert NodeShaped(leaf, root0, t.parent, t.left, t.right, t.sub);
      if priority == Highest && maxRoot == leaf {
        maxRoot := Nil;
      } else if priority == Lowest && minRoot == leaf {
        minRoot := Nil;
      } else if t.left[t.parent[leaf]] == leaf {
        t.left := t.left[t.parent[leaf] := Nil];
      } else {
        t.right := t.right[t.parent[leaf] := Nil];
      }
      t.sub := SubAfterUnlink(sub0, root0, leaf);
    }

    /** The first half of DeleteNode in tree t: the walk to a leaf below target, the exchange
        of the elements and twins of target and the leaf, and the counters above the leaf
        dropping by one. */
    method SwapWithLeaf(t: Arena, o: Arena, ghost pr: Priority, ghost root: int, ghost twins: set<int>, target: int)
      returns (leaf: int)
      requires t != o && t.Heap(pr, root) && target in Sub(t.sub, root)
      requires Paired(t.value, t.another, Sub(t.sub, root), o.value, o.another, twins)
      modifies t`value, t`another, t`leftCount, t`rightCount, o`another
      ensures leaf in Sub(t.sub, target) && leaf in Sub(t.sub, root) && t.left[leaf] == Nil && t.right[leaf] == Nil
      ensures 0 <= leaf < |t.value| == old(|t.value|) == |t.another| == old(|t.another|)
      ensures |o.another| == old(|o.another|)
      ensures t.value == old(t.value)[target := old(t.value[leaf])][leaf := old(t.value[target])]
      ensures 0 <= old(t.another[target]) < |o.another| && 0 <= old(t.another[leaf]) < |o.another|
      ensures t.another == old(t.another)[target := old(t.another[leaf])][leaf := old(t.another[target])]
      ensures o.another == old(o.another)[old(t.another[leaf]) := target][old(t.another[target]) := leaf]
      ensures (t.leftCount, t.rightCount)
              == Raised(root, t.parent, t.left, t.right, t.sub, old(t.leftCount), old(t.rightCount), leaf, -1)
      ensures Paired(t.value, t.another, Sub(t.sub, root), o.value, o.another, twins)
      ensures t.another[leaf] == old(t.another[target])
      ensures leaf == LeafOf(root, t.parent, t.left, t.right, t.sub, target)
    {
      leaf := LeafBelow(t, root, target);
      SwapValue(t, o, target, leaf, Sub(t.sub, root), twins);
      AddParentCount(t, root, leaf, -1);
    }

    /** The second half of DeleteNode in tree t, once the leaf is detached: the element moved
        to target sinks, and the tree is again a counted heap, without the leaf and without
        target's old element; the detached leaf keeps that element and its twin. */
    method Settle(t: Arena, o: Arena, pr: Priority, ghost root: int, ghost value: seq<int>,
                  ghost left: seq<int>, ghost right: seq<int>, ghost leftCount: seq<int>, ghost rightCount: seq<int>,
                  ghost sub: seq<set<int>>, ghost twins: set<int>, ghost root': int, target: int, ghost leaf: int)
      requires t != o && CountedHeap(pr, root, value, t.parent, left, right, leftCount, rightCount, sub)
      requires target in Sub(sub, root) && leaf in Sub(sub, target)
      requires Unlinked(root, t.parent, left, right, sub, leaf, root', t.left, t.right, t.sub)
      requires (t.leftCount, t.rightCount) == Raised(root, t.parent, left, right, sub, leftCount, rightCount, leaf, -1)
      requires t.value == value[target := value[leaf]][leaf := value[target]] && |t.another| == |t.parent|
      requires Paired(t.value, t.another, Sub(sub, root), o.value, o.another, twins)
      modifies t`value, t`another, o`another
      ensures t.Heap(pr, root') && Sub(t.sub, root') == Sub(sub, root) - {leaf}
      ensures Vals(t.value, Sub(t.sub, root')) == Vals(value, Sub(sub, root)) - multiset{value[target]}
      ensures 0 <= leaf < |t.value| && 0 <= leaf < |t.another|
      ensures t.value[leaf] == value[target] && t.another[leaf] == old(t.another[leaf])
      ensures Paired(t.value, t.another, Sub(sub, root), o.value, o.another, twins)
      ensures |o.another| == old(|o.another|)
    {
      UnlinkShape(root, t.parent, left, right, sub, leaf, root', t.left, t.right, t.sub);
      DownHeap(t, o, root', Sub(sub, root), twins, target, pr, leaf);
      DeleteRestores(pr, root, value, t.parent, left, right, leftCount, rightCount, sub, target, leaf,
                     root', t.value, t.left, t.right, t.leftCount, t.rightCount, t.sub);
    }

    /** Removes the element of target from the tree of the given priority, as in the
        single-ended queue, with the twins kept matched: the detached leaf keeps target's
        element and twin, and stays matched with it. */
    method DeleteNode(target: int, priority: Priority, ghost twins: set<int>) returns (ghost leaf: int)
      requires maxTree != minTree
      requires TreeOf(priority).Heap(priority, RootOf(priority)) && target in Live(priority)
      requires Matched(priority, Live(priority), twins)
      modifies this`maxRoot, this`minRoot, TreeOf(priority), TreeOf(priority.Other())`another
      ensures TreeOf(priority).Heap(priority, RootOf(priority))
      ensures RootOf(priority.Other()) == old(RootOf(priority.Other()))
      ensures leaf == old(LeafOf(RootOf(priority), TreeOf(priority).parent, TreeOf(priority).left,
                                 TreeOf(priority).right, TreeOf(priority).sub, target))
      ensures leaf in old(Sub(TreeOf(priority).sub, target)) && leaf in old(Live(priority))
      ensures Live(priority) == old(Live(priority)) - {leaf}
      ensures 0 <= leaf < |TreeOf(priority).value| && 0 <= leaf < |TreeOf(priority).another|
      ensures Elements(priority) == old(Elements(priority)) - multiset{old(TreeOf(priority).value[target])}
      ensures Matched(priority, Live(priority) + {leaf}, twins)
      ensures TreeOf(priority).value[leaf] == old(TreeOf(priority).value[target])
      ensures TreeOf(priority).another[leaf] == old(TreeOf(priority).another[target])
      ensures |TreeOf(priority.Other()).another| == old(|TreeOf(priority.Other()).another|)
    {
      var t, o := TreeOf(priority), TreeOf(priority.Other());
      ghost var live0, root0 := Live(priority), RootOf(priority);
      ghost var value0, left0, right0, sub0 := t.value, t.left, t.right, t.sub;
      ghost var leftCount0, rightCount0 := t.leftCount, t.rightCount;
      var node := SwapWithLeaf(t, o, priority, root0, twins, target);
      leaf := node;
      DetachLeaf(node, priority);
      Settle(t, o, priority, root0, value0, left0, right0, leftCount0, rightCount0, sub0, twins,
             RootOf(priority), target, node);
      assert live0 == Live(priority) + {node};
    }

    /** Creates an empty queue whose max tree ranks larger elements first. */
    constructor()
      ensures fresh(maxTree) && fresh(minTree)
      ensures Valid() && Contents() == multiset{}
    {
      maxTree := new Arena();
      minTree := new Arena();
      maxRoot, minRoot := Nil, Nil;
    }

    /** Hangs the detached node x of tree t below p and sifts its element up by pr. */
    method LinkLeaf(t: Arena, o: Arena, ghost root: int, ghost T: set<int>, p: int, x: int, asLeft: bool,
                    pr: Priority)
      requires t != o && t.Heap(pr, root) && p in Sub(t.sub, root)
      requires 0 <= x < |t.parent| && x !in Sub(t.sub, root) && t.left[x] == Nil && t.right[x] == Nil
      requires t.leftCount[x] == 0 && t.rightCount[x] == 0
      requires if asLeft then t.left[p] == Nil else t.right[p] == Nil
      requires Paired(t.value, t.another, Sub(t.sub, root) + {x}, o.value, o.another, T)
      modifies t, o`another
      ensures t.Heap(pr, root) && Sub(t.sub, root) == old(Sub(t.sub, root)) + {x}
      ensures Vals(t.value, Sub(t.sub, root)) == old(Vals(t.value, Sub(t.sub, root))) + multiset{old(t.value[x])}
      ensures Paired(t.value, t.another, Sub(t.sub, root), o.value, o.another, T)
      ensures |o.another| == old(|o.another|)
      ensures t.parent == old(t.parent)[x := p]
      ensures t.left == (if asLeft then old(t.left)[p := x] else old(t.left))
      ensures t.right == (if asLeft then old(t.right) else old(t.right)[p := x])
    {
      ghost var value0, parent0, left0, right0, sub0 := t.value, t.parent, t.left, t.right, t.sub;
      ghost var leftCount0, rightCount0 := t.leftCount, t.rightCount;
      if asLeft {
        t.left := t.left[p := x];
      } else {
        t.right := t.right[p := x];
      }
      t.parent := t.parent[x := p];
      t.sub := SubAfterLink(sub0, root, p, x);
      assert Linked(root, parent0, left0, right0, sub0, p, x, asLeft, t.parent, t.left, t.right, t.sub);
      LinkShape(root, parent0, left0, right0, sub0, p, x, asLeft, t.parent, t.left, t.right, t.sub);
      AddParentCount(t, root, x, 1);
      UpHeap(t, o, root, T, x, pr);
      LinkRestores(pr, root, value0, parent0, left0, right0, leftCount0, rightCount0, sub0, p, x, asLeft,
                   t.value, t.parent, t.left, t.right, t.leftCount, t.rightCount, t.sub);
    }

    /** Inserts the detached node instant into the tree of the given priority: the walk from
        root goes to the smaller side until a node with a free child slot, the left one
        first. */
    method Insert(root: int, instant: int, priority: Priority, ghost twins: set<int>) returns (ghost p: int)
      requires maxTree != minTree
      requires TreeOf(priority).Heap(priority, RootOf(priority)) && root in Live(priority)
      requires 0 <= instant < |TreeOf(priority).parent| && instant !in Live(priority)
      requires TreeOf(priority).left[instant] == Nil && TreeOf(priority).right[instant] == Nil
      requires TreeOf(priority).leftCount[instant] == 0 && TreeOf(priority).rightCount[instant] == 0
      requires Matched(priority, Live(priority) + {instant}, twins)
      modifies TreeOf(priority), TreeOf(priority.Other())`another
      ensures TreeOf(priority).Heap(priority, RootOf(priority))
      ensures Live(priority) == old(Live(priority)) + {instant}
      ensures Elements(priority) == old(Elements(priority)) + multiset{old(TreeOf(priority).value[instant])}
      ensures Matched(priority, Live(priority), twins)
      ensures |TreeOf(priority.Other()).another| == old(|TreeOf(priority.Other()).another|)
      ensures p == old(InsertionPoint(RootOf(priority), TreeOf(priority).parent, TreeOf(priority).left,
                                      TreeOf(priority).right, TreeOf(priority).sub, TreeOf(priority).leftCount,
                                      TreeOf(priority).rightCount, root))
      ensures TreeOf(priority).parent == old(TreeOf(priority).parent)[instant := p]
      ensures TreeOf(priority).left
              == if old(TreeOf(priority).left[p]) == Nil then old(TreeOf(priority).left)[p := instant]
                 else old(TreeOf(priority).left)
      ensures TreeOf(priority).right
              == if old(TreeOf(priority).left[p]) == Nil then old(TreeOf(priority).right)
                 else old(TreeOf(priority).right)[p := instant]
    {
      var t, o := TreeOf(priority), TreeOf(priority.Other());
      ghost var top := RootOf(priority);
      var node := root;
      while t.left[node] != Nil && t.right[node] != Nil
        invariant node in Sub(t.sub, top) && 0 <= node < |t.left|
        invariant InsertionPoint(top, t.parent, t.left, t.right, t.sub, t.leftCount, t.rightCount, node)
                  == InsertionPoint(top, t.parent, t.left, t.right, t.sub, t.leftCount, t.rightCount, root)
        modifies {}
        decreases |Sub(t.sub, node)|
      {
        ChildOf(top, t.parent, t.left, t.right, t.sub, node, t.left[node]);
        ChildOf(top, t.parent, t.left, t.right, t.sub, node, t.right[node]);
        node := if t.leftCount[node] > t.rightCount[node] then t.right[node] else t.left[node];
      }
      assert NodeShaped(node, top, t.parent, t.left, t.right, t.sub);
      p := node;
      LinkLeaf(t, o, top, twins, node, instant, t.left[node] == Nil, priority);
    }

    /** Adds element to both trees, or reports Overflow when the count is already the largest
        signed 32-bit integer. */
    method Enqueue(element: int) returns (r: Outcome)
      requires Valid()
      modifies this, maxTree, minTree
      ensures Valid()
      ensures r == (if old(|Contents()|) < MaxCount then Pass else Fail(Overflow))
      ensures r.Pass? ==> Contents() == old(Contents()) + multiset{element}
      ensures r.Fail? ==> Contents() == old(Contents()) && maxRoot == old(maxRoot) && minRoot == old(minRoot)
      ensures r.Fail? ==> Live(Highest) == old(Live(Highest)) && Live(Lowest) == old(Live(Lowest))
    {
      NewTwins(element);
      var maxNode := |maxTree.value| - 1;
      var minNode := |minTree.value| - 1;
      if maxRoot == Nil {
        Plant(maxNode, minNode);
        r := Pass;
      } else if Count() < MaxCount {
        InsertTwins(maxNode, minNode);
        r := Pass;
      } else {
        r := Fail(Overflow);
      }
    }

    /** Into an empty queue, the new twins x and y become the roots of the two trees. */
    method Plant(x: int, y: int)
      requires Wf() && maxRoot == Nil
      requires maxTree.Loose(x) && minTree.Loose(y) && Matched(Highest, Live(Highest) + {x}, Live(Lowest) + {y})
      modifies this`maxRoot, this`minRoot
      ensures maxRoot == x && minRoot == y
      ensures Valid() && old(Contents()) == multiset{} && Contents() == multiset{maxTree.value[x]}
    {
      EmptyTwin();
      assert Live(Highest) + {x} == {x} && Live(Lowest) + {y} == {y};
      BelowEmpty(maxTree.value, |maxTree.value|);
      maxRoot := x;
      minRoot := y;
      maxTree.Planted(Highest, x);
      minTree.Planted(Lowest, y);
    }

    /** Into a non-empty queue with room for one more, the new twins x and y are inserted into
        their trees, the max tree first. */
    method InsertTwins(x: int, y: int)
      requires Wf() && maxRoot != Nil && |Live(Highest)| < MaxCount
      requires maxTree.Loose(x) && minTree.Loose(y) && x !in Live(Highest) && y !in Live(Lowest)
      requires Matched(Highest, Live(Highest) + {x}, Live(Lowest) + {y})
      modifies maxTree, minTree
      ensures Valid() && Contents() == old(Contents()) + multiset{old(maxTree.value[x])}
    {
      SameElements();
      assert maxRoot in Live(Highest);
      assert minRoot != Nil;
      assert minRoot in Live(Lowest);
      ghost var p := Insert(maxRoot, x, Highest, Live(Lowest) + {y});
      ghost var q := Insert(minRoot, y, Lowest, Live(Highest));
      Flip(Lowest, Live(Lowest), Live(Highest));
    }

    /** When the max tree is empty, so is the min tree. */
    lemma EmptyTwin()
      requires Wf() && maxRoot == Nil
      ensures minRoot == Nil
    {
      PairedVals(maxTree.value, maxTree.another, Live(Highest), minTree.value, minTree.another, Live(Lowest));
    }

    /** Allocates a node holding element in each arena and makes the two nodes twins. */
    method NewTwins(element: int)
      requires Valid()
      modifies maxTree, minTree
      ensures Valid() && Live(Highest) == old(Live(Highest)) && Live(Lowest) == old(Live(Lowest))
      ensures Contents() == old(Contents())
      ensures var x, y := old(|maxTree.value|), old(|minTree.value|);
              && |maxTree.value| == x + 1 && |minTree.value| == y + 1
              && maxTree.value[x] == element && minTree.value[y] == element
              && maxTree.Loose(x) && minTree.Loose(y) && x !in Live(Highest) && y !in Live(Lowest)
              && maxTree.another[x] == y && minTree.another[y] == x
              && Matched(Highest, Live(Highest) + {x}, Live(Lowest) + {y})
    {
      var a, b := maxTree, minTree;
      Extend(Highest, maxRoot, a.value, a.parent, a.left, a.right, a.leftCount, a.rightCount, a.sub, element);
      Extend(Lowest, minRoot, b.value, b.parent, b.left, b.right, b.leftCount, b.rightCount, b.sub, element);
      ghost var va, aa, vb, ab := a.value, a.another, b.value, b.another;
      var maxNode := a.NewNode(element);
      var minNode := b.NewNode(element);
      a.another := a.another[maxNode := minNode];
      b.another := b.another[minNode := maxNode];
      PairedFrame(va, aa, Live(Highest), vb, ab, Live(Lowest), a.value, aa + [Nil], b.value, ab + [Nil]);
      PairedAdd(a.value, aa + [Nil], Live(Highest), b.value, ab + [Nil], Live(Lowest), maxNode, minNode);
      PairedFrame(va, aa, Live(Highest), vb, ab, Live(Lowest), a.value, a.another, b.value, b.another);
      assert a.Heap(Highest, maxRoot) && b.Heap(Lowest, minRoot);
    }

    /** The matching of the two trees reads the same from either side. */
    lemma Flip(p: Priority, S: set<int>, T: set<int>)
      requires Matched(p, S, T)
      ensures Matched(p.Other(), T, S)
    {
    }

    /** The queue is empty exactly when both roots are Nil. */
    lemma EmptyRoots()
      requires Wf()
      ensures Contents() == multiset{} <==> maxRoot == Nil && minRoot == Nil
    {
      SameElements();
      if maxRoot != Nil {
        assert maxRoot in Live(Highest);
      } else {
        EmptyTwin();
      }
    }

    /** The root of a non-empty tree holds an element of the tree that no other element of
        the tree precedes. */
    lemma TopOf(p: Priority)
      requires Wf() && Live(p) != {}
      ensures RootOf(p) in Live(p) && 0 <= RootOf(p) < |TreeOf(p).value|
      ensures TreeOf(p).value[RootOf(p)] in Elements(p)
      ensures forall y | y in Elements(p) :: InOrder(p, TreeOf(p).value[RootOf(p)], y)
    {
      var t, root := TreeOf(p), RootOf(p);
      assert t.Heap(p, root);
      assert root != Nil;
      assert root in Live(p);
      RootOrdered(p, root, t.parent, t.left, t.right, t.sub, t.value);
      ValsRemove(t.value, Live(p), root);
      var top := t.value[root];
      ValsBounded(t.value, Live(p), y => InOrder(p, top, y));
    }

    /** Both trees hold the same elements. */
    lemma SameElements()
      requires Wf()
      ensures Elements(Lowest) == Contents() && |Live(Lowest)| == |Live(Highest)| == |Contents()|
    {
      PairedVals(maxTree.value, maxTree.another, Live(Highest), minTree.value, minTree.another, Live(Lowest));
      ValsSize(maxTree.value, Live(Highest));
    }

    /** The number of elements. */
    function Count(): (c: int)
      reads this, maxTree, minTree
      requires Wf()
      ensures c == |Contents()| && c == |Live(Highest)| && c == |Live(Lowest)|
    {
      SameElements();
      if maxRoot != Nil then
        TreeSize(maxRoot, maxTree.parent, maxTree.left, maxTree.right, maxTree.sub);
        assert maxRoot in Live(Highest);
        maxTree.leftCount[maxRoot] + maxTree.rightCount[maxRoot] + 1
      else
        0
    }

    /** The element of highest priority (select Highest) or of lowest priority (select
        Lowest), or EmptyQueue. */
    function Front(select: Priority): (r: Result<int>)
      reads this, maxTree, minTree
      requires Wf()
      ensures r.Success? <==> Contents() != multiset{}
      ensures r.Failure? ==> r.error == EmptyQueue
      ensures r.Success? ==> r.value in Contents() && forall y | y in Contents() :: InOrder(select, r.value, y)
    {
      SameElements();
      if maxRoot != Nil then
        assert maxRoot in Live(Highest);
        TopOf(select);
        Success(if select == Highest then maxTree.value[maxRoot] else minTree.value[minRoot])
      else
        Failure(EmptyQueue)
    }

    /** Removes and returns the element of highest or lowest priority, or reports EmptyQueue:
        the node is deleted from its tree, then its twin from the other tree. */
    method Dequeue(select: Priority) returns (r: Result<int>)
      requires Valid()
      modifies this, maxTree, minTree
      ensures Valid()
      ensures r == old(Front(select))
      ensures r.Success? ==> Contents() == old(Contents()) - multiset{r.value}
      ensures r.Failure? ==> Contents() == old(Contents())
    {
      if maxRoot == Nil {
        return Failure(EmptyQueue);
      }
      SameElements();
      assert maxRoot in Live(Highest);
      TopOf(select);
      var node := if select == Highest then maxRoot else minRoot;
      var returnValue := TreeOf(select).value[node];
      var another := TreeOf(select).another[node];
      ghost var live0 := Live(select);
      ghost var twins0 := Live(select.Other());
      CoverAt(TreeOf(select).value, TreeOf(select).another, live0,
              TreeOf(select.Other()).value, TreeOf(select.Other()).another, twins0, node);
      ghost var leaf := DeleteNode(node, select, twins0);
      ghost var live1 := Live(select);
      CoverAt(TreeOf(select).value, TreeOf(select).another, live1 + {leaf},
              TreeOf(select.Other()).value, TreeOf(select.Other()).another, twins0, leaf);
      assert TreeOf(select.Other()).another[another] == leaf;
      ghost var leaf2 := DeleteNode(another, select.Other(), live1 + {leaf});
      ghost var twins1 := Live(select.Other());
      assert TreeOf(select.Other()).another[leaf2] == leaf;
      Unpair(select.Other(), twins1, live1, leaf2, leaf);
      assert maxTree.Heap(Highest, maxRoot);
      assert minTree.Heap(Lowest, minRoot);
      assert Matched(Highest, Live(Highest), Live(Lowest));
      assert |Live(Highest)| <= MaxCount;
      r := Success(returnValue);
    }

    /** Dropping a matched pair of detached twins keeps the rest matched, and the two trees'
        matching reads the same from either side. */
    lemma Unpair(p: Priority, S: set<int>, T: set<int>, x: int, y: int)
      requires Matched(p, S + {x}, T + {y}) && x !in S && y !in T
      requires 0 <= x < |TreeOf(p).another| && TreeOf(p).another[x] == y
      ensures Matched(p, S, T) && Matched(p.Other(), T, S)
    {
      var t, o := TreeOf(p), TreeOf(p.Other());
      PairedRemove(t.value, t.another, S + {x}, o.value, o.another, T + {y}, x);
      assert S + {x} - {x} == S && T + {y} - {y} == T;
    }
  }
}
