/** The pointer-linked tree both queues are built on, stated over an arena: node handles are
    indices into parallel columns (parent, left, right, ...) and Nil stands for a null
    reference. The ghost column `sub` records, for every live handle, the set of handles of
    its subtree (itself included); the live nodes of a tree are the subtree of its root. */
module Shape {
  import opened Priorities

  /** The null reference. */
  const Nil: int := -1

  /** The recorded subtree of handle c, and nothing for Nil. */
  ghost function Sub(sub: seq<set<int>>, c: int): set<int> {
    if 0 <= c < |sub| then sub[c] else {}
  }

  /** The columns describe the same number of nodes. */
  ghost predicate Arena(parent: seq<int>, left: seq<int>, right: seq<int>, sub: seq<set<int>>) {
    |parent| == |left| == |right| == |sub|
  }

  /** Live node n of the tree rooted at root is linked consistently with its children and its
      parent, and its subtree is itself plus the disjoint subtrees of its children. */
  ghost predicate NodeShaped(n: int, root: int, parent: seq<int>, left: seq<int>, right: seq<int>,
                             sub: seq<set<int>>)
    requires Arena(parent, left, right, sub)
  {
    0 <= n < |sub|
    && Nil <= left[n] < |sub| && Nil <= right[n] < |sub|
    && (left[n] != Nil ==> left[n] in Sub(sub, root) && parent[left[n]] == n)
    && (right[n] != Nil ==> right[n] in Sub(sub, root) && parent[right[n]] == n)
    && sub[n] == {n} + Sub(sub, left[n]) + Sub(sub, right[n])
    && n !in Sub(sub, left[n]) && n !in Sub(sub, right[n])
    && Sub(sub, left[n]) !! Sub(sub, right[n])
    && (n != root ==>
          0 <= parent[n] < |sub| && parent[n] in Sub(sub, root)
          && (left[parent[n]] == n || right[parent[n]] == n))
  }

  /** The live nodes form a finite binary tree under root: every live node is shaped, the root
      has no parent, and the subtree of every node contains the subtrees of its descendants. */
  ghost predicate Shaped(root: int, parent: seq<int>, left: seq<int>, right: seq<int>, sub: seq<set<int>>) {
    Arena(parent, left, right, sub)
    && Nil <= root < |sub|
    && (root != Nil ==> parent[root] == Nil && root in Sub(sub, root))
    && (forall n | n in Sub(sub, root) :: 0 <= n < |sub|)
    && (forall n {:trigger NodeShaped(n, root, parent, left, right, sub)} | n in Sub(sub, root) ::
          NodeShaped(n, root, parent, left, right, sub))
    && (forall n, m {:trigger Nested(sub, n, m)} | n in Sub(sub, root) && m in Sub(sub, n) :: Nested(sub, n, m))
  }

  /** The subtree of m lies inside the subtree of n. */
  ghost predicate Nested(sub: seq<set<int>>, n: int, m: int) {
    Sub(sub, m) <= Sub(sub, n)
  }

  /** Every live node's counters are the sizes of its left and right subtrees. */
  ghost predicate Counted(root: int, left: seq<int>, right: seq<int>, leftCount: seq<int>,
                          rightCount: seq<int>, sub: seq<set<int>>)
  {
    |leftCount| == |left| && |rightCount| == |left| && |right| == |left|
    && forall n | n in Sub(sub, root) && 0 <= n < |left| ::
         leftCount[n] == |Sub(sub, left[n])| && rightCount[n] == |Sub(sub, right[n])|
  }

  /** No live node has a right child without a left child. */
  ghost predicate LeftFirst(root: int, left: seq<int>, right: seq<int>, sub: seq<set<int>>) {
    forall n | n in Sub(sub, root) && 0 <= n < |left| && n < |right| :: right[n] != Nil ==> left[n] != Nil
  }

  /** Heap order on the edge from the parent of n down to n. */
  ghost predicate EdgeOrdered(pr: Priority, value: seq<int>, parent: seq<int>, n: int) {
    0 <= n < |parent| && n < |value| && 0 <= parent[n] < |value|
    && InOrder(pr, value[parent[n]], value[n])
  }

  /** Heap order on every edge of the tree. */
  ghost predicate HeapOrdered(pr: Priority, root: int, value: seq<int>, parent: seq<int>, sub: seq<set<int>>) {
    forall n | n in Sub(sub, root) && n != root :: EdgeOrdered(pr, value, parent, n)
  }

  /** Heap order on every edge except the one entering hole: the state of a sift-up. */
  ghost predicate OrderedExceptInto(pr: Priority, root: int, value: seq<int>, parent: seq<int>,
                                    sub: seq<set<int>>, hole: int)
  {
    forall n | n in Sub(sub, root) && n != root && n != hole :: EdgeOrdered(pr, value, parent, n)
  }

  /** Heap order on every edge except those leaving hole: the state of a sift-down. */
  ghost predicate OrderedExceptOutOf(pr: Priority, root: int, value: seq<int>, parent: seq<int>,
                                     sub: seq<set<int>>, hole: int)
  {
    forall n | n in Sub(sub, root) && n != root && 0 <= n < |parent| && parent[n] != hole ::
      EdgeOrdered(pr, value, parent, n)
  }

  /** The parent of hole is in order over every child of hole. */
  ghost predicate Bridged(pr: Priority, root: int, value: seq<int>, parent: seq<int>,
                          sub: seq<set<int>>, hole: int)
  {
    (hole in Sub(sub, root) && hole != root && 0 <= hole < |parent| && 0 <= parent[hole] < |value|) ==>
      forall c | c in Sub(sub, root) && 0 <= c < |parent| && c < |value| && parent[c] == hole ::
        InOrder(pr, value[parent[hole]], value[c])
  }

  /** sel is a child of node that no other child of node ranks above. */
  ghost predicate BestChild(pr: Priority, value: seq<int>, left: seq<int>, right: seq<int>, node: int, sel: int)
    requires 0 <= node < |left| && node < |right|
  {
    0 <= sel < |value| && (sel == left[node] || sel == right[node])
    && (0 <= left[node] < |value| ==> InOrder(pr, value[sel], value[left[node]]))
    && (0 <= right[node] < |value| ==> InOrder(pr, value[sel], value[right[node]]))
  }

  // ---------------------------------------------------------------------------------------
  // Basic facts about shaped trees

  lemma ProperSubsetSmaller(a: set<int>, b: set<int>, x: int)
    requires a <= b && x in b && x !in a
    ensures |a| < |b|
  {
    var d := b - a;
    assert x in d;
    assert b == a + d;
    assert |d - {x}| == |d| - 1;
  }

  lemma SubsetNoLarger(a: set<int>, b: set<int>)
    requires a <= b
    ensures |a| <= |b|
  {
    assert b == a + (b - a);
  }

  lemma AddOne(a: set<int>, x: int)
    requires x !in a
    ensures |a + {x}| == |a| + 1
  {
  }

  lemma RemoveOne(a: set<int>, x: int)
    ensures |a - {x}| == if x in a then |a| - 1 else |a|
  {
    if x in a {
      assert a == (a - {x}) + {x};
    } else {
      assert a - {x} == a;
    }
  }

  /** A non-root live node sits strictly inside the subtree of its live parent. */
  lemma ChildInsideParent(root: int, parent: seq<int>, left: seq<int>, right: seq<int>, sub: seq<set<int>>, c: int)
    requires Shaped(root, parent, left, right, sub)
    requires c in Sub(sub, root) && c != root
    ensures 0 <= parent[c] < |sub| && parent[c] in Sub(sub, root) && parent[c] !in Sub(sub, c)
    ensures Sub(sub, c) <= Sub(sub, parent[c]) <= Sub(sub, root)
    ensures |Sub(sub, c)| < |Sub(sub, parent[c])| <= |Sub(sub, root)|
  {
    var p := parent[c];
    assert NodeShaped(c, root, parent, left, right, sub);
    assert NodeShaped(p, root, parent, left, right, sub);
    assert p in Sub(sub, p);
    ProperSubsetSmaller(Sub(sub, c), Sub(sub, p), p);
    assert root in Sub(sub, root);
    assert Nested(sub, root, p);
    SubsetNoLarger(Sub(sub, p), Sub(sub, root));
  }

  /** A live node without a parent is the root. */
  lemma OrphanIsRoot(root: int, parent: seq<int>, left: seq<int>, right: seq<int>, sub: seq<set<int>>, n: int)
    requires Shaped(root, parent, left, right, sub)
    requires n in Sub(sub, root) && parent[n] == Nil
    ensures n == root
  {
    assert NodeShaped(n, root, parent, left, right, sub);
  }

  /** A child of a live node is a live non-root node whose parent is that node. */
  lemma ChildOf(root: int, parent: seq<int>, left: seq<int>, right: seq<int>, sub: seq<set<int>>, n: int, c: int)
    requires Shaped(root, parent, left, right, sub)
    requires n in Sub(sub, root) && c != Nil && (c == left[n] || c == right[n])
    ensures c in Sub(sub, root) && c != root && parent[c] == n
    ensures Sub(sub, c) <= Sub(sub, n) && |Sub(sub, c)| < |Sub(sub, n)|
  {
    assert NodeShaped(n, root, parent, left, right, sub);
    ChildInsideParent(root, parent, left, right, sub, c);
  }

  /** A node of the subtree of a live node is live and its subtree lies inside. */
  lemma Descendant(root: int, parent: seq<int>, left: seq<int>, right: seq<int>, sub: seq<set<int>>, n: int, m: int)
    requires Shaped(root, parent, left, right, sub)
    requires n in Sub(sub, root) && m in Sub(sub, n)
    ensures m in Sub(sub, root) && Sub(sub, m) <= Sub(sub, n)
  {
    assert root in Sub(sub, root);
    assert Nested(sub, root, n) && Nested(sub, n, m);
  }

  /** A node is never below one of its own descendants. */
  lemma NotBelowDescendant(root: int, parent: seq<int>, left: seq<int>, right: seq<int>, sub: seq<set<int>>,
                           n: int, m: int)
    requires Shaped(root, parent, left, right, sub)
    requires n in Sub(sub, root) && m in Sub(sub, n) && 0 <= m < |sub|
    ensures n !in Sub(sub, left[m]) && n !in Sub(sub, right[m])
  {
    Descendant(root, parent, left, right, sub, n, m);
    assert NodeShaped(m, root, parent, left, right, sub);
    var c := if n in Sub(sub, left[m]) then left[m] else right[m];
    if n in Sub(sub, c) {
      ChildOf(root, parent, left, right, sub, m, c);
      Descendant(root, parent, left, right, sub, c, n);
      SubsetNoLarger(Sub(sub, n), Sub(sub, c));
      SubsetNoLarger(Sub(sub, m), Sub(sub, n));
    }
  }

  /** The size of a tree is one more than the sizes of the root's two subtrees. */
  lemma TreeSize(root: int, parent: seq<int>, left: seq<int>, right: seq<int>, sub: seq<set<int>>)
    requires Shaped(root, parent, left, right, sub) && root != Nil
    ensures |Sub(sub, root)| == |Sub(sub, left[root])| + |Sub(sub, right[root])| + 1
  {
    assert root in Sub(sub, root);
    assert NodeShaped(root, root, parent, left, right, sub);
  }

  /** Heap order along every edge gives heap order along every downward path: no node of a
      subtree ranks above the subtree's top. */
  lemma {:induction false} SubtreeOrdered(pr: Priority, root: int, parent: seq<int>, left: seq<int>,
                                          right: seq<int>, sub: seq<set<int>>, value: seq<int>, x: int, m: int)
    requires Shaped(root, parent, left, right, sub) && |value| == |parent|
    requires HeapOrdered(pr, root, value, parent, sub)
    requires x in Sub(sub, root) && m in Sub(sub, x)
    ensures 0 <= x < |value| && 0 <= m < |value| && InOrder(pr, value[x], value[m])
    decreases |Sub(sub, x)|
  {
    assert NodeShaped(x, root, parent, left, right, sub);
    if m != x {
      var c := if m in Sub(sub, left[x]) then left[x] else right[x];
      ChildOf(root, parent, left, right, sub, x, c);
      SubtreeOrdered(pr, root, parent, left, right, sub, value, c, m);
      assert EdgeOrdered(pr, value, parent, c);
    }
  }

  /** The root of a heap-ordered tree is in order over every live node. */
  lemma RootOrdered(pr: Priority, root: int, parent: seq<int>, left: seq<int>,
                    right: seq<int>, sub: seq<set<int>>, value: seq<int>)
    requires Shaped(root, parent, left, right, sub) && |value| == |parent|
    requires HeapOrdered(pr, root, value, parent, sub) && root != Nil
    ensures forall m | m in Sub(sub, root) :: 0 <= m < |value| && InOrder(pr, value[root], value[m])
  {
    assert root in Sub(sub, root);
    forall m | m in Sub(sub, root) ensures 0 <= m < |value| && InOrder(pr, value[root], value[m]) {
      SubtreeOrdered(pr, root, parent, left, right, sub, value, root, m);
    }
  }

  // ---------------------------------------------------------------------------------------
  // Sifting: swapping values along one edge

  /** One step of sift-up: the hole's value outranks its parent's, so the two are swapped and
      the hole moves up to the parent. */
  lemma SiftUpStep(pr: Priority, root: int, parent: seq<int>, left: seq<int>, right: seq<int>,
                   sub: seq<set<int>>, value: seq<int>, node: int)
    requires Shaped(root, parent, left, right, sub) && |value| == |parent|
    requires node in Sub(sub, root) && node != root
    requires OrderedExceptInto(pr, root, value, parent, sub, node)
    requires Bridged(pr, root, value, parent, sub, node)
    requires 0 <= parent[node] < |value| && Compare(pr, value[parent[node]], value[node])
    ensures var p := parent[node];
            var value' := value[node := value[p]][p := value[node]];
            OrderedExceptInto(pr, root, value', parent, sub, p) && Bridged(pr, root, value', parent, sub, p)
  {
    var p := parent[node];
    var value' := value[node := value[p]][p := value[node]];
    ChildInsideParent(root, parent, left, right, sub, node);
    forall n | n in Sub(sub, root) && n != root && n != p
      ensures EdgeOrdered(pr, value', parent, n)
    {
      ChildInsideParent(root, parent, left, right, sub, n);
      if n != node && parent[n] == p {
        assert EdgeOrdered(pr, value, parent, n);
      }
    }
    if p != root {
      ChildInsideParent(root, parent, left, right, sub, p);
      assert EdgeOrdered(pr, value, parent, p);
      forall c | c in Sub(sub, root) && 0 <= c < |parent| && c < |value| && parent[c] == p
        ensures InOrder(pr, value'[parent[p]], value'[c])
      {
        ChildInsideParent(root, parent, left, right, sub, c);
        if c != node {
          assert EdgeOrdered(pr, value, parent, c);
        }
      }
    }
  }

  /** Sift-up stops at the root or below a parent that is in order over it: the whole tree is
      then heap-ordered. */
  lemma SiftUpDone(pr: Priority, root: int, parent: seq<int>, left: seq<int>, right: seq<int>,
                   sub: seq<set<int>>, value: seq<int>, node: int)
    requires Shaped(root, parent, left, right, sub) && |value| == |parent|
    requires node in Sub(sub, root)
    requires OrderedExceptInto(pr, root, value, parent, sub, node)
    requires parent[node] != Nil ==> 0 <= parent[node] < |value| && !Compare(pr, value[parent[node]], value[node])
    ensures HeapOrdered(pr, root, value, parent, sub)
  {
    if node != root {
      ChildInsideParent(root, parent, left, right, sub, node);
    }
  }

  /** One step of sift-down: the best child sel outranks node, so the two are swapped and the
      hole moves down to sel. */
  lemma SiftDownStep(pr: Priority, root: int, parent: seq<int>, left: seq<int>, right: seq<int>,
                     sub: seq<set<int>>, value: seq<int>, node: int, sel: int)
    requires Shaped(root, parent, left, right, sub) && |value| == |parent|
    requires node in Sub(sub, root) && 0 <= node < |left|
    requires BestChild(pr, value, left, right, node, sel)
    requires OrderedExceptOutOf(pr, root, value, parent, sub, node)
    requires Bridged(pr, root, value, parent, sub, node)
    requires Compare(pr, value[node], value[sel])
    ensures var value' := value[node := value[sel]][sel := value[node]];
            OrderedExceptOutOf(pr, root, value', parent, sub, sel) && Bridged(pr, root, value', parent, sub, sel)
  {
    var value' := value[node := value[sel]][sel := value[node]];
    ChildOf(root, parent, left, right, sub, node, sel);
    forall n | n in Sub(sub, root) && n != root && 0 <= n < |parent| && parent[n] != sel
      ensures EdgeOrdered(pr, value', parent, n)
    {
      ChildInsideParent(root, parent, left, right, sub, n);
      assert NodeShaped(n, root, parent, left, right, sub);
      if n == node {
        assert parent[node] != node;
      } else if parent[n] != node {
        assert EdgeOrdered(pr, value, parent, n);
      }
    }
    forall c | c in Sub(sub, root) && 0 <= c < |parent| && c < |value| && parent[c] == sel
      ensures InOrder(pr, value'[parent[sel]], value'[c])
    {
      ChildInsideParent(root, parent, left, right, sub, c);
      assert EdgeOrdered(pr, value, parent, c);
    }
  }

  /** Sift-down stops at a leaf or above a best child that does not outrank it: the whole tree
      is then heap-ordered. A hole that is not live (a detached leaf) leaves nothing to do. */
  lemma SiftDownDone(pr: Priority, root: int, parent: seq<int>, left: seq<int>, right: seq<int>,
                     sub: seq<set<int>>, value: seq<int>, node: int, sel: int)
    requires Shaped(root, parent, left, right, sub) && |value| == |parent|
    requires 0 <= node < |left|
    requires node in Sub(sub, root) || (left[node] == Nil && right[node] == Nil)
    requires OrderedExceptOutOf(pr, root, value, parent, sub, node)
    requires Bridged(pr, root, value, parent, sub, node)
    requires (left[node] != Nil || right[node] != Nil) ==>
               BestChild(pr, value, left, right, node, sel) && !Compare(pr, value[node], value[sel])
    ensures HeapOrdered(pr, root, value, parent, sub)
  {
    forall n | n in Sub(sub, root) && n != root
      ensures EdgeOrdered(pr, value, parent, n)
    {
      ChildInsideParent(root, parent, left, right, sub, n);
      assert NodeShaped(n, root, parent, left, right, sub);
    }
  }

  // ---------------------------------------------------------------------------------------
  // Insertion: hanging a fresh leaf x below live node p

  /** The subtrees after x is hung below p: x alone, and x added to p and to every ancestor of p. */
  ghost function SubAfterLink(sub: seq<set<int>>, root: int, p: int, x: int): (sub': seq<set<int>>)
    ensures |sub'| == |sub|
  {
    seq(|sub|, i requires 0 <= i < |sub| =>
      if i == x then {x} else if i in Sub(sub, root) && p in sub[i] then sub[i] + {x} else sub[i])
  }

  /** The columns after x is hung below p as its left (asLeft) or right child. */
  ghost predicate Linked(root: int, parent: seq<int>, left: seq<int>, right: seq<int>, sub: seq<set<int>>,
                         p: int, x: int, asLeft: bool,
                         parent': seq<int>, left': seq<int>, right': seq<int>, sub': seq<set<int>>)
  {
    Shaped(root, parent, left, right, sub)
    && p in Sub(sub, root)
    && 0 <= x < |sub| && x !in Sub(sub, root) && left[x] == Nil && right[x] == Nil
    && (if asLeft then left[p] == Nil else right[p] == Nil)
    && parent' == parent[x := p]
    && left' == (if asLeft then left[p := x] else left)
    && right' == (if asLeft then right else right[p := x])
    && sub' == SubAfterLink(sub, root, p, x)
  }

  lemma LinkLive(root: int, parent: seq<int>, left: seq<int>, right: seq<int>, sub: seq<set<int>>,
                 p: int, x: int, asLeft: bool,
                 parent': seq<int>, left': seq<int>, right': seq<int>, sub': seq<set<int>>)
    requires Linked(root, parent, left, right, sub, p, x, asLeft, parent', left', right', sub')
    ensures Sub(sub', root) == Sub(sub, root) + {x}
    ensures forall i | i in Sub(sub, root) :: Sub(sub', i) == if p in Sub(sub, i) then Sub(sub, i) + {x} else Sub(sub, i)
    ensures Sub(sub', x) == {x}
  {
    assert root in Sub(sub, root);
    assert NodeShaped(p, root, parent, left, right, sub);
  }

  /** A child link of an old node after the link: the slot below p that received x now holds
      it, and any other child keeps its subtree, plus x when p lies inside. */
  lemma LinkChild(root: int, parent: seq<int>, left: seq<int>, right: seq<int>, sub: seq<set<int>>,
                  p: int, x: int, asLeft: bool,
                  parent': seq<int>, left': seq<int>, right': seq<int>, sub': seq<set<int>>,
                  n: int, c: int, c': int)
    requires Linked(root, parent, left, right, sub, p, x, asLeft, parent', left', right', sub')
    requires n in Sub(sub, root)
    requires (c == left[n] && c' == left'[n]) || (c == right[n] && c' == right'[n])
    ensures c' != Nil ==> c' in Sub(sub', root) && parent'[c'] == n
    ensures c' == c || (n == p && c == Nil && c' == x)
    ensures c' == c ==> x !in Sub(sub, c) && Sub(sub', c) == if p in Sub(sub, c) then Sub(sub, c) + {x} else Sub(sub, c)
    ensures c' == x ==> Sub(sub', c') == {x}
  {
    LinkLive(root, parent, left, right, sub, p, x, asLeft, parent', left', right', sub');
    assert NodeShaped(n, root, parent, left, right, sub);
    if c != Nil {
      ChildOf(root, parent, left, right, sub, n, c);
      assert root in Sub(sub, root);
      Descendant(root, parent, left, right, sub, root, c);
      assert c != x;
      assert c' == c;
    }
  }

  /** The subtree of an old node after the link is its old subtree, plus x when p lies inside. */
  lemma LinkOldSub(root: int, parent: seq<int>, left: seq<int>, right: seq<int>, sub: seq<set<int>>,
                   p: int, x: int, asLeft: bool,
                   parent': seq<int>, left': seq<int>, right': seq<int>, sub': seq<set<int>>, n: int)
    requires Linked(root, parent, left, right, sub, p, x, asLeft, parent', left', right', sub')
    requires n in Sub(sub, root)
    ensures sub'[n] == {n} + Sub(sub', left'[n]) + Sub(sub', right'[n])
    ensures n !in Sub(sub', left'[n]) && n !in Sub(sub', right'[n])
    ensures Sub(sub', left'[n]) !! Sub(sub', right'[n])
  {
    LinkLive(root, parent, left, right, sub, p, x, asLeft, parent', left', right', sub');
    assert NodeShaped(n, root, parent, left, right, sub);
    var l, r := left[n], right[n];
    var a, b := Sub(sub, l), Sub(sub, r);
    LinkChild(root, parent, left, right, sub, p, x, asLeft, parent', left', right', sub', n, l, left'[n]);
    LinkChild(root, parent, left, right, sub, p, x, asLeft, parent', left', right', sub', n, r, right'[n]);
    assert n != x;
    if n == p {
      if asLeft {
        assert a == {} && left'[n] == x && right'[n] == r && p !in b;
        assert sub'[n] == sub[n] + {x} == {n} + {x} + b;
      } else {
        assert b == {} && right'[n] == x && left'[n] == l && p !in a;
        assert sub'[n] == sub[n] + {x} == {n} + a + {x};
      }
    } else if p in a {
      assert p !in b && p in sub[n];
      assert sub'[n] == sub[n] + {x} == {n} + (a + {x}) + b;
    } else if p in b {
      assert p in sub[n];
      assert sub'[n] == sub[n] + {x} == {n} + a + (b + {x});
    } else {
      assert p !in sub[n];
      assert sub'[n] == sub[n];
    }
  }

  lemma LinkNode(root: int, parent: seq<int>, left: seq<int>, right: seq<int>, sub: seq<set<int>>,
                 p: int, x: int, asLeft: bool,
                 parent': seq<int>, left': seq<int>, right': seq<int>, sub': seq<set<int>>, n: int)
    requires Linked(root, parent, left, right, sub, p, x, asLeft, parent', left', right', sub')
    requires n in Sub(sub', root)
    ensures Arena(parent', left', right', sub') && NodeShaped(n, root, parent', left', right', sub')
  {
    LinkLive(root, parent, left, right, sub, p, x, asLeft, parent', left', right', sub');
    assert NodeShaped(p, root, parent, left, right, sub);
    if n == x {
      assert p != x;
      assert left'[x] == Nil && right'[x] == Nil;
    } else {
      assert NodeShaped(n, root, parent, left, right, sub);
      LinkChild(root, parent, left, right, sub, p, x, asLeft, parent', left', right', sub', n, left[n], left'[n]);
      LinkChild(root, parent, left, right, sub, p, x, asLeft, parent', left', right', sub', n, right[n], right'[n]);
      LinkOldSub(root, parent, left, right, sub, p, x, asLeft, parent', left', right', sub', n);
      if n != root {
        ChildInsideParent(root, parent, left, right, sub, n);
        var g := parent[n];
        assert g != x && parent'[n] == g;
        if left[g] == n {
          LinkChild(root, parent, left, right, sub, p, x, asLeft, parent', left', right', sub', g, left[g], left'[g]);
        } else {
          LinkChild(root, parent, left, right, sub, p, x, asLeft, parent', left', right', sub', g, right[g], right'[g]);
        }
      }
    }
  }

  lemma LinkNested(root: int, parent: seq<int>, left: seq<int>, right: seq<int>, sub: seq<set<int>>,
                   p: int, x: int, asLeft: bool,
                   parent': seq<int>, left': seq<int>, right': seq<int>, sub': seq<set<int>>, n: int, m: int)
    requires Linked(root, parent, left, right, sub, p, x, asLeft, parent', left', right', sub')
    requires n in Sub(sub', root) && m in Sub(sub', n)
    ensures Sub(sub', m) <= Sub(sub', n)
  {
    LinkLive(root, parent, left, right, sub, p, x, asLeft, parent', left', right', sub');
    if n != x && m != x {
      Descendant(root, parent, left, right, sub, n, m);
    }
  }

  /** Hanging a fresh leaf below a live node keeps the tree shaped and adds exactly that leaf. */
  lemma LinkShape(root: int, parent: seq<int>, left: seq<int>, right: seq<int>, sub: seq<set<int>>,
                  p: int, x: int, asLeft: bool,
                  parent': seq<int>, left': seq<int>, right': seq<int>, sub': seq<set<int>>)
    requires Linked(root, parent, left, right, sub, p, x, asLeft, parent', left', right', sub')
    ensures Shaped(root, parent', left', right', sub')
    ensures Sub(sub', root) == Sub(sub, root) + {x}
  {
    LinkLive(root, parent, left, right, sub, p, x, asLeft, parent', left', right', sub');
    forall n | n in Sub(sub', root) ensures NodeShaped(n, root, parent', left', right', sub') {
      LinkNode(root, parent, left, right, sub, p, x, asLeft, parent', left', right', sub', n);
    }
    forall n, m | n in Sub(sub', root) && m in Sub(sub', n) ensures Nested(sub', n, m) {
      LinkNested(root, parent, left, right, sub, p, x, asLeft, parent', left', right', sub', n, m);
    }
    assert root in Sub(sub, root);
  }

  /** After the link, adding one to the counter facing x on every ancestor of x makes the
      counters the subtree sizes again. */
  lemma LinkCounted(root: int, parent: seq<int>, left: seq<int>, right: seq<int>, sub: seq<set<int>>,
                    p: int, x: int, asLeft: bool,
                    parent': seq<int>, left': seq<int>, right': seq<int>, sub': seq<set<int>>,
                    leftCount: seq<int>, rightCount: seq<int>, leftCount': seq<int>, rightCount': seq<int>)
    requires Linked(root, parent, left, right, sub, p, x, asLeft, parent', left', right', sub')
    requires Counted(root, left, right, leftCount, rightCount, sub)
    requires leftCount[x] == 0 && rightCount[x] == 0
    requires |leftCount'| == |rightCount'| == |leftCount|
    requires forall m | 0 <= m < |leftCount| ::
               leftCount'[m] == leftCount[m] + (if m in Sub(sub', root) && x in Sub(sub', left'[m]) then 1 else 0)
               && rightCount'[m] == rightCount[m] + (if m in Sub(sub', root) && x in Sub(sub', right'[m]) then 1 else 0)
    ensures Counted(root, left', right', leftCount', rightCount', sub')
  {
    LinkLive(root, parent, left, right, sub, p, x, asLeft, parent', left', right', sub');
    forall n | n in Sub(sub', root) && 0 <= n < |left'|
      ensures leftCount'[n] == |Sub(sub', left'[n])| && rightCount'[n] == |Sub(sub', right'[n])|
    {
      if n != x {
        LinkChild(root, parent, left, right, sub, p, x, asLeft, parent', left', right', sub', n, left[n], left'[n]);
        LinkChild(root, parent, left, right, sub, p, x, asLeft, parent', left', right', sub', n, right[n], right'[n]);
        AddOne(Sub(sub, left[n]), x);
        AddOne(Sub(sub, right[n]), x);
      }
    }
  }

  /** Hanging a fresh leaf below a heap-ordered tree can break only the edge entering the leaf,
      which has no children of its own. */
  lemma LinkOrder(pr: Priority, root: int, parent: seq<int>, left: seq<int>, right: seq<int>, sub: seq<set<int>>,
                  p: int, x: int, asLeft: bool,
                  parent': seq<int>, left': seq<int>, right': seq<int>, sub': seq<set<int>>, value: seq<int>)
    requires Linked(root, parent, left, right, sub, p, x, asLeft, parent', left', right', sub')
    requires |value| == |parent| && HeapOrdered(pr, root, value, parent, sub)
    ensures OrderedExceptInto(pr, root, value, parent', sub', x) && Bridged(pr, root, value, parent', sub', x)
  {
    LinkLive(root, parent, left, right, sub, p, x, asLeft, parent', left', right', sub');
    forall n | n in Sub(sub', root) && n != root && n != x ensures EdgeOrdered(pr, value, parent', n) {
      ChildInsideParent(root, parent, left, right, sub, n);
      assert EdgeOrdered(pr, value, parent, n);
    }
    forall c | c in Sub(sub', root) && 0 <= c < |parent'| ensures parent'[c] != x {
      if c != x && c != root {
        ChildInsideParent(root, parent, left, right, sub, c);
      }
    }
  }

  /** Hanging the leaf on the left, or on the right of a node that has a left child, keeps
      every right child paired with a left child. */
  lemma LinkLeftFirst(root: int, parent: seq<int>, left: seq<int>, right: seq<int>, sub: seq<set<int>>,
                      p: int, x: int, asLeft: bool,
                      parent': seq<int>, left': seq<int>, right': seq<int>, sub': seq<set<int>>)
    requires Linked(root, parent, left, right, sub, p, x, asLeft, parent', left', right', sub')
    requires LeftFirst(root, left, right, sub)
    requires !asLeft ==> left[p] != Nil
    ensures LeftFirst(root, left', right', sub')
  {
    LinkLive(root, parent, left, right, sub, p, x, asLeft, parent', left', right', sub');
  }

  // ---------------------------------------------------------------------------------------
  // Deletion: detaching a live leaf

  /** The subtrees after leaf is detached: leaf leaves every live subtree. */
  ghost function SubAfterUnlink(sub: seq<set<int>>, root: int, leaf: int): (sub': seq<set<int>>)
    ensures |sub'| == |sub|
  {
    seq(|sub|, i requires 0 <= i < |sub| => if i in Sub(sub, root) then sub[i] - {leaf} else sub[i])
  }

  /** The root and columns after leaf is detached: the tree becomes empty when leaf is the
      root, otherwise the parent's reference to leaf is cleared. */
  ghost predicate Unlinked(root: int, parent: seq<int>, left: seq<int>, right: seq<int>, sub: seq<set<int>>,
                           leaf: int, root': int, left': seq<int>, right': seq<int>, sub': seq<set<int>>)
  {
    Shaped(root, parent, left, right, sub) && leaf in Sub(sub, root)
    && left[leaf] == Nil && right[leaf] == Nil
    && sub' == SubAfterUnlink(sub, root, leaf)
    && if leaf == root then
         root' == Nil && left' == left && right' == right
       else
         var q := parent[leaf];
         0 <= q < |left| && root' == root
         && left' == (if left[q] == leaf then left[q := Nil] else left)
         && right' == (if left[q] == leaf then right else right[q := Nil])
  }

  lemma UnlinkLive(root: int, parent: seq<int>, left: seq<int>, right: seq<int>, sub: seq<set<int>>,
                   leaf: int, root': int, left': seq<int>, right': seq<int>, sub': seq<set<int>>)
    requires Unlinked(root, parent, left, right, sub, leaf, root', left', right', sub')
    ensures Sub(sub', root') == Sub(sub, root) - {leaf}
    ensures forall i | i in Sub(sub, root) :: Sub(sub', i) == Sub(sub, i) - {leaf}
    ensures Sub(sub, leaf) == {leaf}
  {
    assert root in Sub(sub, root);
    assert NodeShaped(leaf, root, parent, left, right, sub);
    if leaf == root {
      assert NodeShaped(root, root, parent, left, right, sub);
    }
  }

  /** A child link of a surviving node after the unlink: the leaf's slot becomes Nil and any
      other child keeps its subtree minus the leaf. */
  lemma UnlinkChild(root: int, parent: seq<int>, left: seq<int>, right: seq<int>, sub: seq<set<int>>,
                    leaf: int, root': int, left': seq<int>, right': seq<int>, sub': seq<set<int>>,
                    n: int, c: int, c': int)
    requires Unlinked(root, parent, left, right, sub, leaf, root', left', right', sub')
    requires n in Sub(sub, root) && n != leaf
    requires (c == left[n] && c' == left'[n]) || (c == right[n] && c' == right'[n])
    ensures c' != Nil ==> c' in Sub(sub', root') && parent[c'] == n && c' != leaf
    ensures c != leaf ==> c' == c
    ensures Sub(sub', c') == Sub(sub, c) - {leaf}
  {
    UnlinkLive(root, parent, left, right, sub, leaf, root', left', right', sub');
    assert leaf != root;
    var q := parent[leaf];
    ChildInsideParent(root, parent, left, right, sub, leaf);
    assert NodeShaped(n, root, parent, left, right, sub);
    if c != Nil {
      ChildOf(root, parent, left, right, sub, n, c);
      if c == leaf {
        assert q == n;
        assert NodeShaped(leaf, root, parent, left, right, sub);
        assert left[n] != right[n];
        assert c' == Nil;
      } else {
        assert c' == c;
      }
    } else {
      assert c' == Nil;
    }
  }

  lemma UnlinkNode(root: int, parent: seq<int>, left: seq<int>, right: seq<int>, sub: seq<set<int>>,
                   leaf: int, root': int, left': seq<int>, right': seq<int>, sub': seq<set<int>>, n: int)
    requires Unlinked(root, parent, left, right, sub, leaf, root', left', right', sub')
    requires n in Sub(sub', root')
    ensures Arena(parent, left', right', sub') && NodeShaped(n, root', parent, left', right', sub')
  {
    UnlinkLive(root, parent, left, right, sub, leaf, root', left', right', sub');
    assert NodeShaped(n, root, parent, left, right, sub);
    UnlinkChild(root, parent, left, right, sub, leaf, root', left', right', sub', n, left[n], left'[n]);
    UnlinkChild(root, parent, left, right, sub, leaf, root', left', right', sub', n, right[n], right'[n]);
    var a, b := Sub(sub, left[n]), Sub(sub, right[n]);
    assert sub'[n] == sub[n] - {leaf} == ({n} + a + b) - {leaf};
    assert sub'[n] == {n} + (a - {leaf}) + (b - {leaf});
    if n != root' {
      UnlinkParent(root, parent, left, right, sub, leaf, root', left', right', sub', n);
    }
  }

  /** The parent link of a surviving non-root node survives the unlink. */
  lemma UnlinkParent(root: int, parent: seq<int>, left: seq<int>, right: seq<int>, sub: seq<set<int>>,
                     leaf: int, root': int, left': seq<int>, right': seq<int>, sub': seq<set<int>>, n: int)
    requires Unlinked(root, parent, left, right, sub, leaf, root', left', right', sub')
    requires n in Sub(sub', root') && n != root'
    ensures 0 <= parent[n] < |sub'| && parent[n] in Sub(sub', root')
    ensures left'[parent[n]] == n || right'[parent[n]] == n
  {
    UnlinkLive(root, parent, left, right, sub, leaf, root', left', right', sub');
    assert NodeShaped(n, root, parent, left, right, sub);
    ChildInsideParent(root, parent, left, right, sub, n);
    var g := parent[n];
    assert g != leaf;
    if left[g] == n {
      UnlinkChild(root, parent, left, right, sub, leaf, root', left', right', sub', g, left[g], left'[g]);
    } else {
      UnlinkChild(root, parent, left, right, sub, leaf, root', left', right', sub', g, right[g], right'[g]);
    }
  }

  /** Detaching a live leaf keeps the tree shaped and removes exactly that leaf. */
  lemma UnlinkShape(root: int, parent: seq<int>, left: seq<int>, right: seq<int>, sub: seq<set<int>>,
                    leaf: int, root': int, left': seq<int>, right': seq<int>, sub': seq<set<int>>)
    requires Unlinked(root, parent, left, right, sub, leaf, root', left', right', sub')
    ensures Shaped(root', parent, left', right', sub')
    ensures Sub(sub', root') == Sub(sub, root) - {leaf}
  {
    UnlinkLive(root, parent, left, right, sub, leaf, root', left', right', sub');
    if root' != Nil {
      forall n | n in Sub(sub', root') ensures NodeShaped(n, root', parent, left', right', sub') {
        UnlinkNode(root, parent, left, right, sub, leaf, root', left', right', sub', n);
      }
      forall n, m | n in Sub(sub', root') && m in Sub(sub', n) ensures Nested(sub', n, m) {
        Descendant(root, parent, left, right, sub, n, m);
      }
      assert root in Sub(sub, root);
    }
  }

  /** Subtracting one from the counter facing leaf on every ancestor of leaf, then detaching it,
      leaves the counters equal to the subtree sizes. */
  lemma UnlinkCounted(root: int, parent: seq<int>, left: seq<int>, right: seq<int>, sub: seq<set<int>>,
                      leaf: int, root': int, left': seq<int>, right': seq<int>, sub': seq<set<int>>,
                      leftCount: seq<int>, rightCount: seq<int>, leftCount': seq<int>, rightCount': seq<int>)
    requires Unlinked(root, parent, left, right, sub, leaf, root', left', right', sub')
    requires Counted(root, left, right, leftCount, rightCount, sub)
    requires |leftCount'| == |rightCount'| == |leftCount|
    requires forall m | 0 <= m < |leftCount| ::
               leftCount'[m] == leftCount[m] + (if m in Sub(sub, root) && leaf in Sub(sub, left[m]) then -1 else 0)
               && rightCount'[m] == rightCount[m] + (if m in Sub(sub, root) && leaf in Sub(sub, right[m]) then -1 else 0)
    ensures Counted(root', left', right', leftCount', rightCount', sub')
  {
    UnlinkLive(root, parent, left, right, sub, leaf, root', left', right', sub');
    if root' != Nil {
      var q := parent[leaf];
      ChildInsideParent(root, parent, left, right, sub, leaf);
      forall n | n in Sub(sub', root') && 0 <= n < |left'|
        ensures leftCount'[n] == |Sub(sub', left'[n])| && rightCount'[n] == |Sub(sub', right'[n])|
      {
        UnlinkChild(root, parent, left, right, sub, leaf, root', left', right', sub', n, left[n], left'[n]);
        UnlinkChild(root, parent, left, right, sub, leaf, root', left', right', sub', n, right[n], right'[n]);
        RemoveOne(Sub(sub, left[n]), leaf);
        RemoveOne(Sub(sub, right[n]), leaf);
      }
    }
  }

  /** Detaching a leaf that is the root, a right child, or a left child without a right sibling
      keeps every right child paired with a left child. */
  lemma UnlinkLeftFirst(root: int, parent: seq<int>, left: seq<int>, right: seq<int>, sub: seq<set<int>>,
                        leaf: int, root': int, left': seq<int>, right': seq<int>, sub': seq<set<int>>)
    requires Unlinked(root, parent, left, right, sub, leaf, root', left', right', sub')
    requires LeftFirst(root, left, right, sub)
    requires leaf != root ==> right[parent[leaf]] == leaf || right[parent[leaf]] == Nil
    ensures LeftFirst(root', left', right', sub')
  {
    UnlinkLive(root, parent, left, right, sub, leaf, root', left', right', sub');
    if leaf != root {
      ChildInsideParent(root, parent, left, right, sub, leaf);
      assert NodeShaped(leaf, root, parent, left, right, sub);
      assert NodeShaped(parent[leaf], root, parent, left, right, sub);
    }
  }

  /** After the target takes the value of a leaf of its own subtree and the leaf is detached,
      only the edges leaving the target can be out of order: the moved value came from below
      the target, so it does not outrank the target's parent. */
  lemma UnlinkOrder(pr: Priority, root: int, parent: seq<int>, left: seq<int>, right: seq<int>, sub: seq<set<int>>,
                    leaf: int, root': int, left': seq<int>, right': seq<int>, sub': seq<set<int>>,
                    value: seq<int>, target: int)
    requires Unlinked(root, parent, left, right, sub, leaf, root', left', right', sub')
    requires |value| == |parent| && HeapOrdered(pr, root, value, parent, sub)
    requires target in Sub(sub, root) && leaf in Sub(sub, target)
    ensures var value' := value[target := value[leaf]][leaf := value[target]];
            OrderedExceptOutOf(pr, root', value', parent, sub', target)
            && Bridged(pr, root', value', parent, sub', target)
  {
    var value' := value[target := value[leaf]][leaf := value[target]];
    UnlinkLive(root, parent, left, right, sub, leaf, root', left', right', sub');
    SubtreeOrdered(pr, root, parent, left, right, sub, value, target, leaf);
    forall n | n in Sub(sub', root') && n != root' && 0 <= n < |parent| && parent[n] != target
      ensures EdgeOrdered(pr, value', parent, n)
    {
      ChildInsideParent(root, parent, left, right, sub, n);
      assert EdgeOrdered(pr, value, parent, n);
      assert NodeShaped(n, root, parent, left, right, sub);
      assert NodeShaped(leaf, root, parent, left, right, sub);
      assert parent[n] != leaf;
      if n == target {
        ChildInsideParent(root, parent, left, right, sub, target);
      }
    }
    if target in Sub(sub', root') && target != root' {
      ChildInsideParent(root, parent, left, right, sub, target);
      assert EdgeOrdered(pr, value, parent, target);
      forall c | c in Sub(sub', root') && 0 <= c < |parent| && c < |value'| && parent[c] == target
        ensures InOrder(pr, value'[parent[target]], value'[c])
      {
        ChildInsideParent(root, parent, left, right, sub, c);
        assert EdgeOrdered(pr, value, parent, c);
      }
    }
  }

  // ---------------------------------------------------------------------------------------
  // Frames: a tree whose own nodes are untouched is unchanged

  /** Columns that agree with the old ones on the live nodes (and may have grown) describe the
      same tree. */
  lemma ShapedFrame(root: int, parent: seq<int>, left: seq<int>, right: seq<int>, sub: seq<set<int>>,
                    parent': seq<int>, left': seq<int>, right': seq<int>, sub': seq<set<int>>)
    requires Shaped(root, parent, left, right, sub) && Arena(parent', left', right', sub')
    requires |sub| <= |sub'|
    requires forall i | i in Sub(sub, root) ::
               parent'[i] == parent[i] && left'[i] == left[i] && right'[i] == right[i] && sub'[i] == sub[i]
    ensures Shaped(root, parent', left', right', sub') && Sub(sub', root) == Sub(sub, root)
  {
    assert root != Nil ==> root in Sub(sub, root);
    forall n | n in Sub(sub', root) ensures NodeShaped(n, root, parent', left', right', sub') {
      assert NodeShaped(n, root, parent, left, right, sub);
      if left[n] != Nil { ChildOf(root, parent, left, right, sub, n, left[n]); }
      if right[n] != Nil { ChildOf(root, parent, left, right, sub, n, right[n]); }
      if n != root { ChildInsideParent(root, parent, left, right, sub, n); }
    }
    forall n, m | n in Sub(sub', root) && m in Sub(sub', n) ensures Nested(sub', n, m) {
      Descendant(root, parent, left, right, sub, n, m);
    }
  }

  /** Counters and columns that agree with the old ones on the live nodes still count. */
  lemma CountedFrame(root: int, parent: seq<int>, left: seq<int>, right: seq<int>, sub: seq<set<int>>,
                     leftCount: seq<int>, rightCount: seq<int>,
                     left': seq<int>, right': seq<int>, sub': seq<set<int>>, leftCount': seq<int>, rightCount': seq<int>)
    requires Shaped(root, parent, left, right, sub) && Counted(root, left, right, leftCount, rightCount, sub)
    requires |leftCount'| == |rightCount'| == |left'| == |right'| && |sub| <= |sub'| && |sub| <= |left'|
    requires forall i | i in Sub(sub, root) ::
               left'[i] == left[i] && right'[i] == right[i] && sub'[i] == sub[i]
               && leftCount'[i] == leftCount[i] && rightCount'[i] == rightCount[i]
    ensures Counted(root, left', right', leftCount', rightCount', sub')
  {
    assert root != Nil ==> root in Sub(sub, root);
    forall n | n in Sub(sub', root) && 0 <= n < |left'|
      ensures leftCount'[n] == |Sub(sub', left'[n])| && rightCount'[n] == |Sub(sub', right'[n])|
    {
      assert NodeShaped(n, root, parent, left, right, sub);
      if left[n] != Nil { ChildOf(root, parent, left, right, sub, n, left[n]); }
      if right[n] != Nil { ChildOf(root, parent, left, right, sub, n, right[n]); }
    }
  }

  /** Values and parents that agree with the old ones on the live nodes keep the heap order. */
  lemma OrderedFrame(pr: Priority, root: int, parent: seq<int>, left: seq<int>, right: seq<int>,
                     sub: seq<set<int>>, value: seq<int>, parent': seq<int>, sub': seq<set<int>>, value': seq<int>)
    requires Shaped(root, parent, left, right, sub) && |value| == |parent|
    requires HeapOrdered(pr, root, value, parent, sub)
    requires |sub| <= |sub'| && |parent| <= |parent'| && |parent| <= |value'|
    requires forall i | i in Sub(sub, root) :: value'[i] == value[i] && parent'[i] == parent[i] && sub'[i] == sub[i]
    ensures HeapOrdered(pr, root, value', parent', sub')
  {
    assert root != Nil ==> root in Sub(sub, root);
    forall n | n in Sub(sub', root) && n != root ensures EdgeOrdered(pr, value', parent', n) {
      ChildInsideParent(root, parent, left, right, sub, n);
      assert EdgeOrdered(pr, value, parent, n);
    }
  }

  /** Child columns that agree with the old ones on the live nodes keep right children paired. */
  lemma LeftFirstFrame(root: int, parent: seq<int>, left: seq<int>, right: seq<int>, sub: seq<set<int>>,
                       left': seq<int>, right': seq<int>, sub': seq<set<int>>)
    requires Shaped(root, parent, left, right, sub) && LeftFirst(root, left, right, sub)
    requires |sub| <= |sub'| && |sub| <= |left'| == |right'|
    requires forall i | i in Sub(sub, root) :: left'[i] == left[i] && right'[i] == right[i] && sub'[i] == sub[i]
    ensures LeftFirst(root, left', right', sub')
  {
    assert root != Nil ==> root in Sub(sub, root);
  }

  // ---------------------------------------------------------------------------------------
  // Small trees and walks

  /** A lone node with no parent and no children is a shaped, counted, ordered tree. */
  lemma Singleton(pr: Priority, x: int, parent: seq<int>, left: seq<int>, right: seq<int>, sub: seq<set<int>>,
                  value: seq<int>, leftCount: seq<int>, rightCount: seq<int>)
    requires Arena(parent, left, right, sub) && |value| == |leftCount| == |rightCount| == |parent|
    requires 0 <= x < |sub| && sub[x] == {x}
    requires parent[x] == Nil && left[x] == Nil && right[x] == Nil && leftCount[x] == 0 && rightCount[x] == 0
    ensures Shaped(x, parent, left, right, sub) && Sub(sub, x) == {x}
    ensures Counted(x, left, right, leftCount, rightCount, sub)
    ensures HeapOrdered(pr, x, value, parent, sub) && LeftFirst(x, left, right, sub)
  {
    assert NodeShaped(x, x, parent, left, right, sub);
    assert Nested(sub, x, x);
  }

  /** Climbing from node to its parent q: the ancestors of start inside the subtree of q are
      those inside the subtree of node, plus q itself on the side facing node. */
  lemma ClimbStep(root: int, parent: seq<int>, left: seq<int>, right: seq<int>, sub: seq<set<int>>,
                  node: int, start: int, m: int)
    requires Shaped(root, parent, left, right, sub)
    requires node in Sub(sub, root) && node != root && start in Sub(sub, node)
    requires 0 <= m < |sub|
    ensures var q := parent[node];
            && ((m in Sub(sub, q) && start in Sub(sub, left[m]))
                == ((m in Sub(sub, node) && start in Sub(sub, left[m])) || (m == q && left[q] == node)))
            && ((m in Sub(sub, q) && start in Sub(sub, right[m]))
                == ((m in Sub(sub, node) && start in Sub(sub, right[m])) || (m == q && left[q] != node)))
  {
    var q := parent[node];
    ChildInsideParent(root, parent, left, right, sub, node);
    assert NodeShaped(q, root, parent, left, right, sub);
    assert NodeShaped(node, root, parent, left, right, sub);
    if m in Sub(sub, q) {
      Descendant(root, parent, left, right, sub, q, m);
      assert NodeShaped(m, root, parent, left, right, sub);
      if m == q {
      } else if m in Sub(sub, node) {
      } else {
        var sib := if left[q] == node then right[q] else left[q];
        assert m in Sub(sub, sib);
        ChildOf(root, parent, left, right, sub, q, sib);
        Descendant(root, parent, left, right, sub, sib, m);
        if left[m] != Nil {
          ChildOf(root, parent, left, right, sub, m, left[m]);
        }
        if right[m] != Nil {
          ChildOf(root, parent, left, right, sub, m, right[m]);
        }
        assert start !in Sub(sub, sib);
      }
    } else if m in Sub(sub, node) {
      Descendant(root, parent, left, right, sub, q, node);
    }
  }
}
