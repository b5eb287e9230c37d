/** A client that empties a queue by repeated Dequeue: what comes out is exactly what was held,
    in priority order. */
module Draining {
  import opened Outcomes
  import opened Priorities
  import opened SingleEndedQueue
  import opened DoubleEndedQueue

  /** out lists dequeued elements in order, each ranking no lower than the later ones and than
      every element c still holds. */
  ghost predicate Drained(pr: Priority, out: seq<int>, c: multiset<int>) {
    (forall i, j | 0 <= i < j < |out| :: InOrder(pr, out[i], out[j]))
    && (forall i, y | 0 <= i < |out| && y in c :: InOrder(pr, out[i], y))
  }

  /** Appending a front element v of c, one that no element of c precedes, and dropping it
      from c keeps the drain in order and the elements accounted for. */
  lemma DrainStep(pr: Priority, out: seq<int>, c: multiset<int>, v: int)
    requires Drained(pr, out, c) && v in c && forall y | y in c :: InOrder(pr, v, y)
    ensures Drained(pr, out + [v], c - multiset{v})
    ensures multiset(out + [v]) + (c - multiset{v}) == multiset(out) + c
  {
    var out' := out + [v];
    forall i, j | 0 <= i < j < |out'| ensures InOrder(pr, out'[i], out'[j]) {
      if j == |out| {
        assert out'[i] == out[i];
      }
    }
    forall i, y | 0 <= i < |out'| && y in c - multiset{v} ensures InOrder(pr, out'[i], y) {
    }
  }

  /** Dequeues from q until it is empty. The output is a permutation of the queue's elements,
      and no output element outranks one dequeued before it. */
  method Drain(q: PriorityQueue) returns (out: seq<int>)
    requires q.Valid()
    modifies q
    ensures q.Valid() && q.Contents() == multiset{}
    ensures multiset(out) == old(q.Contents())
    ensures forall i, j | 0 <= i < j < |out| :: InOrder(q.pr, out[i], out[j])
  {
    out := [];
    while q.Count() > 0
      invariant q.Valid()
      invariant multiset(out) + q.Contents() == old(q.Contents())
      invariant Drained(q.pr, out, q.Contents())
      decreases |q.Contents()|
    {
      ghost var before := q.Contents();
      var r := q.Dequeue();
      DrainStep(q.pr, out, before, r.value);
      out := out + [r.value];
    }
  }

  /** Dequeues from the select end of q until it is empty: from the largest element down for
      Highest, from the smallest up for Lowest. */
  method DrainEnd(q: DEPriorityQueue, select: Priority) returns (out: seq<int>)
    requires q.Valid()
    modifies q, q.maxTree, q.minTree
    ensures q.Valid() && q.Contents() == multiset{}
    ensures multiset(out) == old(q.Contents())
    ensures forall i, j | 0 <= i < j < |out| :: InOrder(select, out[i], out[j])
  {
    out := [];
    while q.Count() > 0
      invariant q.Valid()
      invariant multiset(out) + q.Contents() == old(q.Contents())
      invariant Drained(select, out, q.Contents())
      decreases |q.Contents()|
    {
      ghost var before := q.Contents();
      var r := q.Dequeue(select);
      DrainStep(select, out, before, r.value);
      out := out + [r.value];
    }
  }
}
