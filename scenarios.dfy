/** Clients that build a queue and use it through its public operations only: concrete runs
    whose results follow from the operations' contracts alone. A queue is filled from a
    sequence s, holding the prefix s[..k] after k steps, and is emptied along a sequence t
    that lists the elements in the order they come out. */
module Scenarios {
  import opened Outcomes
  import opened Priorities
  import opened SingleEndedQueue
  import opened DoubleEndedQueue

  /** Enqueuing s[k] into a single-ended queue holding s[..k], with room to spare. */
  method Put(q: PriorityQueue, s: seq<int>, k: nat)
    requires k < |s| <= MaxCount && q.Valid() && q.Contents() == multiset(s[..k])
    modifies q
    ensures q.Valid() && q.Contents() == multiset(s[..k + 1])
  {
    assert s[..k + 1] == s[..k] + [s[k]];
    var o := q.Enqueue(s[k]);
  }

  /** Enqueuing s[k] and s[k + 1] into a single-ended queue holding s[..k]. */
  method PutTwo(q: PriorityQueue, s: seq<int>, k: nat)
    requires k + 1 < |s| <= MaxCount && q.Valid() && q.Contents() == multiset(s[..k])
    modifies q
    ensures q.Valid() && q.Contents() == multiset(s[..k + 2])
  {
    Put(q, s, k);
    Put(q, s, k + 1);
  }

  /** Dequeuing from a single-ended queue holding the elements of t, none of which outranks
      t[0], returns t[0] and leaves the rest of t. */
  method Take(q: PriorityQueue, ghost t: seq<int>) returns (x: int)
    requires |t| > 0 && q.Valid() && q.Contents() == multiset(t)
    requires forall i | 0 <= i < |t| :: InOrder(q.pr, t[0], t[i])
    modifies q
    ensures q.Valid() && q.Contents() == multiset(t[1..]) && x == t[0]
  {
    assert t == [t[0]] + t[1..];
    var r := q.Dequeue();
    x := r.value;
  }

  /** Two dequeues from a single-ended queue holding the elements of t, in the order of t. */
  method TakeTwo(q: PriorityQueue, ghost t: seq<int>) returns (a: int, b: int)
    requires |t| > 1 && q.Valid() && q.Contents() == multiset(t)
    requires forall i, j | 0 <= i < j < |t| :: InOrder(q.pr, t[i], t[j])
    modifies q
    ensures q.Valid() && q.Contents() == multiset(t[2..]) && a == t[0] && b == t[1]
  {
    a := Take(q, t);
    assert t[1..][1..] == t[2..];
    b := Take(q, t[1..]);
  }

  /** Enqueuing 5, 3, 8 and 1 and dequeuing four times yields 8, 5, 3, 1; a
      fifth Dequeue reports EmptyQueue. */
  method SingleEnded() returns (out: seq<int>, last: Result<int>)
    ensures out == [8, 5, 3, 1] && last == Failure(EmptyQueue)
  {
    var q := new PriorityQueue(Highest);
    Fill(q, [5, 3, 8, 1]);
    assert multiset([5, 3, 8, 1]) == multiset([8, 5, 3, 1]);
    out, last := Empty(q, [8, 5, 3, 1]);
  }

  /** Enqueuing the four elements of s, in order. */
  method Fill(q: PriorityQueue, s: seq<int>)
    requires |s| == 4 && q.Valid() && q.Contents() == multiset{}
    modifies q
    ensures q.Valid() && q.Contents() == multiset(s)
  {
    assert s[..0] == [];
    PutTwo(q, s, 0);
    PutTwo(q, s, 2);
    assert s[..4] == s;
  }

  /** The dequeues of SingleEnded, on a queue holding the elements of t = [8, 5, 3, 1]. */
  method Empty(q: PriorityQueue, ghost t: seq<int>) returns (out: seq<int>, last: Result<int>)
    requires t == [8, 5, 3, 1] && q.Valid() && q.pr == Highest && q.Contents() == multiset(t)
    modifies q
    ensures out == t && last == Failure(EmptyQueue)
  {
    var a, b := TakeTwo(q, t);
    var c, d := TakeTwo(q, t[2..]);
    out := [a, b, c, d];
    last := q.Dequeue();
  }

  /** Enqueuing s[k] into a double-ended queue holding s[..k], with room to spare. */
  method PutBoth(q: DEPriorityQueue, s: seq<int>, k: nat)
    requires k < |s| <= MaxCount && q.Valid() && q.Contents() == multiset(s[..k])
    modifies q, q.maxTree, q.minTree
    ensures q.Valid() && q.Contents() == multiset(s[..k + 1])
  {
    assert s[..k + 1] == s[..k] + [s[k]];
    var o := q.Enqueue(s[k]);
  }

  /** Enqueuing s[k] and s[k + 1] into a double-ended queue holding s[..k]. */
  method PutTwoBoth(q: DEPriorityQueue, s: seq<int>, k: nat)
    requires k + 1 < |s| <= MaxCount && q.Valid() && q.Contents() == multiset(s[..k])
    modifies q, q.maxTree, q.minTree
    ensures q.Valid() && q.Contents() == multiset(s[..k + 2])
  {
    PutBoth(q, s, k);
    PutBoth(q, s, k + 1);
  }

  /** Dequeuing the select end of a double-ended queue holding the elements of t, where none
      of them precedes t[0] at that end, returns t[0] and leaves the rest of t. */
  method TakeEnd(q: DEPriorityQueue, select: Priority, ghost t: seq<int>) returns (x: int)
    requires |t| > 0 && q.Valid() && q.Contents() == multiset(t)
    requires forall i | 0 <= i < |t| :: InOrder(select, t[0], t[i])
    modifies q, q.maxTree, q.minTree
    ensures q.Valid() && q.Contents() == multiset(t[1..]) && x == t[0]
  {
    assert t == [t[0]] + t[1..];
    var r := q.Dequeue(select);
    x := r.value;
  }

  /** One round of DoubleEnded on a queue holding the elements of t: t[0] comes off the
      Highest end, then t[1] off the Lowest end. */
  method HighThenLow(q: DEPriorityQueue, ghost t: seq<int>) returns (a: int, b: int)
    requires |t| > 1 && q.Valid() && q.Contents() == multiset(t)
    requires forall i | 0 <= i < |t| :: InOrder(Highest, t[0], t[i])
    requires forall i | 1 <= i < |t| :: InOrder(Lowest, t[1], t[i])
    modifies q, q.maxTree, q.minTree
    ensures q.Valid() && q.Contents() == multiset(t[2..]) && a == t[0] && b == t[1]
  {
    a := TakeEnd(q, Highest, t);
    assert t[1..][1..] == t[2..];
    b := TakeEnd(q, Lowest, t[1..]);
  }

  /** From 5, 3, 8 and 1, dequeuing Highest, Lowest, Highest, Lowest yields
      8, 1, 5, 3, and the queue is then empty at both ends. */
  method DoubleEnded() returns (out: seq<int>, high: Result<int>, low: Result<int>)
    ensures out == [8, 1, 5, 3] && high == low == Failure(EmptyQueue)
  {
    var q := new DEPriorityQueue();
    FillBoth(q, [5, 3, 8, 1]);
    assert multiset([5, 3, 8, 1]) == multiset([8, 1, 5, 3]);
    out := Rounds(q, [8, 1, 5, 3]);
    high := q.Front(Highest);
    low := q.Front(Lowest);
  }

  /** Enqueuing the four elements of s, in order. */
  method FillBoth(q: DEPriorityQueue, s: seq<int>)
    requires |s| == 4 && q.Valid() && q.Contents() == multiset{}
    modifies q, q.maxTree, q.minTree
    ensures q.Valid() && q.Contents() == multiset(s)
  {
    assert s[..0] == [];
    PutTwoBoth(q, s, 0);
    PutTwoBoth(q, s, 2);
    assert s[..4] == s;
  }

  /** The dequeues of DoubleEnded, on a queue holding the elements of t = [8, 1, 5, 3]. */
  method Rounds(q: DEPriorityQueue, ghost t: seq<int>) returns (out: seq<int>)
    requires t == [8, 1, 5, 3] && q.Valid() && q.Contents() == multiset(t)
    modifies q, q.maxTree, q.minTree
    ensures q.Valid() && q.Contents() == multiset{} && out == t
  {
    var a, b := HighThenLow(q, t);
    var c, d := HighThenLow(q, t[2..]);
    out := [a, b, c, d];
  }

  /** A double-ended queue holding only 42 has 42 at both ends; once it is
      dequeued, the queue is empty. */
  method Single() returns (high: Result<int>, low: Result<int>, after: Result<int>)
    ensures high == low == Success(42) && after == Failure(EmptyQueue)
  {
    var q := new DEPriorityQueue();
    assert [42][..0] == [];
    PutBoth(q, [42], 0);
    high := q.Front(Highest);
    low := q.Front(Lowest);
    var r := q.Dequeue(Highest);
    after := q.Front(Highest);
  }
}
