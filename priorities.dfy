/** The element order. The element type is fixed to int and the caller's comparator to
    "a < b", read as "b has strictly higher priority than a". */
module Priorities {

  /** Which end of a double-ended queue an operation selects; the single-ended queue
      behaves as the Highest tree alone. */
  datatype Priority = Highest | Lowest {
    function Other(): (o: Priority)
      ensures o != this
    {
      if this == Highest then Lowest else Highest
    }
  }

  /** The comparator the queues are built with: true when b outranks a. */
  predicate MaxCompare(a: int, b: int) {
    a < b
  }

  /** The comparator of the min tree of the double-ended queue: the negation of MaxCompare. */
  predicate MinCompare(a: int, b: int) {
    !MaxCompare(a, b)
  }

  /** The comparator a tree of the given priority sifts with. */
  predicate Compare(pr: Priority, a: int, b: int) {
    if pr == Highest then MaxCompare(a, b) else MinCompare(a, b)
  }

  /** Heap order on one edge, parent value p over child value c: in the max tree no child
      outranks its parent; in the min tree no child ranks strictly below its parent. */
  predicate InOrder(pr: Priority, p: int, c: int) {
    if pr == Highest then !MaxCompare(p, c) else !MaxCompare(c, p)
  }
}
