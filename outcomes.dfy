/** Error reporting shared by both queues: the C# exceptions become values. */
module Outcomes {

  /** The largest element count the C# `int` Count property can report (int.MaxValue). */
  const MaxCount: int := 0x7FFF_FFFF

  /** The two run-time errors of the queues: reading or removing from an empty queue,
      and an insertion that would overflow Count. */
  datatype Error = EmptyQueue | Overflow

  /** The result of an operation that returns a value or raises. */
  datatype Result<T> = Success(value: T) | Failure(error: Error)

  /** The result of an operation that returns nothing or raises. */
  datatype Outcome = Pass | Fail(error: Error)
}
