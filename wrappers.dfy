/** Failure-carrying results shared by the whole model. */
module Wrappers {

  datatype Option<+T> = None | Some(value: T)

  /** The exceptions the modelled Java code raises, by their Java names. */
  datatype Error =
    | NotFound                // java.io.FileNotFoundException
    | InvalidArgument         // IllegalArgumentException
    | IllegalState            // IllegalStateException
    | NullPointer             // NullPointerException from a null map lookup
    | NoSuchElement           // java.util.NoSuchElementException from an exhausted iterator
    | ConcurrentModification  // ConcurrentModificationException from a stale iterator

  datatype Result<+T> = Success(value: T) | Failure(error: Error) {
    predicate IsFailure() { Failure? }

    function PropagateFailure<U>(): Result<U>
      requires Failure?
    {
      Failure(error)
    }

    function Extract(): T
      requires Success?
    {
      value
    }
  }
}
