/** Optional values, and results that are either a value or the exception a
    Python function would have raised. `Result` supports `:-`, so a failing
    step ends the computation with its exception, as an uncaught raise does. */
module Wrappers {

  datatype Option<+T> = None | Some(value: T)

  datatype Result<+T, +E> = Success(value: T) | Failure(error: E) {

    predicate IsFailure() {
      Failure?
    }

    function PropagateFailure<U>(): Result<U, E>
      requires Failure?
    {
      Failure(error)
    }

    function Extract(): T
      requires Success?
    {
      value
    }
  }

  /** The exceptions the Huffman functions raise when handed inputs they do not handle. */
  datatype PyError =
    | KeyError(key: string)  // a dict lookup of a key that is not there
    | IndexError             // `nodes[0]` on an empty node list
    | TypeError              // a header value of the wrong kind
    | ValueError             // a negative bitarray length, or bits that are no code
    | AttributeError         // a tree walk through a child that does not exist
}
