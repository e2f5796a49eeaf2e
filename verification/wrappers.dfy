/** Small helper datatypes shared by the other modules. */
module Wrappers {

  /** An optional value: a nullable field or an absent flag. */
  datatype Option<+T> = None | Some(value: T)

  /** The outcome of an operation that can fail with an error value. */
  datatype Result<+T, +E> = Success(value: T) | Failure(error: E)

  /** `idx` lists positions below `n` in strictly increasing order. */
  ghost predicate IncreasingIndices(idx: seq<nat>, n: nat)
  {
    && (forall k :: 0 <= k < |idx| ==> idx[k] < n)
    && (forall k, l :: 0 <= k < l < |idx| ==> idx[k] < idx[l])
  }
}
