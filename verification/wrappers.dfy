/** Optional values and error results shared by the container models. */
module Wrappers {
  datatype Option<+T> = None | Some(value: T)

  /** Outcome of an operation that may throw or fault in the source. */
  datatype Result<+T, +E> = Success(value: T) | Failure(error: E)
  {
    predicate IsFailure() { Failure? }

    function PropagateFailure<U>(): Result<U, E>
      requires Failure?
    {
      Failure(error)
    }

    function Extract(): T
      requires Success?
    {
      value
    }
  }

  /** The one exception the containers' at() throws: std::out_of_range. */
  datatype Error = OutOfRange

  /**
   * Bounds-checked indexing shared by the containers' at(): out_of_range
   * exactly when the index is not below the length, otherwise the element.
   */
  function CheckedAt<T>(s: seq<T>, i: nat): (r: Result<T, Error>)
    ensures r.Failure? <==> i >= |s|
    ensures r.Success? ==> r.value == s[i]
  {
    if i >= |s| then Failure(OutOfRange) else Success(s[i])
  }
}
