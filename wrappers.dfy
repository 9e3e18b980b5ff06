/** Option and Result, the two failure-carrying wrappers the model uses. */
module Wrappers {

  /** `None` stands for JavaScript's `undefined` where the source reads past the end of something. */
  datatype Option<+T> = None | Some(value: T)

  /** A compile-time outcome: the value, or the error the source would throw. */
  datatype Result<+T, +E> = Success(value: T) | Failure(error: E)

  /** The element at position `j`, or `undefined` past the end. */
  function At<T>(t: seq<T>, j: nat): Option<T>
  {
    if j < |t| then Some(t[j]) else None
  }

  /** `front` in front of a list, an error passing through unchanged. */
  function Prepend<X, E>(front: seq<X>, r: Result<seq<X>, E>): Result<seq<X>, E> {
    if r.Failure? then r else Success(front + r.value)
  }

  lemma PrependPrepend<X, E>(a: seq<X>, b: seq<X>, r: Result<seq<X>, E>)
    ensures Prepend(a, Prepend(b, r)) == Prepend(a + b, r)
  {
    if r.Success? {
      assert a + (b + r.value) == (a + b) + r.value;
    }
  }
}
