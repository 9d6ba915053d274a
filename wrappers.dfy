/**
 * Option, Result and Outcome: the return shapes of operations that can fail;
 * and the associativity of sequence concatenation, which several proofs use.
 */
module Wrappers {

  datatype Option<+T> = None | Some(value: T)

  /** A value, or the error a PHP method would have thrown. */
  datatype Result<+T, +E> = Success(value: T) | Failure(error: E)

  /** Success without a value, or the error a PHP method would have thrown. */
  datatype Outcome<+E> = Pass | Fail(error: E)

  lemma AppendAssoc<T>(a: seq<T>, b: seq<T>, c: seq<T>)
    ensures (a + b) + c == a + (b + c)
  {
  }
}
