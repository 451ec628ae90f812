/** Failure-compatible wrappers shared by the modules of the enrolment-form model. */
module Common {

  /** A slot that may be empty: an absent draft, an entry that was not found. */
  datatype Option<+T> = None | Some(value: T)

  /** The outcome of an operation that can be refused with a reason. */
  datatype Result<+T, +E> = Success(value: T) | Failure(error: E)

  /** Re-associating a concatenation of five sequences around its last three parts. */
  lemma Regroup<T>(a: seq<T>, b: seq<T>, c: seq<T>, d: seq<T>, e: seq<T>)
    ensures a + b + c + d + e == a + b + (c + d + e)
  {
    assert a + b + c + d + e == (a + b) + (c + d + e);
  }
}
