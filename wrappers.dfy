/** Failure-carrying datatypes shared by the whole model. */
module Wrappers {

  /** A value that may be absent (JavaScript's `undefined` result of a lookup). */
  datatype Option<+T> = None | Some(value: T)

  /** The settled state of a promise that carries no value: resolved, or rejected with an error. */
  datatype Outcome<+E> = Pass | Fail(error: E)
}
