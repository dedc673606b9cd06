/** Option, Result and Outcome: Python's `None`, raised exceptions and
    "returns normally or raises" as values. */
module Wrappers {

  /** A value that may be absent (`None` in the Python program). */
  datatype Option<+T> = None | Some(value: T)

  /** The value of a call that either returns `value` or raises `error`. */
  datatype Result<+R, +E> = Ok(value: R) | Err(error: E)

  /** A check that either passes or raises `error`, returning nothing. */
  datatype Outcome<+E> = Pass | Fail(error: E)
}
