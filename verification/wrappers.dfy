/** Outcomes of operations that can fail. */
module Wrappers {

  /** A value that may be absent: Python's `None` or a geometry call that raised. */
  datatype Option<+T> = None | Some(value: T)

  /** The outcome of an operation that lets an exception propagate to its caller.
      `Err` stands for the `ValueError`/`AssertionError` that the geometry library raises. */
  datatype Result<+T> = Ok(value: T) | Err
}
