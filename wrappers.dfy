/** Option, Result and Outcome: how the model writes Python's `None` and raised exceptions. */
module Wrappers {

  datatype Option<+T> = None | Some(value: T)

  /** A value, or the exception that the Python code raises instead of returning. */
  datatype Result<+T, +E> = Ok(value: T) | Err(error: E)

  /** Completion without a value (a Python function that returns `None` or nothing), or a raised exception. */
  datatype Outcome<+E> = Pass | Fail(error: E)
}
