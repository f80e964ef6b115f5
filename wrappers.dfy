/** Option and Result, and Python's truthiness of an optional string. */
module Wrappers {

  datatype Option<+T> = None | Some(value: T)

  datatype Result<+T, +E> = Ok(value: T) | Fail(failure: E)

  /** `if s:` in Python for an `Optional[str]`: neither None nor the empty string. */
  predicate IsTruthy(s: Option<string>)
  {
    s.Some? && s.value != ""
  }
}
