/** Optional values and success-or-error results used throughout the model. */
module Wrappers {

  /** A value that may be absent: SQL NULL, Python None. */
  datatype Option<+T> = None | Some(value: T)

  /** The outcome of an operation that can fail instead of returning a value. */
  datatype Result<+T, +E> = Ok(value: T) | Err(error: E)

  /** Python's `x or ""` for an optional string argument. */
  function OrEmpty(s: Option<string>): (r: string)
    ensures r == [] <==> s.None? || s.value == []
    ensures r != [] ==> s == Some(r)
  {
    match s
    case None => ""
    case Some(v) => v
  }
}
