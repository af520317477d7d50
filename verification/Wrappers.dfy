/** The two result shapes shared by every model: a value that may be absent, and a
    call that may fail with an error. */
module Wrappers {
  datatype Option<+T> = None | Some(value: T)

  function GetOr<T>(o: Option<T>, default: T): T {
    if o.Some? then o.value else default
  }

  datatype Result<+T, +E> = Ok(value: T) | Err(error: E)
}
