/** Optional values and results carrying an error message, in place of
    Python's None and raised exceptions. */
module Wrappers {

  datatype Option<+T> = None | Some(value: T)

  /** The outcome of an operation that can raise: the error carries the
      exception's text. */
  datatype Result<+T> = Ok(value: T) | Err(error: string)
}
