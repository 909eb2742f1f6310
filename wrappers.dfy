/** Optional values and fallible results, used wherever the tool's Python code
    relies on None or on an exception. */
module Wrappers {

  datatype Option<+T> = None | Some(value: T)

  /** The outcome of a step that can raise: the value, or the message of the exception. */
  datatype Result<+T> = Success(value: T) | Failure(error: string)
}
