/** Optional values and fallible results shared by the whole model. */
module Wrappers {

  datatype Option<+T> = None | Some(value: T)

  /** The outcome of a step that either produces a value or stops the run
      with a fatal diagnostic. */
  datatype Result<+T, +E> = Ok(value: T) | Err(error: E)
}
