/** Optional values and results with an error, used wherever the program
    either has no value or aborts with a diagnostic. */
module Wrappers {

  datatype Option<+T> = None | Some(value: T)

  datatype Result<+R, +E> = Ok(value: R) | Err(error: E)
}
