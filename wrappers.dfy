/** Optional values and fallible results, used wherever the Python code
    returns None, raises, or shows an error dialog and exits. */
module Wrappers {

  datatype Option<+T> = None | Some(value: T)

  datatype Result<+T, +E> = Ok(value: T) | Err(error: E)
}
