/** Option and Result values, used for the source's `None` values and for the
    exceptions its tools raise. */
module Wrappers {

  datatype Option<+T> = None | Some(value: T)

  datatype Result<+T, +E> = Ok(value: T) | Err(error: E)
}
