/** Option and Result values used for the foreign calls of the loaders
    (a JSON decode that may fail, a file read or parse that may fail). */
module Wrappers {

  datatype Option<+T> = None | Some(value: T)

  datatype Result<+T, +E> = Ok(value: T) | Err(error: E)
}
