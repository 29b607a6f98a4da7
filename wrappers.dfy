/** Option and Result: the absent-or-present values of the catalog's optional
    fields and the value-or-error returns of its operations. */
module Wrappers {

  /** A value that may be absent (a nil pointer in the catalog's records). */
  datatype Option<+T> = None | Some(value: T)

  /** The outcome of a catalog operation: a value, or the error it reports. */
  datatype Result<+T, +E> = Ok(value: T) | Err(error: E)
}
