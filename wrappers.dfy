/** Plain Option and Result datatypes shared by the backend and the editor model. */
module Wrappers {

  /** A value that may be missing: an empty table cell, an absent record key. */
  datatype Option<+T> = None | Some(value: T)

  /** The outcome of an operation that can raise an error instead of returning. */
  datatype Result<+T, +E> = Ok(value: T) | Err(error: E)
}
