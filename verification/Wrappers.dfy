/** The two failure-aware types the model shares: a nullable column value and
    the outcome of a database function that may raise. */
module Wrappers {

  /** A nullable column: `None` is SQL NULL. */
  datatype Option<+T> = None | Some(value: T)

  /** The outcome of a PL/pgSQL function: a value, or a raised exception. */
  datatype Result<+T, +E> = Ok(value: T) | Err(error: E)
}
