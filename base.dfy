/** Shared vocabulary of both engines: optional values, results carrying the
    Python exception the code would raise, and the key and value domains. */
module Base {

  /** Python's `None` versus a present value. */
  datatype Option<+T> = None | Some(value: T)

  /** A returned value, or the exception raised instead. */
  datatype Result<+T, +E> = Ok(value: T) | Err(error: E)

  /** The Python exceptions the modelled code can raise. */
  datatype PyError = AttributeError | KeyError | TypeError

  /** Outcome of an operation that returns nothing in Python but may raise. */
  datatype Outcome = Pass | Fail(error: PyError)

  /** Keys are strings (the table's `key TEXT` column). */
  type Key = string

  /** An opaque, non-None payload; Python's None is `Option.None`. */
  type Value = string
}
