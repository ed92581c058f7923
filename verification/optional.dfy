/** Java's nullable references and thrown exceptions, as values. */
module Optional {

  /** A reference that may be null (`None`), or a `java.util.Optional`. */
  datatype Option<+T> = None | Some(value: T)

  /** A computation that either yields a value or throws `error`. */
  datatype Result<+T, +E> = Ok(value: T) | Err(error: E)
}
