/** Small failure-carrying datatypes: Java's `null` results and its exceptions
    are modelled by these values instead of by preconditions. */
module Results {

  /** A value that may be absent (a Java reference that may be `null`). */
  datatype Option<+T> = None | Some(value: T)

  /** Either a value or the error that Java would have thrown. */
  datatype Result<+T, +E> = Ok(value: T) | Err(error: E)

  /** The outcome of a Java `void` method that may throw. */
  datatype Outcome<+E> = Pass | Fail(error: E)
}
