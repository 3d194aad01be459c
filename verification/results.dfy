/** Failure-carrying result types shared by the index-builder model. */
module Results {

  /** A value that may be absent. */
  datatype Option<+T> = None | Some(value: T)

  /** Either a computed value or the error the script would raise instead. */
  datatype Result<+T, +E> = Ok(value: T) | Err(error: E)
}
