/** Failure-carrying values: Python's exceptions and None become explicit results. */
module Results {

  datatype Option<T> = None | Some(value: T)

  datatype Result<T, E> = Ok(value: T) | Err(error: E)
}
