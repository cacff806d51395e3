/** Failure-carrying results: the model's stand-in for a Python exception raised by an operation. */
module Results {

  datatype Option<+T> = None | Some(value: T)

  datatype Result<+T, +E> = Ok(value: T) | Err(error: E)
}
