/** Optional values and the error outcomes a request can end in. */
module Results {

  datatype Option<+T> = None | Some(value: T)

  /** The way the analytics code can fail at run time: a Python `ZeroDivisionError`. */
  datatype Error = ZeroDivision

  datatype Result<+T> = Ok(value: T) | Err(error: Error)
}
