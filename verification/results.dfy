/** Failure-carrying values shared by the model. */
module Results {

  /** A value that may be missing. */
  datatype Option<+T> = None | Some(value: T)

  /** The one exception the modelled parser can raise on its own: indexing
      a list produced by `str.split` past its end. */
  datatype Error = IndexError

  /** Either the value a Python function returns or the exception it raises. */
  datatype Result<+T> = Ok(value: T) | Err(error: Error)
}
