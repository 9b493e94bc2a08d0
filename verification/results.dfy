/** Outcomes of operations that the Python harness can abort with an exception. */
module Results {

  /** The Python exceptions the modelled code can raise. */
  datatype Error =
    | IndexError  // a subset names a dimension past the end of a vector
    | ValueError  // numpy.random.randint was given an empty range

  datatype Result<T> = Ok(value: T) | Err(error: Error)
}
