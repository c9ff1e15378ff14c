/** Success/failure values for operations whose source version throws. */
module Results {

  datatype Result<+T, +E> = Ok(value: T) | Err(error: E)

}
