/** A tagged success/failure value, standing for the exceptions the decoder lets escape. */
module Results {

  datatype Result<+T, +E> = Ok(value: T) | Err(error: E)

}
