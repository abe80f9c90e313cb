/** Success and absence, as the services' (value, error) pairs and "not found" replies use them. */
module Outcome {

  datatype Option<+T> = None | Some(value: T)

  datatype Result<+T, +E> = Ok(value: T) | Err(error: E)
}
