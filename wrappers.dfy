/** Result, the error-carrying value the model returns where the notebook would raise. */
module Wrappers {

  datatype Result<T, E> = Ok(value: T) | Err(error: E)
}
