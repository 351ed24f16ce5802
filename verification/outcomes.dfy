/** Option and Result values, used where the Python code returns None or
    abandons an operation with a message. */
module Outcomes {
  datatype Option<T> = None | Some(value: T)

  datatype Result<T, E> = Ok(value: T) | Err(error: E)
}
