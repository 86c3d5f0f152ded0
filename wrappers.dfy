/** Option and Result: the absent-value and error-or-value shapes used across the model
    (std::optional, nullptr results and thrown exceptions in the source). */
module Wrappers {

  datatype Option<+T> = None | Some(value: T)

  datatype Result<+T, +E> = Ok(value: T) | Err(error: E)
}
