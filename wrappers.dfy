/** The success-or-error value the solver's fallible steps return. */
module Wrappers {

  datatype Result<+T, +E> = Ok(value: T) | Err(error: E)
}
