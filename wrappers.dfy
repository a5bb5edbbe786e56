/** The error-carrying result used by the equation module: `Ok` with a value,
    or `Err` with the message the source builds with `to_string()`. */
module Wrappers {

  datatype Result<+T> = Ok(value: T) | Err(error: string)
}
