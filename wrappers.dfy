/** The optional-value and success-or-error wrappers the model uses for JavaScript's
    `undefined`/`null` results and for thrown errors. */
module Wrappers {

  datatype Option<+T> = None | Some(value: T)

  datatype Result<+T, +E> = Ok(value: T) | Err(error: E)
}
