/** The outcome of an operation that may throw, and an optional value: the
    Swift `throws` functions of the encoder return `Ok` with their value or
    `Err` with the error case; a failable lookup returns `Some` or `None`. */
module Results {

  datatype Result<+T, +E> = Ok(value: T) | Err(error: E)

  datatype Option<+T> = None | Some(value: T)

}
