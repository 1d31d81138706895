/** Failure-carrying datatypes shared by the loader, the recognizer and the
    tree reconstructor. A Python exception becomes an `Err` value. */
module Results {

  datatype Option<+T> = None | Some(value: T)

  datatype Result<+T, +E> = Ok(value: T) | Err(error: E)
}
