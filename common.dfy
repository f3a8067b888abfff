/** Small wrappers shared by the modules of the model. */
module Common {

  datatype Option<T> = None | Some(value: T)

  /** The outcome of an operation that may abort the compile. */
  datatype Result<T, E> = Ok(value: T) | Err(fault: E)
}
