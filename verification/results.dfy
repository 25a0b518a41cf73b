/** Failure-carrying wrappers shared by every stage of the pipeline. */
module Results {

  /** A value that may be absent (a missing dictionary entry, an exception-free lookup that failed). */
  datatype Option<T> = None | Some(value: T)

  /** The outcome of a stage that can raise: its value, or the error it raised. */
  datatype Result<T, E> = Ok(value: T) | Err(error: E)
}
