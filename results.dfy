/** Failure-compatible wrappers shared by the pipeline stages. */
module Results {

  /** A value that may be absent (a pandas filter that selected no row). */
  datatype Option<+T> = None | Some(value: T)

  /** The outcome of a stage: its table, or the exception that aborted it. */
  datatype Result<+T, +E> = Success(value: T) | Failure(error: E)
}
