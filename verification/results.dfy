/** Option and Result, the failure-carrying values the other modules return
    where the Java code returns null or throws. */
module Results {

  /** A value that may be absent (the Java code's `null`). */
  datatype Option<+T> = None | Some(value: T)

  /** A value or the error that replaced it (the Java code's thrown exception). */
  datatype Result<+T, +E> = Success(value: T) | Failure(error: E)
}
