/** Shared vocabulary for the Java values the model talks about: a nullable
    reference becomes an Option, a thrown exception becomes a Failure. */
module Base {

  /** A Java reference that may be null. */
  datatype Option<+T> = None | Some(value: T)

  /** The exceptions the modelled code can raise. */
  datatype Exception =
    | NullPointerException        // an absent (null) argument or element
    | IllegalArgumentException    // a meta pool built with a non-positive capacity

  /** Either a value, or the exception the Java code would throw instead. */
  datatype Result<+T> = Success(value: T) | Failure(error: Exception)
}
