/** Optional values, and the outcome of an operation that can end in a Java exception. */
module Wrappers {

  /** An optional value; `None` also stands for a Java `null` reference. */
  datatype Option<+T> = None | Some(value: T)

  /** The Java exceptions that the modelled code can raise. */
  datatype Exception =
    | NullPointerException      // a null reaches code that rejects it
    | IllegalArgumentException  // a library precondition is violated

  /** Either the value a Java method returns or the exception it throws. */
  datatype Result<+T> = Ok(value: T) | Thrown(exception: Exception)
}
