/** Optional values and the exceptions the modelled Python code can raise. */
module Wrappers {

  datatype Option<+T> = None | Some(value: T)

  /** The Python exceptions that the modelled functions let escape. */
  datatype Error =
    | ZeroDivisionError   // a Fraction or a `/` with a zero denominator
    | ValueError          // a failed tuple unpacking, or numpy.argmax of an empty sequence

  datatype Result<+T> = Success(value: T) | Failure(error: Error)
}
