/** Nullable values and success/failure outcomes shared by the whole model. */
module Wrappers {

  /** A Java reference that may be `null`: `None` stands for `null`. */
  datatype Option<+T> = None | Some(value: T)

  /** The outcome of an operation that either returns a value or throws. */
  datatype Result<+R, +E> = Success(value: R) | Failure(error: E)
}

/** The exceptions the registry raises, reduced to their kinds. */
module Failures {

  /** Which precondition check of a public operation rejected the call. */
  datatype Rejection = NullKey | NegativeInstanceId | NullParameters

  /** `IllegalArgumentException` raised before any state change, the
      "no suitable constructor" failure of constructor resolution, and a
      constructor body (or the reflective call) that threw. */
  datatype Error =
    | InvalidArgument(reason: Rejection)
    | NoMatchingConstructor
    | ConstructionFailure
}
