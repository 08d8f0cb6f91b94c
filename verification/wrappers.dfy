/** Optional values and results used by the recovery pipeline. */
module Wrappers {

  /** An optional value: Python's `None` or a present value. */
  datatype Option<+T> = None | Some(value: T)

  /** A computation that either yields a value or raises an error. */
  datatype Result<+T, +E> = Success(value: T) | Failure(error: E)
}

/** The Python exceptions the pipeline can raise and does not catch. */
module Errors {

  datatype Error =
    | LogDomainError   // `math.log2` applied to a non-positive number
    | PowZeroModulus   // three-argument `pow` with a modulus of zero
}
