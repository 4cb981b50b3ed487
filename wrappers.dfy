/** Optional values and success-or-failure results, used for JavaScript's
    `undefined`, thrown exceptions and rejected promises. */
module Wrappers {

  datatype Option<+T> = None | Some(value: T)

  datatype Result<+R, +E> = Success(value: R) | Failure(error: E)
}
