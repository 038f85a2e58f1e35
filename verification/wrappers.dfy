/** Optional values (a JavaScript `undefined`/`null` or a missing array slot) and
    results that may carry a thrown error. */
module Wrappers {

  datatype Option<+T> = None | Some(value: T)

  datatype Result<+T, +E> = Success(value: T) | Failure(error: E)
}
