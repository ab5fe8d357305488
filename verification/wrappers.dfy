/** Optional values and error-carrying results, used where the scripts either
    return nothing (a missing attribute, an unparsable number) or stop with an
    error message. */
module Wrappers {

  datatype Option<+T> = None | Some(value: T)

  datatype Result<+T, +E> = Success(value: T) | Failure(error: E)

  function Min(a: int, b: int): int { if a <= b then a else b }

  function Max(a: int, b: int): int { if a <= b then b else a }
}
