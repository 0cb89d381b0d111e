/** Optional values and success-or-failure results, used for JavaScript's
    `undefined` fields and for calls into the store that can fail. */
module Wrappers {

  datatype Option<+T> = None | Some(value: T)

  datatype Result<+T, +E> = Success(value: T) | Failure(error: E)

  function Min(a: int, b: int): int { if a <= b then a else b }

  function Max(a: int, b: int): int { if a <= b then b else a }

  function Abs(a: int): nat { if a < 0 then -a else a }
}
