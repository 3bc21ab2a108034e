/** Optional values and results that stand for the scripts' `None` returns and raised errors. */
module Wrappers {
  datatype Option<+T> = None | Some(value: T)

  datatype Result<+T, +E> = Success(value: T) | Failure(error: E)

  /** An offset found further on, counted from `k` places earlier. */
  function Plus(k: nat, r: Option<nat>): Option<nat> {
    match r
    case None => None
    case Some(n) => Some(k + n)
  }
}
