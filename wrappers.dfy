/** Optional values (JavaScript `null`/`undefined`, Rust `Option`) and fallible
    results (Rust `Result<T, String>`, a rejected promise). */
module Wrappers {

  datatype Option<+T> = None | Some(value: T) {
    /** The value, or `default` when absent (`unwrap_or`, `x ?? d`). */
    function GetOr(default: T): T {
      match this
      case Some(v) => v
      case None => default
    }
  }

  datatype Result<+T, +E> = Success(value: T) | Failure(error: E)
}
