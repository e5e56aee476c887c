/** Option and Result, the two failure-carrying shapes the Rust code uses
    (`Option<T>` and `anyhow::Result<T>` / `Result<T, String>`). */
module Wrappers {

  datatype Option<+T> = None | Some(value: T) {

    /** `Option::unwrap_or`: the contained value, or `default` when absent. */
    function GetOr(default: T): T {
      match this
      case Some(v) => v
      case None => default
    }

    /** `Option::or`: this value when present, otherwise `other`. */
    function Or(other: Option<T>): Option<T> {
      if Some? then this else other
    }
  }

  datatype Result<+T, +E> = Ok(value: T) | Err(error: E)
}
