/** Failure-compatible wrappers: `Option` stands in for Java's `null`, `Result`
    for a call that either returns a value or throws. */
module Wrappers {

  datatype Option<+T> = None | Some(value: T)

  datatype Result<+R, +E> = Ok(value: R) | Err(error: E)
}
