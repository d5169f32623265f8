/** Failure-carrying values shared by every module: a JavaScript value that may be `null` or
    `undefined` is an `Option`, and a call that may throw returns a `Result` (or an `Outcome`
    when it returns nothing on success). */
module Wrappers {

  datatype Option<+T> = None | Some(value: T)

  datatype Result<+T, +E> = Ok(value: T) | Err(error: E)

  datatype Outcome<+E> = Pass | Fail(error: E)
}
