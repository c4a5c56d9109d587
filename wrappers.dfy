/** Rust's `Option` and `Result`. The `?` operator of the source is written
    out as an explicit test for `Failure?` where it occurs. */
module Wrappers {

  datatype Option<+T> = None | Some(value: T)

  datatype Result<+R, +E> = Success(value: R) | Failure(error: E)
}
