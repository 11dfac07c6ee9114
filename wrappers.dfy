/** Failure-carrying results shared by every module of the model. */
module Wrappers {

  /** Rust's `Option<T>`. */
  datatype Option<+T> = None | Some(value: T)

  /** Rust's `Result<T, Report>`: the error side only carries its message. A
      `panic!` or a failed `unwrap` is modelled as `Err` as well, so that the
      model states when it happens instead of excluding it. */
  datatype Result<+T> = Ok(value: T) | Err(error: string)
}
