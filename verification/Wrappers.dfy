/** A value that may be absent: the model of Rust's `Option`, and of `Result` wherever every error is alike. */
module Wrappers {
  datatype Option<+T> = None | Some(value: T)
}
