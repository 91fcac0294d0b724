/** Rust's `Option`, as returned by `pop`. */
module Wrappers {
  datatype Option<T> = None | Some(value: T)
}
