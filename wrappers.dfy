/** The `Option` type that Rust's standard library provides. */
module Wrappers {
  datatype Option<+T> = None | Some(value: T)
}
