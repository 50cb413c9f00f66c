/** The optional value that Rust's `Option` and the `Result` of a parse are modelled by. */
module Wrappers {

  datatype Option<+T> = None | Some(value: T)
}
