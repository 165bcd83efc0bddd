/** Rust's `Option`, used for the title lookup and the scanner's single-position match. */
module Wrappers {

  datatype Option<+T> = None | Some(value: T)
}
