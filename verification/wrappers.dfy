/** The optional value used for Rust's `Option<T>` and for decoder results. */
module Wrappers {

  datatype Option<+T> = None | Some(value: T)
}
