/** Rust's `Option`, used for the optional fields of a record and for lookups. */
module Wrappers {

  datatype Option<+T> = None | Some(value: T)
}
