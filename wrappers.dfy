/** Rust's `Option`, as returned by the registry's lookups. */
module Wrappers {

  datatype Option<+T> = None | Some(value: T)
}
