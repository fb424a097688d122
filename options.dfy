/** Rust's `Option`, used for "previous value", "removed value" and lookups. */
module Options {
  datatype Option<+T> = None | Some(value: T)
}
