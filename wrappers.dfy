/** Optional values: what a Rust `Option` returns, and the outcome of a
    match whose fall-through arm panics. */
module Wrappers {
  datatype Option<T> = None | Some(value: T)
}
