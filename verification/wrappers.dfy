/** Rust's `Option`, used by the decoder and by the non-blocking receives. */
module Wrappers {

  datatype Option<+T> = None | Some(value: T)
}
