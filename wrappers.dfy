/** The optional value a Rust iterator's `next` returns. */
module Wrappers {
  datatype Option<+T> = None | Some(value: T)
}
