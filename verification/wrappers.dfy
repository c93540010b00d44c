/** The optional value used for placements and search results (Rust's `Option`). */
module Wrappers {
  datatype Option<+T> = None | Some(value: T)
}
