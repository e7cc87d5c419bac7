/** Option, the shape of Rust's `Option` and of a `Result` whose error carries no data. */
module Wrappers {

  datatype Option<+T> = None | Some(value: T)
}
