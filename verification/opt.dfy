/** The `Option` every Rust module of the model returns. */
module Opt {
  datatype Option<T> = None | Some(value: T)
}
