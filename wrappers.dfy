/** Small helper datatypes shared by the other modules. */
module Wrappers {

  /** An optional value: the model of Rust's `Option`. */
  datatype Option<+T> = None | Some(value: T)
}
