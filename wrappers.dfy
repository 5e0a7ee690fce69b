/** The optional result of a lookup, as Rust's `Option`. */
module Wrappers {

  datatype Option<+T> = None | Some(value: T)

}
