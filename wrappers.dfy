/** The optional value used wherever the source returns `nil`. */
module Wrappers {

  datatype Option<+T> = None | Some(value: T)
}
