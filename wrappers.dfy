/** The conventional optional value, used for a face that may have no
    triangulation and for an optional text argument. */
module Wrappers {
  datatype Option<+T> = None | Some(value: T)
}
