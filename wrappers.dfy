/** The optional value returned by the row and fragment readers. */
module Wrappers {
  datatype Option<T> = None | Some(value: T)
}
