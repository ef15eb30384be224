/** The optional value shared by the matcher and the request reader. */
module Wrappers {

  datatype Option<T> = None | Some(value: T)
}
