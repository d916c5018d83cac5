/** Option, used wherever the source has a nullable pointer or a null QString. */
module Wrappers {

  datatype Option<+T> = None | Some(value: T)
}
