/** The optional value returned where the source hands back a null pointer or an empty object. */
module Wrappers {

  datatype Option<+T> = None | Some(value: T)
}
