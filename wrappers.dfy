/** Option type standing for a nullable C pointer: None is NULL. */
module Wrappers {
  datatype Option<+T> = None | Some(value: T)
}
