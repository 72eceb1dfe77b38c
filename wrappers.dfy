/** The optional value a parking slot holds in place of a nullable pointer. */
module Wrappers {
  datatype Option<+T> = None | Some(value: T)
}
