/** Option type shared by the decimal parser and the answer results. */
module Wrappers {
  datatype Option<+T> = None | Some(value: T)
}
