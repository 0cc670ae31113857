/** The optional value used where the scanner sees `Option<T>`. */
module Wrappers {

  datatype Option<+T> = None | Some(value: T)
}
