/** The Option type used for Python functions that return a value or None. */
module Wrappers {

  datatype Option<+T> = None | Some(value: T)
}
