/** The outcome of an operation that the Python code may abandon with an exception. */
module Wrappers {
  datatype Option<+T> = None | Some(value: T)
}
