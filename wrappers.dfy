/** An optional value: None stands for Python's None, or for an operation that raised. */
module Wrappers {
  datatype Option<+T> = None | Some(value: T)
}
