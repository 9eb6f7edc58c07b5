/** Option: a value that may be missing (a `None` in Python, an empty `max`). */
module Wrappers {

  datatype Option<+T> = None | Some(value: T)
}
