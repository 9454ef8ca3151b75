/** Option, used for the values the source represents with `None` or with an exception. */
module Wrappers {
  datatype Option<+T> = None | Some(value: T)
}
