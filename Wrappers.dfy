/** An optional value: what a parse that may fail produces. */
module Wrappers {
  datatype Option<+T> = None | Some(value: T)
}
