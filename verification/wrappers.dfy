/** An optional value: `None` stands for a computation that has no result. */
module Wrappers {
  datatype Option<+T> = None | Some(value: T)
}
