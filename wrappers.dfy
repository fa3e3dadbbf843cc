module Wrappers {

  /** A value that may be absent; `None` stands for a NULL pointer return. */
  datatype Option<+T> = None | Some(value: T)
}
