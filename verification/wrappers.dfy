/**
 The optional value the model uses where the source returns `null` or -1 for
 "not found".
 */
module Wrappers {

  datatype Option<T> = None | Some(value: T)
}
