/** The optional value used for the operations of the pipeline that may fail. */
module Wrappers {
  datatype Option<+T> = None | Some(value: T)
}
