/** The optional result the exporters and the index lookup return. */
module Wrappers {
  datatype Option<+T> = None | Some(value: T)
}
