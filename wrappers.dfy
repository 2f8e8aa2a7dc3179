/** The optional value used wherever the modelled code may find nothing or fail to cast. */
module Wrappers {
  datatype Option<+T> = None | Some(value: T)
}
