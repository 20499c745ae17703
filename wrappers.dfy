/** The optional value used for lookups that may find nothing and for unset fields. */
module Wrappers {
  datatype Option<+T> = None | Some(value: T)
}
