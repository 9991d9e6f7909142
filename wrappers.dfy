/** Option, the value-or-nothing type used for nullable columns and partial lookups. */
module Wrappers {
  datatype Option<+T> = None | Some(value: T)
}
