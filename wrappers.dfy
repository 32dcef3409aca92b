/** An optional value: a lookup or a conversion that can come back empty. */
module Wrappers {
  datatype Option<+T> = None | Some(value: T)
}
