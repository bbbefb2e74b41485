/** A value that may be absent: a nullable column, an optional request field, a lookup miss. */
module Wrappers {

  datatype Option<+T> = None | Some(value: T)
}
