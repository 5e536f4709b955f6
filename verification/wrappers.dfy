/** A value that may be absent: PHP's `null` result, or a computation that never finishes. */
module Wrappers {

  datatype Option<+T> = None | Some(value: T)
}
