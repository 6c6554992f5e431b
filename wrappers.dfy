/** A value that may be absent: Python's `None`, or a key missing from a JSON object. */
module Wrappers {

  datatype Option<+T> = None | Some(value: T)
}
