/** A value that may be absent: a JavaScript field or argument that is `undefined`. */
module Wrappers {

  datatype Option<+T> = None | Some(value: T)
}
