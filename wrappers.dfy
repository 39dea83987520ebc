/** The optional value used wherever the controller may find nothing
    (JavaScript's `null` or `undefined`). */
module Wrappers {

  datatype Option<+T> = None | Some(value: T)
}
