/** The optional value used wherever the source can yield "nothing" (a missing
    property, a text that is not a number). */
module Wrappers {

  datatype Option<+T> = None | Some(value: T)
}
