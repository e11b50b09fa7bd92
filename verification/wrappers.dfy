/** The optional value used for every field that Python leaves as `None` or unset. */
module Wrappers {

  datatype Option<+T> = None | Some(value: T)
}
