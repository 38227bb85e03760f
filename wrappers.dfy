/** The optional value used where a JavaScript function returns `null` or a regex match fails. */
module Wrappers {

  datatype Option<+T> = None | Some(value: T)
}
