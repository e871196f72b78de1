/** The optional value used where the PHP code returns either a value or null/false. */
module Wrappers {

  datatype Option<+T> = None | Some(value: T)

}
