/** The optional value used for the source's `T | null` results and state fields. */
module Wrappers {

  datatype Option<+T> = None | Some(value: T)
}
