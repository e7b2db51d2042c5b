/** The optional value used for JavaScript's `undefined`, for a failed lookup and for absent fields. */
module Wrappers {

  datatype Option<+T> = None | Some(value: T)

}
