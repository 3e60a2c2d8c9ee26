/** The optional value used throughout the model: a missing request field,
    an empty query result, a claim absent from a token. */
module Wrappers {

  datatype Option<+T> = None | Some(value: T)
}
