/** The optional-value datatype the reference decoders return. */
module Wrappers {

  datatype Option<+T> = None | Some(value: T)
}
