/** The optional-value datatype used for absent page properties and
    blocks that yield no line of text. */
module Wrappers {

  datatype Option<+T> = None | Some(value: T)
}
