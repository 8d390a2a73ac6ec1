/** The optional-value datatype used for the auction leader, which the server
    keeps as `null` until the first accepted bid. */
module Wrappers {

  datatype Option<+T> = None | Some(value: T)
}
