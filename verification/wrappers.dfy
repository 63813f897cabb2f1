/** The optional-value datatype the model uses for Go's nil: a filter that
    was never installed, a payload pointer that is nil. */
module Wrappers {

  datatype Option<+T> = None | Some(value: T)
}
