/** The optional-value datatype used for Python functions that either return a value,
    return None, or raise on an input they cannot handle. */
module Wrappers {

  datatype Option<+T> = None | Some(value: T)
}
