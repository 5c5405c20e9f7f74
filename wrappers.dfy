/** The optional-value type that the sanitiser and the reader return:
    `None` plays the part of Python's `None`. */
module Wrappers {

  datatype Option<+T> = None | Some(value: T)
}
