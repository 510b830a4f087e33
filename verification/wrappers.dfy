/** The outcome of a step that may fail without saying why: here, parsing a URL. */
module Wrappers {

  datatype Option<+T> = None | Some(value: T)
}
