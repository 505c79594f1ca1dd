/** The optional value used for the page's "nothing to do" outcomes. */
module Wrappers {

  datatype Option<+T> = None | Some(value: T)
}
