/** The tagged success/failure value that replaces Python's exceptions in the model. */
module Wrappers {

  datatype Option<+T> = None | Some(value: T)

}
