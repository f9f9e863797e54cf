/** The optional-value datatype the rest of the model uses for "maybe absent" state. */
module Wrappers {

  datatype Option<+T> = None | Some(value: T)
}
