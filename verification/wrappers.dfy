/** The optional-value datatype shared by the model: the source's `null`
    results become `None`. */
module Wrappers {

  datatype Option<+T> = None | Some(value: T)
}
