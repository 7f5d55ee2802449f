/** The absent-result outcome every parser of the identifier returns (std::optional). */
module Wrappers {

  datatype Option<+T> = None | Some(value: T)
}
