/** What several of the models need. */
module Wrappers {
  datatype Option<+T> = None | Some(value: T)
}
