/** The outcome of a remote lookup that may throw: `None` stands for a rejected request. */
module Wrappers {

  datatype Option<+T> = None | Some(value: T)

}
