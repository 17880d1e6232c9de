/** The Option datatype used for operations that can fail, such as removing
    from an empty frontier. */
module Wrappers {

  datatype Option<+T> = None | Some(value: T)
}
