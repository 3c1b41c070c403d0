/** The optional value used wherever the code can come up empty-handed:
    a parse that fails, a search that finds nothing. */
module Wrappers {

  datatype Option<+T> = None | Some(value: T)
}
