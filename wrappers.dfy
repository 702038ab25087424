/** Option: a value that may be absent, standing in for C#'s null and "TryParse failed". */
module Wrappers {

  datatype Option<+T> = None | Some(value: T)
}
