/** The optional value used for C#'s `null` / `default(T)`. */
module Wrappers {

  datatype Option<+T> = None | Some(value: T)
}
