/** The conventional optional value: a field that is set or absent. */
module Wrappers {

  datatype Option<+T> = None | Some(value: T)
}
