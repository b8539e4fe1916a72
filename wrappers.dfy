/** The optional value used wherever JavaScript yields "no value". */
module Wrappers {

  datatype Option<T> = None | Some(value: T)
}
