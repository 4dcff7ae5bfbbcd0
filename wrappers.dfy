/** An optional value, standing for a DOM lookup that may come back `null`. */
module Wrappers {

  datatype Option<+T> = None | Some(value: T)
}
