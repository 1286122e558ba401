/** What the parts share that is not about bytes. */
module Wrappers {

  datatype Option<T> = None | Some(value: T)
}
