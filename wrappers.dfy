/** The "path or None" half of the searches' result triple. */
module Wrappers {
  datatype Option<T> = None | Some(value: T)
}
