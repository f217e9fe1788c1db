/** Success/failure carriers used instead of the source's NULL returns and
    its process-wide error message. */
module Wrappers {
  datatype Option<T> = None | Some(value: T)
}
