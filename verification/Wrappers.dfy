/** What several parts share. */
module Wrappers {

  /** A value that may be missing: a null pointer, a failed search. */
  datatype Option<T> = None | Some(value: T)

  const EINVAL := 22
}
