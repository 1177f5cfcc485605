/** Types shared by every part of the cache model. */
module Basics {

  /** A file path, as the JavaScript string the cache is keyed by. */
  type Path = string

  /** A value that may be missing: a stored body, an optional memo entry. */
  datatype Option<+T> = None | Some(value: T)
}
