/** The usual optional-value datatype, used for values the source may leave
    `null`/`undefined` and for scanner results that may fail. */
module Wrappers {
  datatype Option<+T> = None | Some(value: T)
}
