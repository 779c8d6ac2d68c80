/** The optional value used for lookups that can fail and for Python's
    `Optional[...]` parameters. */
module Wrappers {

  datatype Option<+T> = None | Some(value: T)
}
