/** An optional value: a JSON field that is absent, null or of another type is None. */
module Wrappers {

  datatype Option<+T> = None | Some(value: T)
}
