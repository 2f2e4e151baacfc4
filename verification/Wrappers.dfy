/** A value or its absence: the sources' None results, error returns and optional ports. */
module Wrappers {

  datatype Option<+T> = None | Some(value: T)
}
