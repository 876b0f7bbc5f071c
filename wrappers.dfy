/** The optional value used for store lookups and for the injected store failure. */
module Wrappers {

  datatype Option<+T> = None | Some(value: T)
}
