/** A result that may be missing: an optional field, a search without a hit, a text that cannot be read. */
module Wrappers {

  datatype Option<+T> = None | Some(value: T)
}
