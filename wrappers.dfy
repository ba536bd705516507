/** The optional value used for "no value" results: an exhausted input stream,
    a string that does not parse, a range that was not asked for. */
module Wrappers {

  datatype Option<+T> = None | Some(value: T)
}
