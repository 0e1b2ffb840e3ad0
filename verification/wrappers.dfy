/** The optional-value datatype the ledger uses for inputs that may be
    missing or fail to parse: a NaN amount, an empty date field, a stored
    value that does not decode, a malformed line of an export. */
module Wrappers {

  datatype Option<+T> = None | Some(value: T)
}
