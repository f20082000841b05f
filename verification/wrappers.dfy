/** The optional value used for entries of a derived column that are not defined
    (pandas shows them as NaN). */
module Wrappers {

  datatype Option<+T> = None | Some(value: T)
}
