/** A cell of a CSV row that may be missing (pandas reads an empty cell as NaN). */
module Wrappers {

  datatype Option<+T> = None | Some(value: T)
}
