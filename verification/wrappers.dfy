/** The optional value a left join produces for a row with no partner on the right. */
module Wrappers {

  /** `None` plays the part of pandas' missing value (NaN) in a joined column. */
  datatype Option<+T> = None | Some(value: T)
}
