/** The optional-value datatype used for statistics that may be undefined. */
module Wrappers {

  /** `None` stands for pandas' NaN result of a statistic over no values, or an empty mode. */
  datatype Option<+T> = None | Some(value: T)
}
