/** The absent-or-present value used for every spreadsheet cell and every optional output field. */
module Wrappers {

  /** `None` stands for a blank cell (a missing value) or an absent output field. */
  datatype Option<+T> = None | Some(value: T) {

    /** The present value, or `default` when absent. */
    function GetOr(default: T): T
    {
      match this
      case Some(v) => v
      case None => default
    }
  }
}
