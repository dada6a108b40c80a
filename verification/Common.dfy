/** Types that several parts of the driver share. */
module Common {

  /** A value that may be missing. */
  datatype Option<T> = None | Some(value: T)

  /** `SqlResult::Type`: how an ODBC call ends. */
  datatype SqlResult = Success | SuccessWithInfo | NoData | NeedData | Error
}
