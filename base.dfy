/** Small wrappers shared by every module: an optional value, and the outcome of a
    Python call that either returns or raises. */
module Base {

  datatype Option<T> = None | Some(value: T)

  /** The two exceptions the core can raise: `datetime(...)` with a day, month or
      year out of range raises ValueError; `datetime + timedelta` past year 9999
      raises OverflowError. */
  datatype Error = ValueError | OverflowError

  /** A Python call either returns a value or raises an exception that nothing
      in the core catches. */
  datatype Outcome<T> = Returned(value: T) | Raised(error: Error)
}
