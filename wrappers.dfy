/** Small value types shared by every module of the model. */
module Wrappers {

  /** A value that may be absent (`undefined` in the source). */
  datatype Option<T> = None | Some(value: T) {
    function GetOr(default: T): T {
      if Some? then value else default
    }
  }

  /** The outcome of an operation that either returns a value or throws. */
  datatype Result<T, E> = Ok(value: T) | Err(error: E)

  /** A JSON object member that zod schemas declare `.nullable().optional()`:
      the key is missing, is `null`, or holds a value. */
  datatype Field<T> = Missing | Null | Given(value: T)

  /** A JavaScript `Date` or a database timestamp, as an opaque instant. */
  type Timestamp = int
}
