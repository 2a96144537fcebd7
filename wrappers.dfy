/** Result channels of the reader: a value or the "absent" sentinel (`undefined`
    in the library), and for the arbitrary-precision read also an exception. */
module Wrappers {

  /** `T | undefined`. */
  datatype Option<+T> = None | Some(value: T)

  /** `T | undefined`, or an exception raised while decoding. */
  datatype Outcome<+T> = Absent | Got(value: T) | Threw
}
