/** Outcomes of the sequence operations: absent values (the library's `null`)
    and the errors the library throws, one constructor per message. */
module Outcomes {

  /** A value that may be missing; `None` stands for the `null` the `*OrNull` operations return. */
  datatype Option<+T> = None | Some(value: T)

  /** The errors thrown by the library, named after their messages. */
  datatype Error =
    | EmptySequence       // "Empty sequence"
    | ElementNotFound     // "Element not found"
    | NotASingleSequence  // "Not a single sequence"
    | NegativeDropSize    // "Negative drop size"
    | OutOfBounds         // "n out of bounds"
    | NonNumericSequence  // "Non-numeric sequence"
    | ItemNotIterable     // "Item is not iterable"

  /** Either the value an operation returns or the error it throws. */
  datatype Result<+T> = Success(value: T) | Failure(error: Error)
}
