/** Optional values and the failures a Java call can end in. */
module Wrappers {

  /** A value that may be absent: Java's `null`. */
  datatype Option<+T> = None | Some(value: T)

  /** The unchecked exceptions the modelled code can raise. */
  datatype Fault =
    | IndexOutOfBounds   // `List.get` past the end
    | NullPointer        // a method called on a `null` reference

  /** The outcome of a call that either returns a value or throws. */
  datatype Result<+T> = Ok(value: T) | Failure(fault: Fault)
}
