/** Failure-carrying values: `Option` stands for a Java reference that may be
    null, `Result` for a computation that may throw one of the exceptions the
    modelled code can raise. */
module Wrappers {

  datatype Option<+T> = None | Some(value: T)

  /** The Java runtime exceptions reachable from the modelled code. */
  datatype Exception =
    | NegativeArraySize(size: int)               // `new Pixel[size]` with size < 0
    | IndexOutOfBounds(index: int, length: int)  // an array store past the end
    | IllegalArgument                            // `Color.rgb` with a component outside [0, 255]
    | NullPointer                                // a method call on a field that is still null

  datatype Result<+T> = Ok(value: T) | Err(error: Exception)
}
