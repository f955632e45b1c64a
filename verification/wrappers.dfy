/** The failure-carrying datatypes the rest of the model is written with. */
module Wrappers {

  /** A value that may be absent: a Java reference that may be null. */
  datatype Option<+T> = None | Some(value: T)

  /** The outcome of a call that either returns a value or throws an exception. */
  datatype Result<+T, +E> = Success(value: T) | Failure(error: E)

  /** A Java `String` reference: `None` stands for `null`. */
  type Text = Option<string>

  /** How Java's string concatenation renders a `String` reference. */
  function Show(t: Text): string
  {
    match t
    case None => "null"
    case Some(s) => s
  }
}
