/** Values standing for Java's nullable references and thrown exceptions. */
module Outcomes {

  /** A nullable reference: None is Java's null. */
  datatype Option<T> = None | Some(value: T)

  /** The exceptions the modelled classes throw. */
  datatype Error =
    | IndexOutOfBounds   // java.lang.IndexOutOfBoundsException
    | NoSuchElement      // java.util.NoSuchElementException
    | IllegalArgument    // java.lang.IllegalArgumentException

  /** The result of a Java method that returns a value or throws. */
  datatype Result<T> = Ok(value: T) | Err(error: Error)

  /** The result of a void Java method that may throw. */
  datatype Outcome = Pass | Fail(error: Error)

  /** Every slot of s holds a non-null reference. */
  ghost predicate AllPresent<T>(s: seq<Option<T>>) {
    forall i :: 0 <= i < |s| ==> s[i].Some?
  }

  /** The references held by a sequence of non-null slots. */
  ghost function Unwrap<T>(s: seq<Option<T>>): (r: seq<T>)
    requires AllPresent(s)
    ensures |r| == |s|
    ensures forall i :: 0 <= i < |s| ==> s[i] == Some(r[i])
  {
    seq(|s|, i requires 0 <= i < |s| => s[i].value)
  }
}
