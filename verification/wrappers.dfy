/** Failure-compatible result types shared by the model. */
module Wrappers {

  /** A value that may be absent: the model's stand-in for JavaScript's
      `undefined`, `null` and the `-1` "not found" index. */
  datatype Option<+T> = None | Some(value: T) {

    predicate IsFailure() {
      None?
    }

    function PropagateFailure<U>(): Option<U>
      requires None?
    {
      None
    }

    function Extract(): T
      requires Some?
    {
      value
    }
  }

  /** How a call into the source ends: it returns a value, it throws (a
      RangeError from a typed-array copy, a TypeError from calling a method
      that does not exist), or it never returns a value the model covers
      (a loop that spins forever, or 32-bit arithmetic the model leaves out). */
  datatype Outcome<+T> = Returns(value: T) | Throws | Diverges {

    predicate IsFailure() {
      !Returns?
    }

    function PropagateFailure<U>(): Outcome<U>
      requires !Returns?
    {
      if Throws? then Throws else Diverges
    }

    function Extract(): T
      requires Returns?
    {
      value
    }
  }
}
