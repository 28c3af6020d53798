/** Failure-compatible wrappers shared by the whole model.

    - Option<T> stands for a Java reference that may be null (or a Guava
      Optional that may be absent).
    - Result<R, E> stands for a call that either returns a value or throws.
    - Exception names the Java exceptions the modelled code can throw.
 */
module Wrappers {

  datatype Option<+T> = None | Some(value: T) {

    predicate IsFailure() {
      None?
    }

    function PropagateFailure<U>(): Option<U>
      requires None?
    {
      None
    }

    function Extract(): T
      requires Some?
    {
      value
    }
  }

  datatype Result<+R, +E> = Success(value: R) | Failure(error: E) {

    predicate IsFailure() {
      Failure?
    }

    function PropagateFailure<U>(): Result<U, E>
      requires Failure?
    {
      Failure(error)
    }

    function Extract(): R
      requires Success?
    {
      value
    }
  }

  /** The Java exceptions thrown by the modelled code. */
  datatype Exception =
    | IllegalArgument    // IllegalArgumentException, thrown explicitly or by Guava
    | IndexOutOfBounds   // IndexOutOfBoundsException from String.substring or List.get
    | Arithmetic         // ArithmeticException from integer division by zero
    | NullPointer        // NullPointerException from a method call on null
    | NumberFormat       // NumberFormatException from Integer.parseInt
}
