/** Failure-carrying datatypes shared by every module of the model.
    A Java method that either returns a value or throws is modelled as a
    function or method returning a `Result`; `null` becomes `Option.None`. */
module Wrappers {

  /** The Java exception classes the modelled code throws (directly or through
      a JDK call such as array indexing or integer parsing). */
  datatype Exception =
    | IllegalArgument
    | IllegalState
    | IndexOutOfBounds
    | NumberFormat
    | Arithmetic
    | NullPointer
    | Runtime
    | ClassCast
    | NegativeArraySize

  datatype Option<+T> = None | Some(value: T)

  datatype Result<+T> = Ok(value: T) | Throw(ex: Exception) {
    predicate IsFailure() { Throw? }

    function PropagateFailure<U>(): Result<U>
      requires Throw?
    {
      Throw(ex)
    }

    function Extract(): T
      requires Ok?
    {
      value
    }
  }

  /** A Java `void` method that may throw. */
  datatype Outcome = Done | Fail(ex: Exception) {
    predicate IsFailure() { Fail? }

    function PropagateFailure(): Outcome
      requires Fail?
    {
      this
    }
  }
}
