/** Optional values and the exceptions the extensions raise, as values. */
module Outcomes {

  /** An answer that may be absent (Ruby answers `nil`). */
  datatype Option<+T> = None | Some(value: T)

  /** The exception classes the modelled methods raise or let escape. */
  datatype RubyError =
    | ArgumentError(message: string)  // a call of the wrong shape, an invalid key or value
    | IndexError                      // an assignment at an index too far below zero
    | TypeError                       // `replace(nil)`
    | NoMethodError                   // a method the receiver does not define
    | ZeroDivisionError               // integer division by zero
    | DomainError                     // `Math.sqrt` of a negative number
    | LocalJumpError                  // `yield` in a method called without a block

  /** The value a method returns, or the exception it raises. */
  datatype Result<+T> = Ok(value: T) | Err(error: RubyError) {
    predicate IsFailure() {
      Err?
    }

    function PropagateFailure<U>(): Result<U>
      requires Err?
    {
      Err(error)
    }

    function Extract(): T
      requires Ok?
    {
      value
    }
  }

  /** A method run for its effect: it finishes, or raises. */
  datatype Outcome = Pass | Fail(error: RubyError)
}
