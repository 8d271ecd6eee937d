/**
 * The kinds of Python exception the modelled code can raise, and a result
 * type that carries either a value or the exception that ends the call.
 */
module Outcomes {

  /** Python exceptions raised by the modelled code (no partial results are returned). */
  datatype PyError =
    | KeyError        // a dictionary lookup of a missing key
    | IndexError      // a list/array index outside the valid range
    | ZeroDivisionError
    | ValueError      // chr() of a value outside 0..0x10FFFF

  datatype Result<+T> = Ok(value: T) | Err(error: PyError) {
    predicate IsFailure() { Err? }

    function PropagateFailure<U>(): Result<U>
      requires Err?
    {
      Err(error)
    }

    function Extract(): T
      requires Ok?
    {
      value
    }
  }

  datatype Option<+T> = None | Some(value: T)
}
