/** Failure-compatible wrappers shared by the whole model. */
module Results {

  datatype Option<+T> = None | Some(value: T)

  /** Which validation of the conversion engine rejected its input.  Every one of
      these is raised as an invalid-price exception by the engine; the model keeps
      only which check failed, not the exception class or message text. */
  datatype OddsError =
    | InvalidDecimal
    | InvalidNumerator
    | InvalidDenominator
    | InvalidFractionBar
    | InvalidMoneyline

  datatype Result<+T> = Ok(value: T) | Err(error: OddsError) {
    predicate IsFailure() { Err? }

    function PropagateFailure<U>(): Result<U>
      requires Err?
    {
      Err(error)
    }

    function Extract(): T
      requires Ok?
    {
      value
    }
  }
}
