// Outcomes shared by the whole model: the exceptions the engine can raise,
// an optional value standing for a C# `null`, and a result that is either a
// value or one of those exceptions.
module Results {

  /** The exceptional outcomes of the engine. `Diverges` stands for a loop of
    * the source that never ends; `OutOfFuel` is the model's own bound on
    * rewriting depth and has no counterpart in the source. */
  datatype Error =
    | DivideByZero
    | Overflow
    | ArgumentInvalid
    | ArgumentNull
    | ArgumentOutOfRange
    | NotSupported
    | InvalidCast
    | KeyNotFound
    | IndexOutOfRange
    | Diverges
    | OutOfFuel

  datatype Option<T> = None | Some(value: T)

  datatype Result<T> = Ok(value: T) | Err(error: Error) {
    predicate IsFailure() { Err? }
    function PropagateFailure<U>(): Result<U>
      requires Err?
    {
      Err(error)
    }
    function Extract(): T
      requires Ok?
    {
      value
    }
  }
}
