/** Failure-compatible wrappers shared by the trial-matching model.
    `Option` stands for Python's `None`-or-value, `Result` for a value or a
    raised exception (the exception kinds the source can raise are named in
    `Fault`). */
module Wrappers {

  datatype Option<+T> = None | Some(value: T)

  /** The exceptions the modelled Python code can raise and does not catch. */
  datatype Fault =
    | EvalSyntaxError      // `eval` of a text that is not a valid comparison
    | TypeErrorNone        // subscripting or unpacking Python's `None`
    | IndexErrorEmpty      // `[0]` on an empty list
    | KeyErrorField        // a dictionary key the code reads unconditionally is missing
    | EvalTypeError        // `eval` of a bit shift with a float operand
    | ServiceFailure       // a request to an outside service raised

  /** What a generator yielded, in order, and the exception it ended with,
      if any. */
  datatype Stream<T> = Stream(items: seq<T>, fault: Option<Fault>)

  datatype Result<+T> = Ok(value: T) | Err(fault: Fault) {
    predicate IsFailure() { Err? }

    function PropagateFailure<U>(): Result<U>
      requires Err?
    {
      Err(fault)
    }

    function Extract(): T
      requires Ok?
    {
      value
    }
  }
}
