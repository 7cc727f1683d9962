/** Failure values of the daemon and the datatypes that carry them.

    The Python code ends the process on every failure: an exception that is
    never caught, or argparse exiting after it rejects an argument. Here each
    such failure is a `Fault`, and an operation that can fail returns a `Result`.
 */
module Outcomes {

  /** The ways the modelled code can end the process. */
  datatype Fault =
    | ZeroDivisionError   // `len(values)` is zero in count_percentage
    | ValueError          // a negative `maxlen` for the deque, or a negative sleep length
    | InvalidChoice       // a pin outside `choices`: argparse rejects it and exits (SystemExit(2))

  /** Either a value or the fault that ended the computation. */
  datatype Result<+T> = Ok(value: T) | Err(fault: Fault) {

    predicate IsFailure() {
      Err?
    }

    function PropagateFailure<U>(): Result<U>
      requires Err?
    {
      Err(fault)
    }

    function Extract(): T
      requires Ok?
    {
      value
    }
  }

  datatype Option<+T> = None | Some(value: T)
}
