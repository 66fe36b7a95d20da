/** The exceptions the C# engine can raise, and a failure-compatible result type
    that carries either a value or the first exception raised. */
module Failures {

  /** The runtime exceptions that the modelled code can throw. */
  datatype Fault =
    | IndexOutOfRange       // an array or list indexed outside its bounds
    | ArgumentOutOfRange    // `Substring` with a negative length
    | Format                // `int.Parse` on text that is not an integer
    | Overflow              // `int.Parse` on an integer outside 32 bits

  /** A computation that either returns normally (`Ok`) or throws (`Err`). */
  datatype Result<+T> = Ok(value: T) | Err(fault: Fault) {

    predicate IsFailure() {
      Err?
    }

    function PropagateFailure<U>(): Result<U>
      requires Err?
    {
      Err(fault)
    }

    function Extract(): T
      requires Ok?
    {
      value
    }
  }
}
