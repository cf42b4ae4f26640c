/** Failure-compatible results shared by every module of the model. */
module Wrappers {

  datatype Option<T> = None | Some(value: T)

  /** The exceptions the modelled Python code can raise, by kind. */
  datatype Error =
    | KeyError          // a dict lookup of a key that is not there
    | ValueError        // int() of a malformed literal, str.index of a missing character
    | IndexError        // a sequence index out of range
    | TypeError         // a '%x' conversion of a value that is not an integer
    | MemoryError       // a read through a null or unmapped pointer of the target
    | NoSegment         // restoreSegment with a null previousInContext
    | NoRegisters       // use of a context that was captured without registers
    | OutOfFuel         // a frame-chain walk that did not end within its step budget

  datatype Result<T> = Ok(value: T) | Err(error: Error) {
    predicate IsFailure() { Err? }

    function PropagateFailure<U>(): Result<U>
      requires Err?
    {
      Err(error)
    }

    function Extract(): T
      requires Ok?
    {
      value
    }
  }
}
