/** Option and Result values shared by all modules, and the decoder's errors. */
module Wrappers {
  datatype Option<+T> = None | Some(value: T)

  datatype Error =
    | InvalidHeader
    | UnexpectedEof(needed: nat, available: nat)
    | BufferTooSmall(needed: nat, available: nat)
    | CorruptedData(index: nat, count: nat)
    | UnsupportedParams(exp: nat, fac: nat, bitWidth: nat)

  datatype Result<+T> = Ok(value: T) | Err(error: Error) {
    predicate IsFailure() { Err? }
    function PropagateFailure<U>(): Result<U>
      requires Err?
    {
      Err(error)
    }
    function Extract(): T
      requires Ok?
    {
      value
    }
  }
}
