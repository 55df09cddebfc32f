/** Shared result types: the .NET exceptions the modelled code can raise become
    error values instead of preconditions. */
module Base {

  /** The exception kinds the modelled code can throw. */
  datatype Error =
    | ArgumentOutOfRange   // negative length or repeat count, PadRight below zero
    | InvalidOperation     // First() on a sequence with no match
    | KeyNotFound          // dictionary indexer on a missing key
    | DuplicateKey         // ToDictionary meeting a key twice
    | FileNotFound         // FileInfo.Length of a file that does not exist
    | IOError              // FileMode.CreateNew on an existing file

  datatype Option<+T> = None | Some(value: T)

  datatype Result<+T> = Ok(value: T) | Err(error: Error) {
    predicate IsFailure() { Err? }

    function PropagateFailure<U>(): Result<U>
      requires Err?
    {
      Err(error)
    }

    function Extract(): T
      requires Ok?
    {
      value
    }
  }

  /** A byte as read from or written to a file stream. */
  type byte = x: int | 0 <= x < 256

  function Min(a: int, b: int): int { if a <= b then a else b }

  function Max(a: int, b: int): int { if a >= b then a else b }
}
