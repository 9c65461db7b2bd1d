/** The failure causes of the codec, one case per cause, and the result type
    that carries them. */
module Errors {

  datatype Error =
    /** Chunk-type text whose byte length is not 4. */
    | BadLength(actual: nat)
    /** Chunk-type text with a byte that is not an ASCII letter. */
    | BadChars
    /** A chunk buffer shorter than length, type and CRC fields together. */
    | TooShort(actual: nat)
    /** The stored CRC differs from the one recomputed over type and data. */
    | CrcMismatch(stored: int, computed: int)
    /** Chunk data that is not well-formed UTF-8. */
    | InvalidUtf8

  datatype Result<+T> = Ok(value: T) | Err(error: Error) {
    predicate IsFailure() { Err? }

    function PropagateFailure<U>(): Result<U>
      requires Err?
    {
      Err(error)
    }

    function Extract(): T
      requires Ok?
    {
      value
    }
  }
}
