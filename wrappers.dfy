/** Failure-compatible result and option types shared by the decoder and the catalogs. */
module Wrappers {

  datatype Option<+T> = None | Some(value: T)

  /** The ways a decode of the capture, or a catalog lookup, can fail. */
  datatype Error =
    | OutOfBounds     // a read needs more bytes than remain in the buffer
    | VarIntOverflow  // five varint groups were read and the continuation bit was still set
    | NbtUnreadable   // the NBT codec could not read a root tag from the auxiliary buffer
    | MalformedState  // a stored block state's ordinal part is not a decimal numeral

  datatype Result<+T> = Ok(value: T) | Err(error: Error) {
    predicate IsFailure() {
      Err?
    }

    function PropagateFailure<U>(): Result<U>
      requires Err?
    {
      Err(error)
    }

    function Extract(): T
      requires Ok?
    {
      value
    }
  }
}
