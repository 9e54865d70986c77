/** Types shared by the component models. */
module Common {

  /** An octet, as held by `u8`, `Uint8Array` and `Vec<u8>`. */
  type byte = x: int | 0 <= x < 256

  datatype Option<+T> = None | Some(value: T)

  /** A return value, or the error a caller sees instead (an `Err`, or a thrown exception). */
  datatype Result<+T, +E> = Ok(value: T) | Err(error: E)
  {
    predicate IsFailure() { Err? }

    function PropagateFailure<U>(): Result<U, E>
      requires Err?
    {
      Err(error)
    }

    function Extract(): T
      requires Ok?
    {
      value
    }
  }
}
