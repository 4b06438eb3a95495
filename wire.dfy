/** Bytes, optional values and the decoding outcome shared by every codec module. */
module Wire {

  /** One octet on the wire. */
  type byte = x: int | 0 <= x < 256

  datatype Option<+T> = None | Some(value: T)

  /** The ways a `from_bytes` call ends without a value. */
  datatype Error =
    | StructError        // struct.unpack was handed a buffer of the wrong size
    | NoReader           // the type has no from_bytes at all (the Bytes blob)
    | BadCountReference  // a dependent count names no already-decoded integer
    | NoProgress         // exhaust mode read an item of zero bytes: the source spins forever here

  /** Either a decoded value or the error that aborted decoding; usable with `:-`. */
  datatype Result<+T> = Ok(value: T) | Err(error: Error) {
    predicate IsFailure() { Err? }

    function PropagateFailure<U>(): Result<U>
      requires Err?
    {
      Err(error)
    }

    function Extract(): T
      requires Ok?
    {
      value
    }
  }

  function Min(a: int, b: int): int { if a <= b then a else b }

  /** `prefix` is a prefix of `data`. */
  predicate StartsWith(data: seq<byte>, prefix: seq<byte>) {
    |prefix| <= |data| && data[..|prefix|] == prefix
  }
}
