/** Basic types shared by the dummy serial port model: bytes, optional values
    and a success/failure result carrying the port's exception tag. */
module Base {

  /** One octet of data written to or read from the port. */
  newtype byte = x: int | 0 <= x < 256

  type bytes = seq<byte>

  /** A value that may be absent; `None` stands for Python's `None`. */
  datatype Option<+T> = None | Some(value: T) {
    function GetOr(default: T): T
    {
      match this
      case Some(v) => v
      case None => default
    }
  }

  /** The outcome of an operation that may raise: `Err` holds the tag of the
      exception raised, `Ok` the value returned. */
  datatype Result<+T, +E> = Ok(value: T) | Err(error: E)

  /** Sum of a sequence of natural numbers (read sizes, say). */
  function Sum(xs: seq<nat>): nat
  {
    if |xs| == 0 then 0 else xs[0] + Sum(xs[1..])
  }

  /** Concatenation of a sequence of byte strings, in order. */
  function Concat(chunks: seq<bytes>): bytes
  {
    if |chunks| == 0 then [] else chunks[0] + Concat(chunks[1..])
  }
}
