/**
 * Values shared by every part of the model: bytes, optional values, and the
 * `std::io::Result` outcomes that the codec and the client produce.
 */
module Base {

  /** One octet, as read from or written to a stream. */
  type byte = x: int | 0 <= x < 0x100

  type Bytes = seq<byte>

  /** `b'\n'`, the line terminator of the handshake and of a command name. */
  const Newline: byte := 0x0A

  /** Rust's `Option<T>`. */
  datatype Option<+T> = None | Some(value: T)

  /**
   * The `std::io::Error`s the core raises, by kind, with the message the
   * source attaches to them.
   */
  datatype IoError =
    | UnexpectedEof                        // `read_exact` ran out of input
    | InvalidData(message: string)         // a decoder rejected the bytes
    | ConnectionRefused(message: string)   // the handshake line did not match
    | Other(text: Bytes)                   // an error the server reported, with its text

  /** Rust's `std::io::Result<T>`, usable with `:-`. */
  datatype Result<+T> = Ok(value: T) | Err(error: IoError) {
    predicate IsFailure() { Err? }

    function PropagateFailure<U>(): Result<U>
      requires Err?
    {
      Err(error)
    }

    function Extract(): T
      requires Ok?
    {
      value
    }
  }

  /**
   * `read_exact` of `n` bytes at position `pos` of the input `data`: the
   * bytes and the position after them, or `UnexpectedEof` when fewer than
   * `n` bytes remain.
   */
  function ReadExact(data: Bytes, pos: nat, n: nat): Result<(Bytes, nat)> {
    if pos + n <= |data| then Ok((data[pos..pos + n], pos + n)) else Err(UnexpectedEof)
  }

  /** Reading `|b|` bytes where `b` occurs gives `b`. */
  lemma ReadExactAt(data: Bytes, pos: nat, b: Bytes)
    requires At(data, pos, b)
    ensures ReadExact(data, pos, |b|) == Ok((b, pos + |b|))
  {
  }

  /** `e` occurs in `data` at position `pos`. */
  predicate At(data: Bytes, pos: nat, e: Bytes) {
    pos + |e| <= |data| && data[pos..pos + |e|] == e
  }

  /** An occurrence of `a + b` is an occurrence of `a` followed by one of `b`. */
  lemma AtConcat(data: Bytes, pos: nat, a: Bytes, b: Bytes)
    requires At(data, pos, a + b)
    ensures At(data, pos, a) && At(data, pos + |a|, b)
  {
    assert data[pos..pos + |a|] == (a + b)[..|a|];
    assert data[pos + |a|..pos + |a| + |b|] == (a + b)[|a|..];
  }

  /** The number of values of a 32-bit and of a 64-bit integer. */
  const TwoPow32: nat := 0x1_0000_0000
  const TwoPow64: nat := 0x1_0000_0000_0000_0000

  /** `b` raised to the power `k`. */
  function Pow(b: nat, k: nat): nat {
    if k == 0 then 1 else b * Pow(b, k - 1)
  }
}
