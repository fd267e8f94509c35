/**
 * The `std::io::Write` a value is encoded into and the `std::io::Read` it is
 * decoded from: an output byte sequence that only grows, and an input byte
 * sequence consumed by a cursor.
 */
module Streams {
  import opened Base

  /** A destination that keeps every byte written to it (a `Vec<u8>`). */
  class Writer {
    var bytes: Bytes

    constructor ()
      ensures bytes == []
    {
      bytes := [];
    }

    /** `write_all`: appends `b`. */
    method WriteAll(b: Bytes)
      modifies this
      ensures bytes == old(bytes) + b
    {
      bytes := bytes + b;
    }
  }

  /** A source over a fixed input, read from position `pos` onwards (a `&[u8]`). */
  class Reader {
    const data: Bytes
    var pos: nat

    predicate Valid()
      reads this
    {
      pos <= |data|
    }

    constructor (input: Bytes)
      ensures data == input && pos == 0 && Valid()
    {
      data := input;
      pos := 0;
    }

    /**
     * `read_exact` of `n` bytes. When fewer remain it fails with
     * `UnexpectedEof` and, as on a byte slice, consumes what was left.
     */
    method ReadExact(n: nat) returns (r: Result<Bytes>)
      requires Valid()
      modifies this
      ensures Valid()
      ensures Outcome(r, Base.ReadExact(data, old(pos), n), pos)
      ensures r.Err? ==> r.error == UnexpectedEof && pos == |data|
      ensures r.Ok? ==> |r.value| == n
    {
      if pos + n <= |data| {
        r := Ok(data[pos..pos + n]);
        pos := pos + n;
      } else {
        r := Err(UnexpectedEof);
        pos := |data|;
      }
    }
  }

  /**
   * A reading operation did what its specification `spec` says: on success
   * it returned the value and left the cursor `pos` after it, and on
   * failure it raised the same error.
   */
  predicate Outcome<T(==)>(r: Result<T>, spec: Result<(T, nat)>, pos: nat) {
    match spec
    case Ok((x, q)) => r == Ok(x) && pos == q
    case Err(e) => r == Err(e)
  }
}
