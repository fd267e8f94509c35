/**
 * Fixed-width hashes (src/hash.rs): a hash is its raw digest bytes, written
 * without a length prefix and read back as exactly `size()` bytes.
 */
module Hash {
  import opened Base

  /** The two instances of the `hash_type!` macro. */
  datatype Algorithm = Blake2b | Sha1

  /** `Hash::size`: the digest width in bytes. */
  function Size(a: Algorithm): nat {
    match a
    case Blake2b => 64
    case Sha1 => 20
  }

  /** `Hash::name`. */
  function Name(a: Algorithm): string {
    match a
    case Blake2b => "blake2b"
    case Sha1 => "sha1"
  }

  /** The two algorithms differ in name and width. */
  lemma Constants()
    ensures Size(Blake2b) == 64 && Name(Blake2b) == "blake2b"
    ensures Size(Sha1) == 20 && Name(Sha1) == "sha1"
    ensures Name(Blake2b) != Name(Sha1)
  {
  }

  /**
   * `encode_bin`: the stored bytes verbatim, and the count it reports. The
   * field is public, so `digest` may have any length; the count is `size()`
   * regardless, and equals the bytes written exactly when the digest has
   * the algorithm's width.
   */
  function Encode(a: Algorithm, digest: Bytes): (r: (Bytes, nat))
    ensures r.1 == Size(a)
    ensures r.1 == |r.0| <==> |digest| == Size(a)
  {
    (digest, Size(a))
  }

  /** `decode_bin`: exactly `size()` bytes from position `pos`. */
  function Decode(a: Algorithm, data: Bytes, pos: nat): (r: Result<(Bytes, nat)>)
    ensures r.Ok? ==> |r.value.0| == Size(a) && r.value.1 == pos + Size(a)
    ensures r.Err? <==> |data| < pos + Size(a)
  {
    ReadExact(data, pos, Size(a))
  }

  /** A digest of the right width survives encoding and decoding. */
  lemma RoundTrip(a: Algorithm, digest: Bytes, data: Bytes, pos: nat)
    requires |digest| == Size(a)
    requires At(data, pos, Encode(a, digest).0)
    ensures Decode(a, data, pos) == Ok((digest, pos + Size(a)))
  {
  }

  /** Re-encoding a decoded hash gives back the bytes it was read from. */
  lemma DecodeThenEncode(a: Algorithm, data: Bytes, pos: nat)
    requires Decode(a, data, pos).Ok?
    ensures var (h, q) := Decode(a, data, pos).value; Encode(a, h).0 == data[pos..q]
  {
  }
}
