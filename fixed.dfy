/**
 * Fixed-width integers (src/type/mod.rs): `u8`, `u16`, `u32` and `u64` are
 * written as 1, 2, 4 or 8 big-endian bytes (`to_be_bytes` /
 * `from_be_bytes`), and `i32` / `i64` travel as the unsigned integer with
 * the same bit pattern (`as u32`, `as i32`, ...).
 */
module FixedWidth {
  import opened Base

  /** `n` as `width` big-endian bytes, most significant first. */
  function BigEndian(n: nat, width: nat): (r: Bytes)
    requires n < Pow(0x100, width)
    ensures |r| == width
    decreases width
  {
    if width == 0 then []
    else BigEndian(n / 0x100, width - 1) + [n % 0x100]
  }

  /** The integer spelled by big-endian bytes `s`. */
  function FromBigEndian(s: Bytes): (n: nat)
    ensures n < Pow(0x100, |s|)
    decreases |s|
  {
    if s == [] then 0
    else
      var high := FromBigEndian(s[..|s| - 1]);
      assert high * 0x100 + s[|s| - 1] < Pow(0x100, |s| - 1) * 0x100 by {
        assert high <= Pow(0x100, |s| - 1) - 1;
      }
      high * 0x100 + s[|s| - 1]
  }

  /** Big-endian bytes read back as the integer written. */
  lemma {:induction false} FromBigEndianOfBigEndian(n: nat, width: nat)
    requires n < Pow(0x100, width)
    ensures FromBigEndian(BigEndian(n, width)) == n
    decreases width
  {
    if width > 0 {
      var r := BigEndian(n, width);
      assert r[..width - 1] == BigEndian(n / 0x100, width - 1);
      FromBigEndianOfBigEndian(n / 0x100, width - 1);
    }
  }

  /** Every string of `width` bytes is the big-endian form of some integer. */
  lemma {:induction false} BigEndianOfFromBigEndian(s: Bytes)
    ensures BigEndian(FromBigEndian(s), |s|) == s
    decreases |s|
  {
    if s != [] {
      var init := s[..|s| - 1];
      var n := FromBigEndian(s);
      BigEndianOfFromBigEndian(init);
      assert n / 0x100 == FromBigEndian(init) && n % 0x100 == s[|s| - 1];
      assert s == init + [s[|s| - 1]];
    }
  }

  /**
   * `i as u32` (or `as u64`) for a signed `i` of the matching width, where
   * `modulus` is 2^32 (or 2^64): the unsigned integer with the same
   * two's-complement bit pattern.
   */
  function ToUnsigned(i: int, modulus: nat): (u: nat)
    requires modulus >= 2 && modulus % 2 == 0
    requires -(modulus / 2) <= i < modulus / 2
    ensures u < modulus
    ensures (u - i) % modulus == 0
  {
    if i < 0 then i + modulus else i
  }

  /** `u as i32` (or `as i64`): the signed reading of an unsigned bit pattern. */
  function ToSigned(u: nat, modulus: nat): (i: int)
    requires modulus >= 2 && modulus % 2 == 0
    requires u < modulus
    ensures -(modulus / 2) <= i < modulus / 2
    ensures (u - i) % modulus == 0
  {
    if u >= modulus / 2 then u - modulus else u
  }

  /** The two casts are inverse bijections between the signed and unsigned ranges. */
  lemma SignedCasts(i: int, u: nat, modulus: nat)
    requires modulus >= 2 && modulus % 2 == 0
    requires -(modulus / 2) <= i < modulus / 2 && u < modulus
    ensures ToSigned(ToUnsigned(i, modulus), modulus) == i
    ensures ToUnsigned(ToSigned(u, modulus), modulus) == u
  {
  }
}
