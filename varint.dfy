/**
 * The variable-length integer of `encode_int` / `decode_int`
 * (src/type/mod.rs): 7-bit groups, least significant first, with the high
 * bit of a byte set when another byte follows.
 */
module Varint {
  import opened Base
  import FixedWidth

  /**
   * Reference reading of a byte string as 7-bit groups, least significant
   * group first; the high bit of every byte is ignored.
   */
  function Groups(s: Bytes): nat {
    if s == [] then 0 else s[0] % 0x80 + 0x80 * Groups(s[1..])
  }

  /** The bytes `encode_int` writes for a non-negative `n`. */
  function Encode(n: nat): (r: Bytes)
    ensures 1 <= |r|
    decreases n
  {
    if n < 0x80 then [n] else [0x80 + n % 0x80] + Encode(n / 0x80)
  }

  /**
   * Every byte of the encoding but the last has its continuation bit set,
   * the last has it clear, and the 7-bit groups, least significant first,
   * spell `n`.
   */
  lemma {:induction false} EncodeGroups(n: nat)
    ensures var r := Encode(n);
      && (forall i | 0 <= i < |r| - 1 :: r[i] >= 0x80)
      && r[|r| - 1] < 0x80
      && Groups(r) == n
    decreases n
  {
    if n >= 0x80 {
      var rest := Encode(n / 0x80);
      EncodeGroups(n / 0x80);
      assert ([0x80 + n % 0x80] + rest)[1..] == rest;
    }
  }

  /**
   * What `decode_int` reads from `data` starting at `pos`: the value and the
   * position after the last byte read. It stops at the first byte below
   * 0x80 and fails when the input ends first.
   */
  function Decode(data: Bytes, pos: nat): (r: Result<(nat, nat)>)
    ensures r.Ok? ==> pos < r.value.1 <= |data|
    ensures r.Err? ==> r.error == UnexpectedEof
    decreases |data| - pos
  {
    if pos >= |data| then Err(UnexpectedEof)
    else if data[pos] < 0x80 then Ok((data[pos], pos + 1))
    else
      match Decode(data, pos + 1)
      case Err(e) => Err(e)
      case Ok((m, q)) => Ok((data[pos] - 0x80 + 0x80 * m, q))
  }

  /**
   * `decode_int` succeeds exactly when a byte below 0x80 follows `pos`; it
   * then stops at the first such byte and returns the value of the 7-bit
   * groups it read.
   */
  lemma {:induction false} DecodeGroups(data: Bytes, pos: nat)
    ensures var r := Decode(data, pos);
      && (r.Ok? ==>
            var (n, q) := r.value;
            && data[q - 1] < 0x80
            && (forall i | pos <= i < q - 1 :: data[i] >= 0x80)
            && Groups(data[pos..q]) == n)
      && (r.Err? <==> forall i | pos <= i < |data| :: data[i] >= 0x80)
    decreases |data| - pos
  {
    if pos < |data| {
      if data[pos] < 0x80 {
        assert data[pos..pos + 1][1..] == [];
      } else {
        DecodeGroups(data, pos + 1);
        match Decode(data, pos + 1)
        case Err(_) =>
        case Ok((m, q)) =>
          assert data[pos..q][1..] == data[pos + 1..q];
      }
    }
  }

  /** Decoding the encoding of `n` yields `n` and consumes exactly its bytes. */
  lemma {:induction false} RoundTrip(n: nat, data: Bytes, pos: nat)
    requires pos + |Encode(n)| <= |data|
    requires data[pos..pos + |Encode(n)|] == Encode(n)
    ensures Decode(data, pos) == Ok((n, pos + |Encode(n)|))
    decreases n
  {
    var e := Encode(n);
    assert data[pos] == e[0];
    if n >= 0x80 {
      var rest := Encode(n / 0x80);
      assert e == [0x80 + n % 0x80] + rest;
      assert data[pos + 1..pos + 1 + |rest|] == data[pos..pos + |e|][1..] == rest;
      RoundTrip(n / 0x80, data, pos + 1);
      assert n == n % 0x80 + 0x80 * (n / 0x80);
    }
  }

  /** The encoding of `n` takes at most `k` bytes exactly when `n < 128^k`. */
  lemma {:induction false} Length(n: nat, k: nat)
    requires k >= 1
    ensures |Encode(n)| <= k <==> n < Pow(0x80, k)
    decreases n
  {
    if n >= 0x80 {
      if k == 1 {
        assert Pow(0x80, 1) == 0x80;
      } else {
        Length(n / 0x80, k - 1);
        assert n / 0x80 < Pow(0x80, k - 1) <==> n < 0x80 * Pow(0x80, k - 1);
      }
    } else {
      PowAtLeastOne(k - 1);
      assert 0x80 <= 0x80 * Pow(0x80, k - 1);
    }
  }

  lemma {:induction false} PowAtLeastOne(k: nat)
    ensures Pow(0x80, k) >= 1
  {
    if k > 0 {
      PowAtLeastOne(k - 1);
    }
  }

  /** One byte for 0..127, two for 128..16383, three for 16384..2097151. */
  lemma Sizes(n: nat)
    ensures n < 0x80 <==> |Encode(n)| == 1
    ensures 0x80 <= n < 0x4000 <==> |Encode(n)| == 2
    ensures 0x4000 <= n < 0x20_0000 <==> |Encode(n)| == 3
  {
    assert Pow(0x80, 1) == 0x80;
    assert Pow(0x80, 2) == 0x4000;
    assert Pow(0x80, 3) == 0x20_0000;
    Length(n, 1);
    Length(n, 2);
    Length(n, 3);
  }

  /** A strict prefix of an encoding cannot be decoded: the input ends first. */
  lemma Truncated(n: nat, j: nat)
    requires j < |Encode(n)|
    ensures Decode(Encode(n)[..j], 0) == Err(UnexpectedEof)
  {
    var e := Encode(n);
    EncodeGroups(n);
    DecodeGroups(e[..j], 0);
    assert forall i | 0 <= i < j :: e[..j][i] >= 0x80;
  }

  /**
   * The encoding of `n` with one redundant zero group appended: the last
   * byte gets its continuation bit and a 0x00 byte follows.
   */
  function Padded(n: nat): (r: Bytes)
    ensures |r| == |Encode(n)| + 1
  {
    var e := Encode(n);
    EncodeGroups(n);
    e[..|e| - 1] + [e[|e| - 1] + 0x80, 0]
  }

  lemma {:induction false} GroupsPadded(s: Bytes)
    requires |s| >= 1 && s[|s| - 1] < 0x80
    ensures Groups(s[..|s| - 1] + [s[|s| - 1] + 0x80, 0]) == Groups(s)
    decreases |s|
  {
    var p := s[..|s| - 1] + [s[|s| - 1] + 0x80, 0];
    if |s| == 1 {
      assert p == [s[0] + 0x80, 0];
      assert p[1..] == [0];
      assert [0][1..] == [];
      assert s[1..] == [];
    } else {
      var t := s[1..];
      GroupsPadded(t);
      assert p[1..] == t[..|t| - 1] + [t[|t| - 1] + 0x80, 0];
    }
  }

  /**
   * `decode_int` accepts non-minimal encodings: a redundant zero group still
   * yields `n` (so `[0x80, 0x00]` decodes to 0).
   */
  lemma AcceptsPadding(n: nat)
    ensures Decode(Padded(n), 0) == Ok((n, |Encode(n)| + 1))
  {
    var e := Encode(n);
    var p := Padded(n);
    EncodeGroups(n);
    GroupsPadded(e);
    DecodeGroups(p, 0);
    assert forall i | 0 <= i < |e| :: p[i] >= 0x80;
    assert p[|e|] == 0;
    var q := Decode(p, 0).value.1;
    assert p[q - 1] < 0x80;
    assert p[0..q] == p;
  }

  /**
   * The converse of `RoundTrip`: what `decode_int` accepts is exactly
   * `encode_int`'s output when its last group is not a redundant zero.
   */
  lemma {:induction false} Canonical(data: Bytes, pos: nat)
    requires Decode(data, pos).Ok?
    requires var q := Decode(data, pos).value.1; q == pos + 1 || data[q - 1] != 0
    ensures var (n, q) := Decode(data, pos).value; data[pos..q] == Encode(n)
    decreases |data| - pos
  {
    var (n, q) := Decode(data, pos).value;
    if data[pos] >= 0x80 {
      var (m, q') := Decode(data, pos + 1).value;
      assert q' == q;
      Canonical(data, pos + 1);
      assert data[q - 1] == data[pos + 1..q][|data[pos + 1..q]| - 1];
      assert m == 0 ==> Encode(m) == [0];
      assert m != 0;
      assert n == data[pos] - 0x80 + 0x80 * m;
      assert n / 0x80 == m && n % 0x80 == data[pos] - 0x80;
      assert data[pos..q] == [data[pos]] + data[pos + 1..q];
    }
  }

  /**
   * `encode_int` as written, on any `i64` and for at most `fuel` turns of
   * its loop: the bytes written so far and whether the loop has stopped. A
   * turn that does not stop writes `128 | (n & 127)` and shifts with `>>`,
   * which on `i64` is an arithmetic shift: it rounds toward negative
   * infinity, as `/` and `%` do here for a positive divisor.
   */
  function EncodeAsWritten(n: int, fuel: nat): (r: (Bytes, bool))
    ensures |r.0| <= fuel
    decreases fuel
  {
    if fuel == 0 then ([], false)
    else if 0 <= n < 0x80 then ([n], true)
    else
      var (rest, stopped) := EncodeAsWritten(n / 0x80, fuel - 1);
      ([0x80 + n % 0x80] + rest, stopped)
  }

  /** On a non-negative `n`, given enough turns, the loop stops having written `Encode(n)`. */
  lemma {:induction false} AsWrittenStops(n: nat, fuel: nat)
    requires |Encode(n)| <= fuel
    ensures EncodeAsWritten(n, fuel) == (Encode(n), true)
    decreases n
  {
    if n >= 0x80 {
      AsWrittenStops(n / 0x80, fuel - 1);
    }
  }

  /**
   * On a negative `n` the loop never stops: the shift keeps `n` negative,
   * so the guard never holds, and every turn writes one more byte.
   */
  lemma {:induction false} NegativeNeverStops(n: int, fuel: nat)
    requires n < 0
    ensures !EncodeAsWritten(n, fuel).1 && |EncodeAsWritten(n, fuel).0| == fuel
    decreases fuel
  {
    if fuel > 0 {
      NegativeNeverStops(n / 0x80, fuel - 1);
    }
  }

  /** `encode_int(-1)` shifts -1 back to -1 and writes 0xFF on every turn. */
  lemma {:induction false} MinusOneWritesForever(fuel: nat)
    ensures var (written, stopped) := EncodeAsWritten(-1, fuel);
      !stopped && |written| == fuel && forall i | 0 <= i < fuel :: written[i] == 0xFF
    decreases fuel
  {
    if fuel > 0 {
      MinusOneWritesForever(fuel - 1);
      assert -1 / 0x80 == -1 && 0x80 + -1 % 0x80 == 0xFF;
    }
  }

  /**
   * `encode_int` with a logical shift, the `lsr` of the OCaml code it
   * follows: the loop then works on the 64 bits of `n` read as unsigned,
   * and writes the encoding of that unsigned value.
   */
  function EncodeLogical(n: int): (r: Bytes)
    requires -(TwoPow64 / 2) <= n < TwoPow64 / 2
  {
    Encode(FixedWidth.ToUnsigned(n, TwoPow64))
  }

  /**
   * The logical-shift encoding stops within 10 bytes for every `i64`, is
   * the encoding as written on non-negative values, and decodes to the
   * unsigned bits of `n`, which cast back to `n`.
   */
  lemma LogicalEncoding(n: int)
    requires -(TwoPow64 / 2) <= n < TwoPow64 / 2
    ensures var r := EncodeLogical(n);
      && |r| <= 10
      && (0 <= n ==> r == Encode(n) && EncodeAsWritten(n, 10) == (r, true))
      && Decode(r, 0) == Ok((FixedWidth.ToUnsigned(n, TwoPow64), |r|))
      && FixedWidth.ToSigned(FixedWidth.ToUnsigned(n, TwoPow64), TwoPow64) == n
  {
    var u := FixedWidth.ToUnsigned(n, TwoPow64);
    var r := Encode(u);
    assert Pow(0x80, 10) == 0x80 * 0x80 * 0x80 * 0x80 * 0x80 * 0x80 * 0x80 * 0x80 * 0x80 * 0x80;
    Length(u, 10);
    RoundTrip(u, r, 0);
    FixedWidth.SignedCasts(n, u, TwoPow64);
    if 0 <= n {
      AsWrittenStops(n, 10);
    }
  }
}
