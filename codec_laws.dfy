/**
 * What the codec promises: decoding inverts encoding, the counts
 * `encode_bin` returns, and the inputs the decoders accept or reject.
 */
module CodecLaws {
  import opened Base
  import Varint
  import FixedWidth
  import Utf8
  import Hash
  import Derive
  import opened Codec

  /**
   * Decoding the encoding of an invertible value gives the value back and
   * consumes exactly the bytes written, whatever follows them.
   */
  lemma {:induction false} RoundTrip(s: Shape, v: Value, data: Bytes, pos: nat)
    requires Decodable(s, v) && At(data, pos, Enc(s, v))
    ensures Dec(s, data, pos) == Ok((v, pos + |Enc(s, v)|))
    decreases s, 1, 0
  {
    match s
    case Unit =>
    case U8 => FixedRoundTrip(s, v, data, pos);
    case U16 => FixedRoundTrip(s, v, data, pos);
    case U32 => FixedRoundTrip(s, v, data, pos);
    case U64 => FixedRoundTrip(s, v, data, pos);
    case F64 => FixedRoundTrip(s, v, data, pos);
    case I32 => SignedRoundTrip(s, v, data, pos);
    case I64 => SignedRoundTrip(s, v, data, pos);
    case Int => Varint.RoundTrip(v.i, data, pos);
    case Str => StrRoundTrip(v, data, pos);
    case Array(_) => ArrayRoundTrip(s, v, data, pos);
    case Pair(_, _) => PairRoundTrip(s, v, data, pos);
    case Triple(_, _, _) => TripleRoundTrip(s, v, data, pos);
    case Opt(_) => OptRoundTrip(s, v, data, pos);
    case Derived(vs) =>
      if |vs| == 1 {
        RoundTripFields(s, 0, v.fields, 0, data, pos);
      } else {
        VariantRoundTrip(s, v, data, pos);
      }
    case HashOf(a) => Hash.RoundTrip(a, v.bytes, data, pos);
    case Concrete =>
  }

  /** A value's own encoding decodes, from its start, as that value. */
  lemma DecodesOwnEncoding(s: Shape, v: Value)
    requires Decodable(s, v)
    ensures Dec(s, Enc(s, v), 0) == Ok((v, |Enc(s, v)|))
  {
    assert At(Enc(s, v), 0, Enc(s, v));
    RoundTrip(s, v, Enc(s, v), 0);
  }

  /** Bytes after an encoding do not disturb its decoding. */
  lemma DecodesPrefix(s: Shape, v: Value, extra: Bytes)
    requires Decodable(s, v)
    ensures Dec(s, Enc(s, v) + extra, 0) == Ok((v, |Enc(s, v)|))
  {
    assert At(Enc(s, v) + extra, 0, Enc(s, v));
    RoundTrip(s, v, Enc(s, v) + extra, 0);
  }

  lemma SignedRoundTrip(s: Shape, v: Value, data: Bytes, pos: nat)
    requires (s.I32? || s.I64?) && Fits(s, v) && At(data, pos, Enc(s, v))
    ensures Dec(s, data, pos) == Ok((v, pos + |Enc(s, v)|))
  {
    var m := if s.I32? then TwoPow32 else TwoPow64;
    FixedWidth.FromBigEndianOfBigEndian(FixedWidth.ToUnsigned(v.i, m), Width(s));
    FixedWidth.SignedCasts(v.i, 0, m);
  }

  lemma StrRoundTrip(v: Value, data: Bytes, pos: nat)
    requires Decodable(Str, v) && At(data, pos, Enc(Str, v))
    ensures Dec(Str, data, pos) == Ok((v, pos + |Enc(Str, v)|))
  {
    var prefix := Varint.Encode(|v.bytes|);
    assert Enc(Str, v) == prefix + v.bytes;
    StringFramed(v.bytes, prefix, data, pos);
  }

  lemma {:induction false} ArrayRoundTrip(s: Shape, v: Value, data: Bytes, pos: nat)
    requires s.Array? && Decodable(s, v) && At(data, pos, Enc(s, v))
    ensures Dec(s, data, pos) == Ok((v, pos + |Enc(s, v)|))
    decreases s, 0, |v.items| + 1
  {
    var prefix, body := Varint.Encode(|v.items|), EncItems(s, v.items);
    assert Enc(s, v) == prefix + body;
    AtConcat(data, pos, prefix, body);
    Varint.RoundTrip(|v.items|, data, pos);
    assert ItemsFit(s, v.items) && ItemsInvertible(s, v.items);
    RoundTripItems(s, v.items, data, pos + |prefix|);
    DecArray(s, data, pos, |v.items|, pos + |prefix|, v.items, pos + |prefix| + |body|);
  }

  /** An array decodes as its length prefix followed by that many items. */
  lemma DecArray(s: Shape, data: Bytes, pos: nat, n: nat, p: nat, items: seq<Value>, q: nat)
    requires s.Array? && pos <= |data| && p <= |data|
    requires Varint.Decode(data, pos) == Ok((n, p))
    requires DecItems(s, n, data, p) == Ok((items, q))
    ensures Dec(s, data, pos) == Ok((ListV(items), q))
  {
  }

  lemma {:induction false} PairRoundTrip(s: Shape, v: Value, data: Bytes, pos: nat)
    requires s.Pair? && Decodable(s, v) && At(data, pos, Enc(s, v))
    ensures Dec(s, data, pos) == Ok((v, pos + |Enc(s, v)|))
    decreases s, 0, 0
  {
    var a, b := Enc(s.fst, v.fst), Enc(s.snd, v.snd);
    assert Enc(s, v) == a + b;
    AtConcat(data, pos, a, b);
    RoundTrip(s.fst, v.fst, data, pos);
    RoundTrip(s.snd, v.snd, data, pos + |a|);
    DecPair(s, data, pos, v.fst, v.snd, pos + |a|, pos + |a| + |b|);
  }

  /** A pair decodes as its first component followed by its second. */
  lemma DecPair(s: Shape, data: Bytes, pos: nat, x: Value, y: Value, p1: nat, p2: nat)
    requires s.Pair? && pos <= |data| && p1 <= |data|
    requires Dec(s.fst, data, pos) == Ok((x, p1))
    requires Dec(s.snd, data, p1) == Ok((y, p2))
    ensures Dec(s, data, pos) == Ok((PairV(x, y), p2))
  {
  }

  lemma {:induction false} TripleRoundTrip(s: Shape, v: Value, data: Bytes, pos: nat)
    requires s.Triple? && Decodable(s, v) && At(data, pos, Enc(s, v))
    ensures Dec(s, data, pos) == Ok((v, pos + |Enc(s, v)|))
    decreases s, 0, 0
  {
    var a, b, c := Enc(s.first, v.first), Enc(s.second, v.second), Enc(s.third, v.third);
    var p1 := pos + |a|;
    var p2 := p1 + |b|;
    assert Enc(s, v) == (a + b) + c;
    AtConcat3(data, pos, a, b, c);
    RoundTrip(s.first, v.first, data, pos);
    RoundTrip(s.second, v.second, data, p1);
    RoundTrip(s.third, v.third, data, p2);
    DecTriple(s, data, pos, v.first, v.second, v.third, p1, p2, p2 + |c|);
  }

  /** An occurrence of `a + b + c` is one of `a`, then `b`, then `c`. */
  lemma AtConcat3(data: Bytes, pos: nat, a: Bytes, b: Bytes, c: Bytes)
    requires At(data, pos, (a + b) + c)
    ensures At(data, pos, a) && At(data, pos + |a|, b) && At(data, pos + |a| + |b|, c)
  {
    AtConcat(data, pos, a + b, c);
    AtConcat(data, pos, a, b);
  }

  /** A triple decodes as its three components in sequence. */
  lemma DecTriple(s: Shape, data: Bytes, pos: nat, x: Value, y: Value, z: Value, p1: nat, p2: nat, p3: nat)
    requires s.Triple? && pos <= |data|
    requires Dec(s.first, data, pos) == Ok((x, p1))
    requires Dec(s.second, data, p1) == Ok((y, p2))
    requires Dec(s.third, data, p2) == Ok((z, p3))
    ensures Dec(s, data, pos) == Ok((TripleV(x, y, z), p3))
  {
  }

  lemma {:induction false} OptRoundTrip(s: Shape, v: Value, data: Bytes, pos: nat)
    requires s.Opt? && Decodable(s, v) && At(data, pos, Enc(s, v))
    ensures Dec(s, data, pos) == Ok((v, pos + |Enc(s, v)|))
    decreases s, 0, 0
  {
    if v.SomeV? {
      AtConcat(data, pos, [0xFF], Enc(s.inner, v.some));
      RoundTrip(s.inner, v.some, data, pos + 1);
    }
  }

  lemma {:induction false} VariantRoundTrip(s: Shape, v: Value, data: Bytes, pos: nat)
    requires s.Derived? && |s.variants| != 1 && Decodable(s, v) && At(data, pos, Enc(s, v))
    ensures Dec(s, data, pos) == Ok((v, pos + |Enc(s, v)|))
    decreases s, 0, 1
  {
    var tag, payload := Varint.Encode(v.index), EncPayload(s, v);
    assert Enc(s, v) == tag + payload;
    AtConcat(data, pos, tag, payload);
    Varint.RoundTrip(v.index, data, pos);
    RoundTripPayload(s, v, data, pos + |tag|);
    DecVariant(s, data, pos, v.index, pos + |tag|, v, pos + |tag| + |payload|);
  }

  /** A multi-variant value decodes as its tag followed by that variant's payload. */
  lemma DecVariant(s: Shape, data: Bytes, pos: nat, t: nat, p: nat, x: Value, q: nat)
    requires s.Derived? && |s.variants| != 1 && t < |s.variants| && pos <= |data| && p <= |data|
    requires Varint.Decode(data, pos) == Ok((t, p))
    requires DecPayload(s, t, data, p) == Ok((x, q))
    ensures Dec(s, data, pos) == Ok((x, q))
  {
  }

  lemma FixedRoundTrip(s: Shape, v: Value, data: Bytes, pos: nat)
    requires IsUnsigned(s) && Fits(s, v) && At(data, pos, Enc(s, v))
    ensures Dec(s, data, pos) == Ok((v, pos + |Enc(s, v)|))
  {
    FixedWidth.FromBigEndianOfBigEndian(v.n, Width(s));
  }

  lemma {:induction false} RoundTripItems(s: Shape, items: seq<Value>, data: Bytes, pos: nat)
    requires s.Array? && ItemsFit(s, items) && ItemsInvertible(s, items)
    requires At(data, pos, EncItems(s, items))
    ensures DecItems(s, |items|, data, pos) == Ok((items, pos + |EncItems(s, items)|))
    decreases s, 0, |items|
  {
    if items != [] {
      var head, tail := Enc(s.elem, items[0]), EncItems(s, items[1..]);
      assert EncItems(s, items) == head + tail;
      AtConcat(data, pos, head, tail);
      RoundTrip(s.elem, items[0], data, pos);
      RoundTripItems(s, items[1..], data, pos + |head|);
      DecItemsCons(s, |items|, data, pos, items[0], pos + |head|, items[1..], pos + |head| + |tail|);
      ConsOfTail(items);
    }
  }

  /** A non-empty sequence is its head followed by its tail. */
  lemma ConsOfTail<T>(xs: seq<T>)
    requires xs != []
    ensures [xs[0]] + xs[1..] == xs
  {
  }

  /** `n > 0` items decode as one item followed by `n - 1` more. */
  lemma DecItemsCons(s: Shape, n: nat, data: Bytes, pos: nat, x: Value, p: nat, rest: seq<Value>, q: nat)
    requires s.Array? && 0 < n && pos <= |data| && p <= |data|
    requires Dec(s.elem, data, pos) == Ok((x, p))
    requires DecItems(s, n - 1, data, p) == Ok((rest, q))
    ensures DecItems(s, n, data, pos) == Ok(([x] + rest, q))
  {
  }

  lemma {:induction false} RoundTripFields(s: Shape, vi: nat, fields: seq<Value>, j: nat, data: Bytes, pos: nat)
    requires s.Derived? && vi < |s.variants| && |fields| == |s.variants[vi].fields| && j <= |fields|
    requires FieldsFit(s, vi, fields, j) && FieldsInvertible(s, vi, fields, j)
    requires At(data, pos, EncFields(s, vi, fields, j))
    ensures DecFields(s, vi, j, data, pos) == Ok((fields[j..], pos + |EncFields(s, vi, fields, j)|))
    decreases s, 0, |fields| - j
  {
    if j < |fields| {
      var f := s.variants[vi].fields[j];
      var head := Enc(f, fields[j]);
      var tail := EncFields(s, vi, fields, j + 1);
      assert EncFields(s, vi, fields, j) == head + tail;
      AtConcat(data, pos, head, tail);
      RoundTrip(f, fields[j], data, pos);
      RoundTripFields(s, vi, fields, j + 1, data, pos + |head|);
      DecFieldsCons(s, vi, j, data, pos, fields[j], pos + |head|, fields[j + 1..], pos + |head| + |tail|);
      assert [fields[j]] + fields[j + 1..] == fields[j..];
    } else {
      assert EncFields(s, vi, fields, j) == [];
      assert DecFields(s, vi, j, data, pos) == Ok(([], pos));
      assert fields[j..] == [];
    }
  }

  /** Fields `j..` decode as field `j` followed by fields `j + 1..`. */
  lemma DecFieldsCons(s: Shape, vi: nat, j: nat, data: Bytes, pos: nat, x: Value, p: nat, rest: seq<Value>, q: nat)
    requires s.Derived? && vi < |s.variants| && j < |s.variants[vi].fields| && pos <= |data|
    requires Dec(s.variants[vi].fields[j], data, pos) == Ok((x, p))
    requires DecFields(s, vi, j + 1, data, p) == Ok((rest, q))
    ensures DecFields(s, vi, j, data, pos) == Ok(([x] + rest, q))
  {
  }

  lemma {:induction false} RoundTripPayload(s: Shape, v: Value, data: Bytes, pos: nat)
    requires s.Derived? && Decodable(s, v) && |s.variants| != 1
    requires At(data, pos, EncPayload(s, v))
    ensures DecPayload(s, v.index, data, pos) == Ok((v, pos + |EncPayload(s, v)|))
    decreases s, 0, 0
  {
    if v.fields != [] {
      assert FieldsFit(s, v.index, v.fields, 0) && FieldsInvertible(s, v.index, v.fields, 0);
      RoundTrip(s.variants[v.index].fields[0], v.fields[0], data, pos);
      assert v.fields == [v.fields[0]];
    }
  }

  /** Every digest in `v` has its algorithm's width. */
  predicate HashesSized(s: Shape, v: Value)
    requires Fits(s, v)
    decreases s, 1, 0
  {
    match s
    case Array(e) => ItemsSized(s, v.items)
    case Pair(a, b) => HashesSized(a, v.fst) && HashesSized(b, v.snd)
    case Triple(a, b, c) => HashesSized(a, v.first) && HashesSized(b, v.second) && HashesSized(c, v.third)
    case Opt(t) => v.NoneV? || HashesSized(t, v.some)
    case Derived(vs) => FieldsSized(s, v.index, v.fields, 0)
    case HashOf(a) => |v.bytes| == Hash.Size(a)
    case _ => true
  }

  predicate ItemsSized(s: Shape, items: seq<Value>)
    requires s.Array? && ItemsFit(s, items)
    decreases s, 0, |items|
  {
    items == [] || (HashesSized(s.elem, items[0]) && ItemsSized(s, items[1..]))
  }

  predicate FieldsSized(s: Shape, vi: nat, fields: seq<Value>, j: nat)
    requires s.Derived? && vi < |s.variants| && |fields| == |s.variants[vi].fields| && j <= |fields|
    requires FieldsFit(s, vi, fields, j)
    decreases s, 0, |fields| - j
  {
    j == |fields| || (HashesSized(s.variants[vi].fields[j], fields[j]) && FieldsSized(s, vi, fields, j + 1))
  }

  /** The bytes taken by the length prefixes of all arrays inside `v`. */
  function Prefixes(s: Shape, v: Value): nat
    requires Fits(s, v)
    decreases s, 1, 0
  {
    match s
    case Array(_) => |Varint.Encode(|v.items|)| + PrefixItems(s, v.items)
    case Pair(a, b) => Prefixes(a, v.fst) + Prefixes(b, v.snd)
    case Triple(a, b, c) => Prefixes(a, v.first) + Prefixes(b, v.second) + Prefixes(c, v.third)
    case Opt(t) => if v.NoneV? then 0 else Prefixes(t, v.some)
    case Derived(vs) =>
      if |vs| == 1 then PrefixFields(s, 0, v.fields, 0)
      else if v.fields == [] then 0
      else assert FieldsFit(s, v.index, v.fields, 0); Prefixes(vs[v.index].fields[0], v.fields[0])
    case _ => 0
  }

  function PrefixItems(s: Shape, items: seq<Value>): nat
    requires s.Array? && ItemsFit(s, items)
    decreases s, 0, |items|
  {
    if items == [] then 0 else Prefixes(s.elem, items[0]) + PrefixItems(s, items[1..])
  }

  function PrefixFields(s: Shape, vi: nat, fields: seq<Value>, j: nat): nat
    requires s.Derived? && vi < |s.variants| && |fields| == |s.variants[vi].fields| && j <= |fields|
    requires FieldsFit(s, vi, fields, j)
    decreases s, 0, |fields| - j
  {
    if j == |fields| then 0
    else Prefixes(s.variants[vi].fields[j], fields[j]) + PrefixFields(s, vi, fields, j + 1)
  }

  /**
   * The count `encode_bin` returns falls short of the bytes it writes by
   * exactly the array length prefixes, once digests have their width; an
   * array always reports less than it writes.
   */
  lemma {:induction false} CountIsLengthLessPrefixes(s: Shape, v: Value)
    requires Fits(s, v) && HashesSized(s, v)
    ensures Count(s, v) + Prefixes(s, v) == |Enc(s, v)|
    ensures s.Array? ==> Count(s, v) < |Enc(s, v)|
    decreases s, 1, 0
  {
    match s
    case Array(_) => CountItemsLength(s, v.items);
    case Pair(a, b) =>
      CountIsLengthLessPrefixes(a, v.fst);
      CountIsLengthLessPrefixes(b, v.snd);
    case Triple(a, b, c) =>
      CountIsLengthLessPrefixes(a, v.first);
      CountIsLengthLessPrefixes(b, v.second);
      CountIsLengthLessPrefixes(c, v.third);
    case Opt(t) =>
      if v.SomeV? {
        CountIsLengthLessPrefixes(t, v.some);
      }
    case Derived(vs) =>
      if |vs| == 1 {
        CountFieldsLength(s, 0, v.fields, 0);
      } else if v.fields != [] {
        CountIsLengthLessPrefixes(vs[v.index].fields[0], v.fields[0]);
      }
    case _ =>
  }

  lemma {:induction false} CountItemsLength(s: Shape, items: seq<Value>)
    requires s.Array? && ItemsFit(s, items) && ItemsSized(s, items)
    ensures CountItems(s, items) + PrefixItems(s, items) == |EncItems(s, items)|
    decreases s, 0, |items|
  {
    if items != [] {
      CountIsLengthLessPrefixes(s.elem, items[0]);
      CountItemsLength(s, items[1..]);
    }
  }

  lemma {:induction false} CountFieldsLength(s: Shape, vi: nat, fields: seq<Value>, j: nat)
    requires s.Derived? && vi < |s.variants| && |fields| == |s.variants[vi].fields| && j <= |fields|
    requires FieldsFit(s, vi, fields, j) && FieldsSized(s, vi, fields, j)
    ensures CountFields(s, vi, fields, j) + PrefixFields(s, vi, fields, j) == |EncFields(s, vi, fields, j)|
    decreases s, 0, |fields| - j
  {
    if j < |fields| {
      CountIsLengthLessPrefixes(s.variants[vi].fields[j], fields[j]);
      CountFieldsLength(s, vi, fields, j + 1);
    }
  }

  /** `()` writes nothing, reports nothing and reads nothing. */
  lemma UnitIsEmpty(data: Bytes, pos: nat)
    requires pos <= |data|
    ensures Enc(Unit, UnitV) == [] && Count(Unit, UnitV) == 0
    ensures Dec(Unit, data, pos) == Ok((UnitV, pos))
  {
  }

  /**
   * `i32` and `i64` travel as the `u32` and `u64` of their two's-complement
   * bits.
   */
  lemma SignedEncodesViaUnsigned(i: int)
    requires -(TwoPow64 / 2) <= i < TwoPow64 / 2
    ensures -(TwoPow32 / 2) <= i < TwoPow32 / 2 ==>
      && Enc(I32, IntV(i)) == Enc(U32, NatV(FixedWidth.ToUnsigned(i, TwoPow32)))
      && Count(I32, IntV(i)) == Count(U32, NatV(FixedWidth.ToUnsigned(i, TwoPow32)))
    ensures Enc(I64, IntV(i)) == Enc(U64, NatV(FixedWidth.ToUnsigned(i, TwoPow64)))
    ensures Count(I64, IntV(i)) == Count(U64, NatV(FixedWidth.ToUnsigned(i, TwoPow64)))
  {
  }

  /**
   * `i32` and `i64` decode by reading a `u32` or `u64` and casting it back
   * to signed; they fail exactly when the unsigned read fails.
   */
  lemma SignedDecodesViaUnsigned(data: Bytes, pos: nat)
    requires pos <= |data|
    ensures Dec(I32, data, pos).Ok? <==> Dec(U32, data, pos).Ok?
    ensures Dec(U32, data, pos).Ok? ==>
      Dec(I32, data, pos) == Ok((IntV(FixedWidth.ToSigned(Dec(U32, data, pos).value.0.n, TwoPow32)), pos + 4))
    ensures Dec(I64, data, pos).Ok? <==> Dec(U64, data, pos).Ok?
    ensures Dec(U64, data, pos).Ok? ==>
      Dec(I64, data, pos) == Ok((IntV(FixedWidth.ToSigned(Dec(U64, data, pos).value.0.n, TwoPow64)), pos + 8))
  {
  }

  /** Fixed-width integers report their width as their count. */
  lemma FixedCount(s: Shape, v: Value)
    requires (IsUnsigned(s) || s.I32? || s.I64?) && Fits(s, v)
    ensures Count(s, v) == |Enc(s, v)| == Width(s)
    ensures Width(s) == if s.U8? then 1 else if s.U16? then 2 else if s.U32? || s.I32? then 4 else 8
  {
  }

  /** Strings: a varint byte length, then the bytes, all of it counted. */
  lemma StringLayout(b: Bytes)
    ensures Enc(Str, BytesV(b)) == Varint.Encode(|b|) + b
    ensures Count(Str, BytesV(b)) == |Enc(Str, BytesV(b))|
  {
  }

  /** Well-framed bytes that are not UTF-8 are refused as an invalid string. */
  lemma StringRejectsInvalid(b: Bytes, data: Bytes, pos: nat)
    requires !Utf8.ValidUtf8(b) && At(data, pos, Varint.Encode(|b|) + b)
    ensures Dec(Str, data, pos) == Err(InvalidData("Invalid string"))
  {
    StringFramed(b, Varint.Encode(|b|), data, pos);
  }

  /**
   * Decoding a framed string checks its bytes, and only them: `prefix` is
   * the varint length of `b`, and `b` follows it.
   */
  lemma StringFramed(b: Bytes, prefix: Bytes, data: Bytes, pos: nat)
    requires prefix == Varint.Encode(|b|) && At(data, pos, prefix + b)
    ensures Dec(Str, data, pos) ==
      if Utf8.ValidUtf8(b) then Ok((BytesV(b), pos + |prefix| + |b|))
      else Err(InvalidData("Invalid string"))
  {
    var q := pos + |prefix|;
    AtConcat(data, pos, prefix, b);
    Varint.RoundTrip(|b|, data, pos);
    ReadExactAt(data, q, b);
    DecStr(data, pos, |b|, q, b, q + |b|);
  }

  /** A string decodes as its length prefix, that many bytes, and their UTF-8 check. */
  lemma DecStr(data: Bytes, pos: nat, n: nat, p: nat, b: Bytes, q: nat)
    requires pos <= |data| && p <= |data|
    requires Varint.Decode(data, pos) == Ok((n, p)) && ReadExact(data, p, n) == Ok((b, q))
    ensures Dec(Str, data, pos) ==
      if Utf8.ValidUtf8(b) then Ok((BytesV(b), q)) else Err(InvalidData("Invalid string"))
  {
  }

  /** A string cut short anywhere fails with an unexpected end of input. */
  lemma StringTruncated(b: Bytes, j: nat)
    requires j < |Enc(Str, BytesV(b))|
    ensures Dec(Str, Enc(Str, BytesV(b))[..j], 0) == Err(UnexpectedEof)
  {
    var prefix := Varint.Encode(|b|);
    var data := Enc(Str, BytesV(b))[..j];
    if j < |prefix| {
      assert data == prefix[..j];
      Varint.Truncated(|b|, j);
    } else {
      assert data[..|prefix|] == prefix;
      Varint.RoundTrip(|b|, data, 0);
    }
  }

  /**
   * A byte vector (`Vec<u8>`) writes the same bytes as a string of those
   * bytes, but its count leaves out the length prefix.
   */
  lemma BytesLikeString(b: Bytes)
    ensures Fits(Array(U8), ListV(AsValues(b)))
    ensures Enc(Array(U8), ListV(AsValues(b))) == Enc(Str, BytesV(b))
    ensures Count(Array(U8), ListV(AsValues(b))) + |Varint.Encode(|b|)| == Count(Str, BytesV(b))
  {
    ByteItems(b);
    var xs := ListV(AsValues(b));
    assert Enc(Array(U8), xs) == Varint.Encode(|b|) + EncItems(Array(U8), AsValues(b));
    assert Count(Array(U8), xs) == CountItems(Array(U8), AsValues(b));
  }

  /** The elements of a byte vector. */
  function AsValues(b: Bytes): (r: seq<Value>)
    ensures |r| == |b| && forall k | 0 <= k < |b| :: r[k] == NatV(b[k])
  {
    seq(|b|, k requires 0 <= k < |b| => NatV(b[k]))
  }

  lemma {:induction false} ByteItems(b: Bytes)
    ensures Fits(Array(U8), ListV(AsValues(b)))
    ensures EncItems(Array(U8), AsValues(b)) == b
    ensures CountItems(Array(U8), AsValues(b)) == |b|
    decreases |b|
  {
    if b != [] {
      ByteItems(b[1..]);
      assert AsValues(b)[1..] == AsValues(b[1..]);
      assert FixedWidth.BigEndian(b[0], 1) == [b[0]];
      assert b == [b[0]] + b[1..];
    }
  }

  /**
   * `Option` decoding takes any nonzero tag for `Some`, so only the tag
   * 0xFF survives decoding and re-encoding unchanged.
   */
  lemma OptionAnyNonzeroTag(s: Shape, v: Value, t: byte, data: Bytes, pos: nat)
    requires Decodable(s, v) && t != 0
    requires At(data, pos, [t] + Enc(s, v))
    ensures Dec(Opt(s), data, pos) == Ok((SomeV(v), pos + 1 + |Enc(s, v)|))
    ensures Enc(Opt(s), SomeV(v)) == data[pos..pos + 1 + |Enc(s, v)|] <==> t == 0xFF
  {
    AtConcat(data, pos, [t], Enc(s, v));
    RoundTrip(s, v, data, pos + 1);
    assert Enc(Opt(s), SomeV(v))[0] == 0xFF;
    assert data[pos..pos + 1 + |Enc(s, v)|] == [t] + Enc(s, v);
  }

  /** Pairs: the components back to back, counted in full. */
  lemma PairLayout(a: Shape, b: Shape, x: Value, y: Value)
    requires Fits(a, x) && Fits(b, y)
    ensures Enc(Pair(a, b), PairV(x, y)) == Enc(a, x) + Enc(b, y)
    ensures Count(Pair(a, b), PairV(x, y)) == Count(a, x) + Count(b, y)
  {
  }

  /** A triple writes and counts like a pair whose first component is a pair. */
  lemma TripleLayout(a: Shape, b: Shape, c: Shape, x: Value, y: Value, z: Value)
    requires Fits(a, x) && Fits(b, y) && Fits(c, z)
    ensures Fits(Triple(a, b, c), TripleV(x, y, z)) && Fits(Pair(Pair(a, b), c), PairV(PairV(x, y), z))
    ensures Enc(Triple(a, b, c), TripleV(x, y, z)) == Enc(Pair(Pair(a, b), c), PairV(PairV(x, y), z))
    ensures Count(Triple(a, b, c), TripleV(x, y, z)) == Count(Pair(Pair(a, b), c), PairV(PairV(x, y), z))
  {
    PairLayout(a, b, x, y);
    PairLayout(Pair(a, b), c, PairV(x, y), z);
  }

  /** Each of `xs` fits the shape at the same place in `fs`. */
  predicate AllFit(fs: seq<Shape>, xs: seq<Value>) {
    |fs| == |xs| && forall j | 0 <= j < |fs| :: Fits(fs[j], xs[j])
  }

  /** The encodings of `xs` as values of `fs`, back to back in order. */
  function Concatenated(fs: seq<Shape>, xs: seq<Value>): Bytes
    requires AllFit(fs, xs)
    decreases |fs|
  {
    if fs == [] then [] else Enc(fs[0], xs[0]) + Concatenated(fs[1..], xs[1..])
  }

  /** The counts of `xs` as values of `fs`, added up. */
  function Summed(fs: seq<Shape>, xs: seq<Value>): nat
    requires AllFit(fs, xs)
    decreases |fs|
  {
    if fs == [] then 0 else Count(fs[0], xs[0]) + Summed(fs[1..], xs[1..])
  }

  /**
   * A one-variant derived type (a struct) writes its fields like the
   * tuple of their types: no tag, each field's encoding in declaration
   * order, and the counts added up.
   */
  lemma RecordIsTuple(fs: seq<Shape>, xs: seq<Value>)
    requires AllFit(fs, xs)
    ensures Fits(Derived([Variant(fs)]), VariantV(0, xs))
    ensures Enc(Derived([Variant(fs)]), VariantV(0, xs)) == Concatenated(fs, xs)
    ensures Count(Derived([Variant(fs)]), VariantV(0, xs)) == Summed(fs, xs)
  {
    RecordFieldsFrom(fs, xs, 0);
    assert fs[0..] == fs && xs[0..] == xs;
  }

  /** The fields from `j` onwards of a record. */
  lemma {:induction false} RecordFieldsFrom(fs: seq<Shape>, xs: seq<Value>, j: nat)
    requires AllFit(fs, xs) && j <= |fs|
    ensures AllFit(fs[j..], xs[j..])
    ensures FieldsFit(Derived([Variant(fs)]), 0, xs, j)
    ensures EncFields(Derived([Variant(fs)]), 0, xs, j) == Concatenated(fs[j..], xs[j..])
    ensures CountFields(Derived([Variant(fs)]), 0, xs, j) == Summed(fs[j..], xs[j..])
    decreases |fs| - j
  {
    if j < |fs| {
      RecordFieldsFrom(fs, xs, j + 1);
      assert fs[j..][1..] == fs[j + 1..] && xs[j..][1..] == xs[j + 1..];
    }
  }

  /** In particular a two-field record writes and counts like the pair of its fields. */
  lemma TwoFieldRecordIsPair(a: Shape, b: Shape, x: Value, y: Value)
    requires Fits(a, x) && Fits(b, y)
    ensures Fits(Derived([Variant([a, b])]), VariantV(0, [x, y]))
    ensures Enc(Derived([Variant([a, b])]), VariantV(0, [x, y])) == Enc(Pair(a, b), PairV(x, y))
    ensures Count(Derived([Variant([a, b])]), VariantV(0, [x, y])) == Count(Pair(a, b), PairV(x, y))
  {
    RecordIsTuple([a, b], [x, y]);
    PairLayout(a, b, x, y);
    assert [a, b][1..] == [b] && [x, y][1..] == [y];
    assert Concatenated([b], [y]) == Enc(b, y) + Concatenated([], []);
    assert Summed([b], [y]) == Count(b, y) + Summed([], []);
  }

  /** A tag with no variant behind it fails as an invalid variant. */
  lemma InvalidVariant(vs: seq<Variant>, t: nat, data: Bytes, pos: nat)
    requires |vs| != 1 && |vs| <= t && At(data, pos, Varint.Encode(t))
    ensures Dec(Derived(vs), data, pos) == Err(InvalidData("Invalid variant"))
  {
    Varint.RoundTrip(t, data, pos);
  }

  /**
   * A variant of a multi-variant type writes its tag, then its one
   * field if it has one; the count adds up the two.
   */
  lemma VariantLayout(s: Shape, v: Value)
    requires s.Derived? && |s.variants| != 1 && Fits(s, v)
    ensures |v.fields| <= 1
    ensures v.fields != [] ==> Fits(s.variants[v.index].fields[0], v.fields[0])
    ensures Enc(s, v) == Varint.Encode(v.index) + (if v.fields == [] then [] else Enc(s.variants[v.index].fields[0], v.fields[0]))
    ensures Count(s, v) == |Varint.Encode(v.index)| + (if v.fields == [] then 0 else Count(s.variants[v.index].fields[0], v.fields[0]))
  {
    assert FieldsFit(s, v.index, v.fields, 0);
  }

  /**
   * With payload and payload-less variants mixed, the first variant of the
   * other kind than variant 0 is written with tag 0 by the generated
   * encoder, and whatever decodes from those bytes is variant 0.
   */
  lemma AsWrittenMixedBreaksRoundTrip(s: Shape, v: Value)
    requires s.Derived? && |s.variants| != 1 && Fits(s, v)
    requires !Derive.Uniform(PayloadFlags(s.variants))
    requires v.index == Derive.FirstOther(PayloadFlags(s.variants))
    ensures v.index != 0 && EncVariantAsWritten(s, v)[0] == 0
    ensures var d := Dec(s, EncVariantAsWritten(s, v), 0); d.Ok? ==> d.value.0.VariantV? && d.value.0.index == 0
  {
    var flags := PayloadFlags(s.variants);
    Derive.MixedCollide(flags, v.index);
    var data := EncVariantAsWritten(s, v);
    assert data == [0] + EncPayload(s, v);
    Varint.RoundTrip(0, data, 0);
  }

  /**
   * The example type `enum E { A, B(f64) }`: as written, `B(x)` encodes
   * with tag 0 and decodes as `A`, leaving its payload unread; with the
   * declaration index as tag it round-trips.
   */
  lemma MixedEnumExample(x: nat)
    requires x < Pow(0x100, 8)
    ensures var s := Derived([Variant([]), Variant([F64])]);
      var v := VariantV(1, [NatV(x)]);
      && Decodable(s, v)
      && EncVariantAsWritten(s, v) == [0] + FixedWidth.BigEndian(x, 8)
      && Dec(s, EncVariantAsWritten(s, v), 0) == Ok((VariantV(0, []), 1))
      && Enc(s, v) == [1] + FixedWidth.BigEndian(x, 8)
      && Dec(s, Enc(s, v), 0) == Ok((v, 9))
  {
    var s := Derived([Variant([]), Variant([F64])]);
    var v := VariantV(1, [NatV(x)]);
    var flags := PayloadFlags(s.variants);
    assert flags == [false, true];
    assert Derive.AsWrittenTag(flags, 1) == 0 by {
      assert Derive.CountBefore(flags, 1, true) == Derive.CountBefore(flags, 0, true) + 0;
    }
    var asWritten := EncVariantAsWritten(s, v);
    assert asWritten == [0] + FixedWidth.BigEndian(x, 8);
    Varint.RoundTrip(0, asWritten, 0);
    assert Enc(s, v) == [1] + FixedWidth.BigEndian(x, 8);
    assert At(Enc(s, v), 0, Enc(s, v));
    RoundTrip(s, v, Enc(s, v), 0);
  }
}
