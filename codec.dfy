/**
 * The structural binary codec: the `Type` implementations of
 * src/type/mod.rs, the ones `#[derive(Type)]` generates
 * (derive/src/lib.rs), and those of the hashes (src/hash.rs) and of
 * `Concrete` trees (src/tree.rs).
 *
 * A `Shape` stands for a Rust type that implements `Type` and a `Value` for
 * one of its values; dispatching on the shape takes the place of the trait.
 * `Enc` is what `encode_bin` writes, `Count` the count it returns and `Dec`
 * what `decode_bin` reads from a position of its input.
 */
module Codec {
  import opened Base
  import Varint
  import FixedWidth
  import Utf8
  import Hash
  import Derive

  datatype Shape =
    | Unit                       // ()
    | U8 | U16 | U32 | U64       // fixed-width unsigned integers
    | I32 | I64                  // fixed-width signed integers
    | F64                        // a float, carried as its `u64` bit pattern
    | Int                        // `isize` and `usize`: a varint
    | Str                        // `String`
    | Array(elem: Shape)         // `Vec<T>`, so also `Bytes = Vec<u8>`
    | Pair(fst: Shape, snd: Shape)
    | Triple(first: Shape, second: Shape, third: Shape)
    | Opt(inner: Shape)          // `Option<T>`
    | Derived(variants: seq<Variant>)  // a `#[derive(Type)]` struct or enum
    | HashOf(alg: Hash.Algorithm)      // `Blake2b` or `Sha1`
    | Concrete                   // `tree::Concrete<T>`, an opaque encoded tree

  /** One variant of a derived type: the types of its fields, in order. */
  datatype Variant = Variant(fields: seq<Shape>)

  datatype Value =
    | UnitV
    | NatV(n: nat)               // an unsigned integer, or a float's bits
    | IntV(i: int)               // a signed integer, `isize` or `usize`
    | BytesV(bytes: Bytes)       // a string's UTF-8, a digest, a concrete tree
    | ListV(items: seq<Value>)
    | PairV(fst: Value, snd: Value)
    | TripleV(first: Value, second: Value, third: Value)
    | NoneV
    | SomeV(some: Value)
    | VariantV(index: nat, fields: seq<Value>)

  /** The number of bytes of a fixed-width integer shape. */
  function Width(s: Shape): nat {
    match s
    case U8 => 1
    case U16 => 2
    case U32 => 4
    case I32 => 4
    case U64 => 8
    case I64 => 8
    case F64 => 8
    case _ => 0
  }

  predicate IsUnsigned(s: Shape) {
    s.U8? || s.U16? || s.U32? || s.U64? || s.F64?
  }

  /** Whether each variant of a derived type carries a payload. */
  function PayloadFlags(vs: seq<Variant>): (r: seq<bool>)
    ensures |r| == |vs| && forall k | 0 <= k < |vs| :: r[k] == (vs[k].fields != [])
  {
    seq(|vs|, k requires 0 <= k < |vs| => vs[k].fields != [])
  }

  /**
   * `v` is a value of the Rust type `s`. An `isize` must also be
   * non-negative: `encode_int` never terminates on a negative argument.
   * A derived type with several variants has at most one field per
   * variant, or the macro's `assert!(idx == 0)` rejects it.
   */
  predicate Fits(s: Shape, v: Value)
    decreases s, 1, 0
  {
    match s
    case Unit => v.UnitV?
    case U8 => v.NatV? && v.n < Pow(0x100, 1)
    case U16 => v.NatV? && v.n < Pow(0x100, 2)
    case U32 => v.NatV? && v.n < Pow(0x100, 4)
    case U64 => v.NatV? && v.n < Pow(0x100, 8)
    case F64 => v.NatV? && v.n < Pow(0x100, 8)
    case I32 => v.IntV? && -(TwoPow32 / 2) <= v.i < TwoPow32 / 2
    case I64 => v.IntV? && -(TwoPow64 / 2) <= v.i < TwoPow64 / 2
    case Int => v.IntV? && 0 <= v.i < TwoPow64 / 2
    case Str => v.BytesV?
    case Array(e) => v.ListV? && ItemsFit(s, v.items)
    case Pair(a, b) => v.PairV? && Fits(a, v.fst) && Fits(b, v.snd)
    case Triple(a, b, c) => v.TripleV? && Fits(a, v.first) && Fits(b, v.second) && Fits(c, v.third)
    case Opt(t) => v.NoneV? || (v.SomeV? && Fits(t, v.some))
    case Derived(vs) =>
      && (|vs| != 1 ==> forall k | 0 <= k < |vs| :: |vs[k].fields| <= 1)
      && v.VariantV? && v.index < |vs| && |v.fields| == |vs[v.index].fields|
      && FieldsFit(s, v.index, v.fields, 0)
    case HashOf(_) => v.BytesV?
    case Concrete => v.BytesV?
  }

  /** Every one of `items` fits the element shape of the array shape `s`. */
  predicate ItemsFit(s: Shape, items: seq<Value>)
    requires s.Array?
    decreases s, 0, |items|
  {
    items == [] || (Fits(s.elem, items[0]) && ItemsFit(s, items[1..]))
  }

  /** Fields `j..` of variant `vi` of the derived shape `s` fit their shapes. */
  predicate FieldsFit(s: Shape, vi: nat, fields: seq<Value>, j: nat)
    requires s.Derived? && vi < |s.variants| && |fields| == |s.variants[vi].fields| && j <= |fields|
    decreases s, 0, |fields| - j
  {
    j == |fields| || (Fits(s.variants[vi].fields[j], fields[j]) && FieldsFit(s, vi, fields, j + 1))
  }

  /**
   * The values that decoding gives back: strings are well-formed UTF-8,
   * digests have their algorithm's width, and no concrete tree occurs
   * (its encoder and decoder disagree on a length prefix).
   */
  predicate Invertible(s: Shape, v: Value)
    requires Fits(s, v)
    decreases s, 1, 0
  {
    match s
    case Str => Utf8.ValidUtf8(v.bytes)
    case Array(e) => ItemsInvertible(s, v.items)
    case Pair(a, b) => Invertible(a, v.fst) && Invertible(b, v.snd)
    case Triple(a, b, c) => Invertible(a, v.first) && Invertible(b, v.second) && Invertible(c, v.third)
    case Opt(t) => v.NoneV? || Invertible(t, v.some)
    case Derived(vs) => FieldsInvertible(s, v.index, v.fields, 0)
    case HashOf(a) => |v.bytes| == Hash.Size(a)
    case Concrete => false
    case _ => true
  }

  predicate ItemsInvertible(s: Shape, items: seq<Value>)
    requires s.Array? && ItemsFit(s, items)
    decreases s, 0, |items|
  {
    items == [] || (Invertible(s.elem, items[0]) && ItemsInvertible(s, items[1..]))
  }

  predicate FieldsInvertible(s: Shape, vi: nat, fields: seq<Value>, j: nat)
    requires s.Derived? && vi < |s.variants| && |fields| == |s.variants[vi].fields| && j <= |fields|
    requires FieldsFit(s, vi, fields, j)
    decreases s, 0, |fields| - j
  {
    j == |fields| || (Invertible(s.variants[vi].fields[j], fields[j]) && FieldsInvertible(s, vi, fields, j + 1))
  }

  /** A value that decoding gives back intact: it fits its shape and is invertible. */
  predicate Decodable(s: Shape, v: Value) {
    Fits(s, v) && Invertible(s, v)
  }

  /** The bytes `encode_bin` writes for `v`. */
  function Enc(s: Shape, v: Value): Bytes
    requires Fits(s, v)
    decreases s, 1, 0
  {
    match s
    case Unit => []
    case U8 => FixedWidth.BigEndian(v.n, 1)
    case U16 => FixedWidth.BigEndian(v.n, 2)
    case U32 => FixedWidth.BigEndian(v.n, 4)
    case U64 => FixedWidth.BigEndian(v.n, 8)
    case F64 => FixedWidth.BigEndian(v.n, 8)
    case I32 => FixedWidth.BigEndian(FixedWidth.ToUnsigned(v.i, TwoPow32), 4)
    case I64 => FixedWidth.BigEndian(FixedWidth.ToUnsigned(v.i, TwoPow64), 8)
    case Int => Varint.Encode(v.i)
    case Str => Varint.Encode(|v.bytes|) + v.bytes
    case Array(_) => Varint.Encode(|v.items|) + EncItems(s, v.items)
    case Pair(a, b) => Enc(a, v.fst) + Enc(b, v.snd)
    case Triple(a, b, c) => Enc(a, v.first) + Enc(b, v.second) + Enc(c, v.third)
    case Opt(t) => if v.NoneV? then [0x00] else [0xFF] + Enc(t, v.some)
    case Derived(vs) =>
      if |vs| == 1 then EncFields(s, 0, v.fields, 0)
      else Varint.Encode(v.index) + EncPayload(s, v)
    case HashOf(a) => Hash.Encode(a, v.bytes).0
    case Concrete => v.bytes
  }

  /** The elements of an array, back to back. */
  function EncItems(s: Shape, items: seq<Value>): Bytes
    requires s.Array? && ItemsFit(s, items)
    decreases s, 0, |items|
  {
    if items == [] then [] else Enc(s.elem, items[0]) + EncItems(s, items[1..])
  }

  /** Fields `j..` of variant `vi` of a derived type, in declaration order. */
  function EncFields(s: Shape, vi: nat, fields: seq<Value>, j: nat): Bytes
    requires s.Derived? && vi < |s.variants| && |fields| == |s.variants[vi].fields| && j <= |fields|
    requires FieldsFit(s, vi, fields, j)
    decreases s, 0, |fields| - j
  {
    if j == |fields| then []
    else Enc(s.variants[vi].fields[j], fields[j]) + EncFields(s, vi, fields, j + 1)
  }

  /** The payload of a variant of a multi-variant type: its first field, if any. */
  function EncPayload(s: Shape, v: Value): Bytes
    requires s.Derived? && Fits(s, v)
    decreases s, 0, 0
  {
    if v.fields == [] then []
    else assert FieldsFit(s, v.index, v.fields, 0); Enc(s.variants[v.index].fields[0], v.fields[0])
  }

  /**
   * The generated encoder of a multi-variant type as written: the tag is
   * counted separately among payload and payload-less variants.
   */
  function EncVariantAsWritten(s: Shape, v: Value): (r: Bytes)
    requires s.Derived? && |s.variants| != 1 && Fits(s, v)
    ensures Derive.Uniform(PayloadFlags(s.variants)) ==> r == Enc(s, v)
  {
    Derive.TagsAgreeIffUniform(PayloadFlags(s.variants));
    Varint.Encode(Derive.AsWrittenTag(PayloadFlags(s.variants), v.index)) + EncPayload(s, v)
  }

  /**
   * The count `encode_bin` returns. It is the number of bytes written,
   * except that an array does not count its length prefix and a hash
   * reports its algorithm's width whatever its length.
   */
  function Count(s: Shape, v: Value): (r: nat)
    requires Fits(s, v)
    decreases s, 1, 0
  {
    match s
    case Int => |Varint.Encode(v.i)|
    case Str => |Varint.Encode(|v.bytes|)| + |v.bytes|
    case Array(_) => CountItems(s, v.items)
    case Pair(a, b) => Count(a, v.fst) + Count(b, v.snd)
    case Triple(a, b, c) => Count(a, v.first) + Count(b, v.second) + Count(c, v.third)
    case Opt(t) => if v.NoneV? then 1 else 1 + Count(t, v.some)
    case Derived(vs) =>
      if |vs| == 1 then CountFields(s, 0, v.fields, 0)
      else |Varint.Encode(v.index)| + CountPayload(s, v)
    case HashOf(a) => Hash.Encode(a, v.bytes).1
    case Concrete => |v.bytes|
    case _ => Width(s)
  }

  function CountItems(s: Shape, items: seq<Value>): nat
    requires s.Array? && ItemsFit(s, items)
    decreases s, 0, |items|
  {
    if items == [] then 0 else Count(s.elem, items[0]) + CountItems(s, items[1..])
  }

  function CountFields(s: Shape, vi: nat, fields: seq<Value>, j: nat): nat
    requires s.Derived? && vi < |s.variants| && |fields| == |s.variants[vi].fields| && j <= |fields|
    requires FieldsFit(s, vi, fields, j)
    decreases s, 0, |fields| - j
  {
    if j == |fields| then 0
    else Count(s.variants[vi].fields[j], fields[j]) + CountFields(s, vi, fields, j + 1)
  }

  function CountPayload(s: Shape, v: Value): nat
    requires s.Derived? && Fits(s, v)
    decreases s, 0, 0
  {
    if v.fields == [] then 0
    else assert FieldsFit(s, v.index, v.fields, 0); Count(s.variants[v.index].fields[0], v.fields[0])
  }

  /**
   * What `decode_bin` reads from `data` at `pos`: the value and the position
   * after it, or the error it raises.
   */
  function Dec(s: Shape, data: Bytes, pos: nat): (r: Result<(Value, nat)>)
    requires pos <= |data|
    ensures r.Ok? ==> pos <= r.value.1 <= |data|
    decreases s, 1, 0
  {
    match s
    case Unit => Ok((UnitV, pos))
    case I32 =>
      var b :- ReadExact(data, pos, 4);
      Ok((IntV(FixedWidth.ToSigned(FixedWidth.FromBigEndian(b.0), TwoPow32)), b.1))
    case I64 =>
      var b :- ReadExact(data, pos, 8);
      Ok((IntV(FixedWidth.ToSigned(FixedWidth.FromBigEndian(b.0), TwoPow64)), b.1))
    case Int =>
      var n :- Varint.Decode(data, pos);
      Ok((IntV(n.0), n.1))
    case Str =>
      var n :- Varint.Decode(data, pos);
      var b :- ReadExact(data, n.1, n.0);
      if Utf8.ValidUtf8(b.0) then Ok((BytesV(b.0), b.1)) else Err(InvalidData("Invalid string"))
    case Array(_) =>
      var n :- Varint.Decode(data, pos);
      var items :- DecItems(s, n.0, data, n.1);
      Ok((ListV(items.0), items.1))
    case Pair(a, b) =>
      var x :- Dec(a, data, pos);
      var y :- Dec(b, data, x.1);
      Ok((PairV(x.0, y.0), y.1))
    case Triple(a, b, c) =>
      var x :- Dec(a, data, pos);
      var y :- Dec(b, data, x.1);
      var z :- Dec(c, data, y.1);
      Ok((TripleV(x.0, y.0, z.0), z.1))
    case Opt(t) =>
      var tag :- ReadExact(data, pos, 1);
      if tag.0[0] == 0 then Ok((NoneV, tag.1))
      else
        var x :- Dec(t, data, tag.1);
        Ok((SomeV(x.0), x.1))
    case Derived(vs) =>
      if |vs| == 1 then
        var fields :- DecFields(s, 0, 0, data, pos);
        Ok((VariantV(0, fields.0), fields.1))
      else
        var t :- Varint.Decode(data, pos);
        (match Derive.DecodedVariant(|vs|, t.0)
         case Some(i) => DecPayload(s, i, data, t.1)
         case None => Err(InvalidData("Invalid variant")))
    case HashOf(a) =>
      var h :- Hash.Decode(a, data, pos);
      Ok((BytesV(h.0), h.1))
    case Concrete =>
      var n :- Varint.Decode(data, pos);
      var b :- ReadExact(data, n.1, n.0);
      Ok((BytesV(b.0), b.1))
    case _ =>
      var b :- ReadExact(data, pos, Width(s));
      Ok((NatV(FixedWidth.FromBigEndian(b.0)), b.1))
  }

  /** `n` elements of an array, in order. */
  function DecItems(s: Shape, n: nat, data: Bytes, pos: nat): (r: Result<(seq<Value>, nat)>)
    requires s.Array? && pos <= |data|
    ensures r.Ok? ==> |r.value.0| == n && pos <= r.value.1 <= |data|
    decreases s, 0, n
  {
    if n == 0 then Ok(([], pos))
    else
      var x :- Dec(s.elem, data, pos);
      var rest :- DecItems(s, n - 1, data, x.1);
      Ok(([x.0] + rest.0, rest.1))
  }

  /** Fields `j..` of variant `vi`, in declaration order. */
  function DecFields(s: Shape, vi: nat, j: nat, data: Bytes, pos: nat): (r: Result<(seq<Value>, nat)>)
    requires s.Derived? && vi < |s.variants| && j <= |s.variants[vi].fields| && pos <= |data|
    ensures r.Ok? ==> |r.value.0| == |s.variants[vi].fields| - j && pos <= r.value.1 <= |data|
    decreases s, 0, |s.variants[vi].fields| - j
  {
    if j == |s.variants[vi].fields| then Ok(([], pos))
    else
      var x :- Dec(s.variants[vi].fields[j], data, pos);
      var rest :- DecFields(s, vi, j + 1, data, x.1);
      Ok(([x.0] + rest.0, rest.1))
  }

  /** Variant `t` of a multi-variant type after its tag: its one field, if any. */
  function DecPayload(s: Shape, t: nat, data: Bytes, pos: nat): (r: Result<(Value, nat)>)
    requires s.Derived? && t < |s.variants| && pos <= |data|
    ensures r.Ok? ==> pos <= r.value.1 <= |data|
    decreases s, 0, 0
  {
    if s.variants[t].fields == [] then Ok((VariantV(t, []), pos))
    else
      var x :- Dec(s.variants[t].fields[0], data, pos);
      Ok((VariantV(t, [x.0]), x.1))
  }
}
