/**
 * `encode_bin` and `decode_bin` as they run: each writes to a `Writer` or
 * advances a `Reader`, and each is proved to do what `Codec.Enc`,
 * `Codec.Count` and `Codec.Dec` say.
 */
module Binary {
  import opened Base
  import opened Streams
  import Varint
  import FixedWidth
  import Utf8
  import Hash
  import opened Codec

  /** `to_be_bytes` and `write_all` of a `width`-byte unsigned integer. */
  method EncodeFixed(n: nat, width: nat, dest: Writer) returns (count: nat)
    requires n < Pow(0x100, width)
    modifies dest
    ensures dest.bytes == old(dest.bytes) + FixedWidth.BigEndian(n, width)
    ensures count == width
  {
    dest.WriteAll(FixedWidth.BigEndian(n, width));
    count := width;
  }

  /** `read_exact` and `from_be_bytes` of a `width`-byte unsigned integer. */
  method DecodeFixed(width: nat, src: Reader) returns (r: Result<nat>)
    requires src.Valid()
    modifies src
    ensures src.Valid()
    ensures Outcome(r, ReadNat(src.data, old(src.pos), width), src.pos)
    ensures r.Ok? ==> r.value < Pow(0x100, width)
    ensures r.Err? ==> src.pos == |src.data|
  {
    var b :- src.ReadExact(width);
    r := Ok(FixedWidth.FromBigEndian(b));
  }

  /** The unsigned integer in the `width` bytes at `pos`, and the position after them. */
  function ReadNat(data: Bytes, pos: nat, width: nat): (r: Result<(nat, nat)>)
    ensures r.Ok? <==> pos + width <= |data|
    ensures r.Err? ==> r.error == UnexpectedEof
    ensures r.Ok? ==> r.value == (FixedWidth.FromBigEndian(data[pos..pos + width]), pos + width)
  {
    var b :- ReadExact(data, pos, width);
    Ok((FixedWidth.FromBigEndian(b.0), b.1))
  }

  /**
   * `encode_int`: seven bits at a time, least significant first, with the
   * high bit set on every byte but the last.
   */
  method EncodeInt(n0: nat, dest: Writer) returns (count: nat)
    modifies dest
    ensures dest.bytes == old(dest.bytes) + Varint.Encode(n0)
    ensures count == |Varint.Encode(n0)|
  {
    var n := n0;
    count := 0;
    while true
      invariant dest.bytes + Varint.Encode(n) == old(dest.bytes) + Varint.Encode(n0)
      invariant count + |Varint.Encode(n)| == |Varint.Encode(n0)|
      decreases n
    {
      if n < 0x80 {
        var c := EncodeFixed(n, 1, dest);
        count := count + c;
        break;
      } else {
        var c := EncodeFixed(0x80 + n % 0x80, 1, dest);
        count := count + c;
        n := n / 0x80;
      }
    }
  }

  /** The one byte read at `pos` is `data[pos]`. */
  lemma ByteRead(data: Bytes, pos: nat, b: nat)
    requires ReadNat(data, pos, 1) == Ok((b, pos + 1))
    ensures pos < |data| && data[pos] == b && b % 0x80 == (if b < 0x80 then b else b - 0x80)
  {
    assert data[pos..pos + 1] == [data[pos]];
    assert FixedWidth.FromBigEndian([data[pos]]) == data[pos];
  }

  /** One step of `decode_int`: a final byte, or a group below the rest. */
  lemma DecodeStep(data: Bytes, pos: nat)
    requires pos < |data|
    ensures Varint.Decode(data, pos) ==
      if data[pos] < 0x80 then Ok((data[pos] as nat, pos + 1))
      else Shifted(Varint.Decode(data, pos + 1), data[pos] - 0x80, 0x80)
  {
  }

  /** `res` with `n + weight * m` in place of each value `m` it decodes. */
  function Shifted(res: Result<(nat, nat)>, n: nat, weight: nat): Result<(nat, nat)> {
    match res
    case Ok((m, q)) => Ok((n + weight * m, q))
    case Err(e) => Err(e)
  }

  lemma ShiftedTwice(res: Result<(nat, nat)>, n: nat, weight: nat, d: nat)
    ensures Shifted(Shifted(res, d, 0x80), n, weight) == Shifted(res, n + weight * d, weight * 0x80)
  {
    match res
    case Err(_) =>
    case Ok((m, q)) =>
      calc {
        n + weight * (d + 0x80 * m);
        n + weight * d + weight * (0x80 * m);
        { assert weight * (0x80 * m) == (weight * 0x80) * m; }
        n + weight * d + (weight * 0x80) * m;
      }
  }

  /**
   * `decode_int`: adds up 7-bit groups until a byte below 0x80, and fails
   * with `UnexpectedEof` if the input ends first.
   */
  method DecodeInt(src: Reader) returns (r: Result<nat>)
    requires src.Valid()
    modifies src
    ensures src.Valid()
    ensures Outcome(r, Varint.Decode(src.data, old(src.pos)), src.pos)
    ensures r.Err? ==> src.pos == |src.data|
  {
    ghost var pos0 := src.pos;
    var n := 0;
    var weight := 1;
    while true
      invariant src.Valid() && pos0 <= src.pos
      invariant Varint.Decode(src.data, pos0) == Shifted(Varint.Decode(src.data, src.pos), n, weight)
      decreases |src.data| - src.pos
    {
      ghost var before := src.pos;
      var i := DecodeFixed(1, src);
      if i.Err? {
        assert Varint.Decode(src.data, before) == Err(UnexpectedEof);
        return Err(i.error);
      }
      var b := i.value;
      ByteRead(src.data, before, b);
      DecodeStep(src.data, before);
      ghost var n0 := n;
      n := n + weight * (b % 0x80);
      if b < 0x80 {
        return Ok(n);
      }
      ShiftedTwice(Varint.Decode(src.data, src.pos), n0, weight, b - 0x80);
      weight := weight * 0x80;
    }
  }

  /** `encode_bin` of a value of any shape; returns the count it reports. */
  method EncodeBin(s: Shape, v: Value, dest: Writer) returns (count: nat)
    requires Fits(s, v)
    modifies dest
    ensures dest.bytes == old(dest.bytes) + Enc(s, v)
    ensures count == Count(s, v)
    decreases s, 1
  {
    match s
    case Unit => count := 0;
    case U8 => count := EncodeFixed(v.n, 1, dest);
    case U16 => count := EncodeFixed(v.n, 2, dest);
    case U32 => count := EncodeFixed(v.n, 4, dest);
    case U64 => count := EncodeFixed(v.n, 8, dest);
    case F64 => count := EncodeFixed(v.n, 8, dest);
    case I32 => count := EncodeFixed(FixedWidth.ToUnsigned(v.i, TwoPow32), 4, dest);
    case I64 => count := EncodeFixed(FixedWidth.ToUnsigned(v.i, TwoPow64), 8, dest);
    case Int => count := EncodeInt(v.i, dest);
    case Str => count := EncodeString(v, dest);
    case Array(_) => count := EncodeArray(s, v, dest);
    case Pair(a, b) => count := EncodePair(s, v, dest);
    case Triple(a, b, c) => count := EncodeTriple(s, v, dest);
    case Opt(t) => count := EncodeOption(s, v, dest);
    case Derived(vs) =>
      if |vs| == 1 {
        count := EncodeRecord(s, v, dest);
      } else {
        count := EncodeVariant(s, v, dest);
      }
    case HashOf(a) =>
      dest.WriteAll(v.bytes);
      count := Hash.Size(a);
    case Concrete =>
      dest.WriteAll(v.bytes);
      count := |v.bytes|;
  }

  /** `String`: the byte length as an `isize`, then the bytes. */
  method EncodeString(v: Value, dest: Writer) returns (count: nat)
    requires Fits(Str, v)
    modifies dest
    ensures dest.bytes == old(dest.bytes) + Enc(Str, v)
    ensures count == Count(Str, v)
  {
    var prefix := Varint.Encode(|v.bytes|);
    assert Enc(Str, v) == prefix + v.bytes;
    assert Count(Str, v) == |prefix| + |v.bytes|;
    var n := EncodeInt(|v.bytes|, dest);
    dest.WriteAll(v.bytes);
    assert dest.bytes == old(dest.bytes) + (prefix + v.bytes);
    count := n + |v.bytes|;
  }

  /** `(A, B)`: the components in order. */
  method EncodePair(s: Shape, v: Value, dest: Writer) returns (count: nat)
    requires s.Pair? && Fits(s, v)
    modifies dest
    ensures dest.bytes == old(dest.bytes) + Enc(s, v)
    ensures count == Count(s, v)
    decreases s, 0
  {
    ghost var a, b := Enc(s.fst, v.fst), Enc(s.snd, v.snd);
    assert Enc(s, v) == a + b;
    assert Count(s, v) == Count(s.fst, v.fst) + Count(s.snd, v.snd);
    var n := EncodeBin(s.fst, v.fst, dest);
    var m := EncodeBin(s.snd, v.snd, dest);
    assert dest.bytes == old(dest.bytes) + (a + b);
    count := n + m;
  }

  /** `(A, B, C)`: the components in order. */
  method EncodeTriple(s: Shape, v: Value, dest: Writer) returns (count: nat)
    requires s.Triple? && Fits(s, v)
    modifies dest
    ensures dest.bytes == old(dest.bytes) + Enc(s, v)
    ensures count == Count(s, v)
    decreases s, 0
  {
    ghost var a, b, c := Enc(s.first, v.first), Enc(s.second, v.second), Enc(s.third, v.third);
    assert Enc(s, v) == a + b + c;
    assert Count(s, v) == Count(s.first, v.first) + Count(s.second, v.second) + Count(s.third, v.third);
    var n := EncodeBin(s.first, v.first, dest);
    var m := EncodeBin(s.second, v.second, dest);
    var k := EncodeBin(s.third, v.third, dest);
    assert dest.bytes == old(dest.bytes) + (a + b + c);
    count := n + m + k;
  }

  /** `Option<T>`: a 0x00 byte for `None`, a 0xFF byte and the value for `Some`. */
  method EncodeOption(s: Shape, v: Value, dest: Writer) returns (count: nat)
    requires s.Opt? && Fits(s, v)
    modifies dest
    ensures dest.bytes == old(dest.bytes) + Enc(s, v)
    ensures count == Count(s, v)
    decreases s, 0
  {
    assert Pow(0x100, 1) == 0x100;
    if v.NoneV? {
      assert FixedWidth.BigEndian(0x00, 1) == [0x00] == Enc(s, v);
      count := EncodeFixed(0x00, 1, dest);
    } else {
      ghost var a := Enc(s.inner, v.some);
      assert FixedWidth.BigEndian(0xFF, 1) == [0xFF];
      assert Enc(s, v) == [0xFF] + a;
      assert Count(s, v) == 1 + Count(s.inner, v.some);
      var n := EncodeFixed(0xFF, 1, dest);
      var m := EncodeBin(s.inner, v.some, dest);
      assert dest.bytes == old(dest.bytes) + ([0xFF] + a);
      count := n + m;
    }
  }

  /** `Vec<T>`: the element count, then each element in order. */
  method EncodeArray(s: Shape, v: Value, dest: Writer) returns (count: nat)
    requires s.Array? && Fits(s, v)
    modifies dest
    ensures dest.bytes == old(dest.bytes) + Enc(s, v)
    ensures count == Count(s, v)
    decreases s, 0, 1
  {
    assert ItemsFit(s, v.items);
    assert Enc(s, v) == Varint.Encode(|v.items|) + EncItems(s, v.items);
    var _ := EncodeInt(|v.items|, dest);
    count := EncodeItems(s, v.items, dest);
  }

  /** The elements of an array, each by `encode_bin`, in order. */
  method EncodeItems(s: Shape, items: seq<Value>, dest: Writer) returns (count: nat)
    requires s.Array? && ItemsFit(s, items)
    modifies dest
    ensures dest.bytes == old(dest.bytes) + EncItems(s, items)
    ensures count == CountItems(s, items)
    decreases s, 0, 0
  {
    ghost var total := old(dest.bytes) + EncItems(s, items);
    assert items[0..] == items;
    count := 0;
    var k := 0;
    while k < |items|
      invariant k <= |items| && ItemsFit(s, items[k..])
      invariant dest.bytes + EncItems(s, items[k..]) == total
      invariant count + CountItems(s, items[k..]) == CountItems(s, items)
    {
      var head, rest := Enc(s.elem, items[k]), EncItems(s, items[k + 1..]);
      assert items[k..][0] == items[k] && items[k..][1..] == items[k + 1..];
      assert EncItems(s, items[k..]) == head + rest;
      assert CountItems(s, items[k..]) == Count(s.elem, items[k]) + CountItems(s, items[k + 1..]);
      ghost var before := dest.bytes;
      var n := EncodeBin(s.elem, items[k], dest);
      assert dest.bytes + rest == before + (head + rest);
      count := count + n;
      k := k + 1;
    }
    assert items[k..] == [];
  }

  /** A struct or one-variant enum: its fields in declaration order, no tag. */
  method EncodeRecord(s: Shape, v: Value, dest: Writer) returns (count: nat)
    requires s.Derived? && |s.variants| == 1 && Fits(s, v)
    modifies dest
    ensures dest.bytes == old(dest.bytes) + Enc(s, v)
    ensures count == Count(s, v)
    decreases s, 0
  {
    var shapes, fields := s.variants[0].fields, v.fields;
    assert FieldsFit(s, 0, fields, 0);
    ghost var total := old(dest.bytes) + EncFields(s, 0, fields, 0);
    assert Enc(s, v) == EncFields(s, 0, fields, 0);
    assert Count(s, v) == CountFields(s, 0, fields, 0);
    count := 0;
    var j := 0;
    while j < |fields|
      invariant j <= |fields| && FieldsFit(s, 0, fields, j)
      invariant dest.bytes + EncFields(s, 0, fields, j) == total
      invariant count + CountFields(s, 0, fields, j) == CountFields(s, 0, fields, 0)
    {
      var head, rest := Enc(shapes[j], fields[j]), EncFields(s, 0, fields, j + 1);
      assert EncFields(s, 0, fields, j) == head + rest;
      assert CountFields(s, 0, fields, j) == Count(shapes[j], fields[j]) + CountFields(s, 0, fields, j + 1);
      ghost var before := dest.bytes;
      var n := EncodeBin(shapes[j], fields[j], dest);
      assert dest.bytes + rest == before + (head + rest);
      count := count + n;
      j := j + 1;
    }
  }

  /**
   * A variant of a multi-variant enum: its tag as an `isize`, then its
   * first field if it has one. The tag is the variant's declaration index,
   * the numbering the decoder expects.
   */
  method EncodeVariant(s: Shape, v: Value, dest: Writer) returns (count: nat)
    requires s.Derived? && |s.variants| != 1 && Fits(s, v)
    modifies dest
    ensures dest.bytes == old(dest.bytes) + Enc(s, v)
    ensures count == Count(s, v)
    decreases s, 0
  {
    ghost var tag, payload := Varint.Encode(v.index), EncPayload(s, v);
    assert Enc(s, v) == tag + payload;
    assert Count(s, v) == |tag| + CountPayload(s, v);
    count := EncodeInt(v.index, dest);
    if v.fields != [] {
      var f := s.variants[v.index].fields[0];
      assert FieldsFit(s, v.index, v.fields, 0);
      assert Fits(f, v.fields[0]);
      assert payload == Enc(f, v.fields[0]);
      assert CountPayload(s, v) == Count(f, v.fields[0]);
      var n := EncodeBin(f, v.fields[0], dest);
      assert dest.bytes == old(dest.bytes) + (tag + payload);
      count := count + n;
    }
  }

  /** `decode_bin` of a value of any shape. */
  method DecodeBin(s: Shape, src: Reader) returns (r: Result<Value>)
    requires src.Valid()
    modifies src
    ensures src.Valid()
    ensures Outcome(r, Dec(s, src.data, old(src.pos)), src.pos)
    decreases s, 1
  {
    match s
    case Unit => r := Ok(UnitV);
    case I32 =>
      var n :- DecodeFixed(4, src);
      r := Ok(IntV(FixedWidth.ToSigned(n, TwoPow32)));
    case I64 =>
      var n :- DecodeFixed(8, src);
      r := Ok(IntV(FixedWidth.ToSigned(n, TwoPow64)));
    case Int =>
      var n :- DecodeInt(src);
      r := Ok(IntV(n));
    case Str => r := DecodeString(src);
    case Array(_) => r := DecodeArray(s, src);
    case Pair(a, b) =>
      var x :- DecodeBin(a, src);
      var y :- DecodeBin(b, src);
      r := Ok(PairV(x, y));
    case Triple(a, b, c) =>
      var x :- DecodeBin(a, src);
      var y :- DecodeBin(b, src);
      var z :- DecodeBin(c, src);
      r := Ok(TripleV(x, y, z));
    case Opt(t) => r := DecodeOption(s, src);
    case Derived(vs) =>
      if |vs| == 1 {
        r := DecodeRecord(s, src);
      } else {
        r := DecodeVariant(s, src);
      }
    case HashOf(a) =>
      var h :- src.ReadExact(Hash.Size(a));
      r := Ok(BytesV(h));
    case Concrete =>
      var n :- DecodeInt(src);
      var b :- src.ReadExact(n);
      r := Ok(BytesV(b));
    case _ =>
      var n :- DecodeFixed(Width(s), src);
      r := Ok(NatV(n));
  }

  /** `String`: a varint length, that many bytes, and a UTF-8 check. */
  method DecodeString(src: Reader) returns (r: Result<Value>)
    requires src.Valid()
    modifies src
    ensures src.Valid()
    ensures Outcome(r, Dec(Str, src.data, old(src.pos)), src.pos)
  {
    var i :- DecodeInt(src);
    var x :- src.ReadExact(i);
    if Utf8.ValidUtf8(x) {
      r := Ok(BytesV(x));
    } else {
      r := Err(InvalidData("Invalid string"));
    }
  }

  /** `Option<T>`: a tag byte, `None` for 0 and `Some` for any other. */
  method DecodeOption(s: Shape, src: Reader) returns (r: Result<Value>)
    requires s.Opt? && src.Valid()
    modifies src
    ensures src.Valid()
    ensures Outcome(r, Dec(s, src.data, old(src.pos)), src.pos)
    decreases s, 0
  {
    ghost var pos0 := src.pos;
    var i :- DecodeFixed(1, src);
    assert src.data[pos0..pos0 + 1] == [i];
    if i == 0 {
      r := Ok(NoneV);
    } else {
      var x :- DecodeBin(s.inner, src);
      r := Ok(SomeV(x));
    }
  }

  /** `res` with `items` put in front of the sequence it decodes. */
  function Prepend(items: seq<Value>, res: Result<(seq<Value>, nat)>): Result<(seq<Value>, nat)> {
    match res
    case Ok((xs, q)) => Ok((items + xs, q))
    case Err(e) => Err(e)
  }

  lemma PrependNothing(res: Result<(seq<Value>, nat)>)
    ensures Prepend([], res) == res
  {
    if res.Ok? {
      assert [] + res.value.0 == res.value.0;
    }
  }

  lemma PrependTwice(a: seq<Value>, b: seq<Value>, res: Result<(seq<Value>, nat)>)
    ensures Prepend(a, Prepend(b, res)) == Prepend(a + b, res)
  {
    if res.Ok? {
      assert a + (b + res.value.0) == (a + b) + res.value.0;
    }
  }

  /** `Vec<T>`: the element count, then that many elements pushed in order. */
  method DecodeArray(s: Shape, src: Reader) returns (r: Result<Value>)
    requires s.Array? && src.Valid()
    modifies src
    ensures src.Valid()
    ensures Outcome(r, Dec(s, src.data, old(src.pos)), src.pos)
    decreases s, 0
  {
    var i :- DecodeInt(src);
    ghost var start := src.pos;
    var dest: seq<Value> := [];
    PrependNothing(DecItems(s, i, src.data, start));
    var k := 0;
    while k < i
      invariant src.Valid() && k <= i && |dest| == k
      invariant DecItems(s, i, src.data, start) == Prepend(dest, DecItems(s, i - k, src.data, src.pos))
    {
      ghost var before := src.pos;
      var x := DecodeBin(s.elem, src);
      if x.Err? {
        return Err(x.error);
      }
      assert DecItems(s, i - k, src.data, before) == Prepend([x.value], DecItems(s, i - k - 1, src.data, src.pos));
      PrependTwice(dest, [x.value], DecItems(s, i - k - 1, src.data, src.pos));
      dest := dest + [x.value];
      k := k + 1;
    }
    assert dest + [] == dest;
    r := Ok(ListV(dest));
  }

  /** A struct or one-variant enum: each field decoded in declaration order. */
  method DecodeRecord(s: Shape, src: Reader) returns (r: Result<Value>)
    requires s.Derived? && |s.variants| == 1 && src.Valid()
    modifies src
    ensures src.Valid()
    ensures Outcome(r, Dec(s, src.data, old(src.pos)), src.pos)
    decreases s, 0
  {
    ghost var start := src.pos;
    var fields: seq<Value> := [];
    PrependNothing(DecFields(s, 0, 0, src.data, start));
    var j := 0;
    while j < |s.variants[0].fields|
      invariant src.Valid() && j <= |s.variants[0].fields| && |fields| == j
      invariant DecFields(s, 0, 0, src.data, start) == Prepend(fields, DecFields(s, 0, j, src.data, src.pos))
    {
      ghost var before := src.pos;
      var x := DecodeBin(s.variants[0].fields[j], src);
      if x.Err? {
        return Err(x.error);
      }
      assert DecFields(s, 0, j, src.data, before) == Prepend([x.value], DecFields(s, 0, j + 1, src.data, src.pos));
      PrependTwice(fields, [x.value], DecFields(s, 0, j + 1, src.data, src.pos));
      fields := fields + [x.value];
      j := j + 1;
    }
    assert fields + [] == fields;
    r := Ok(VariantV(0, fields));
  }

  /**
   * A multi-variant enum: an `isize` tag compared against a counter that
   * runs over all variants in declaration order; the matching variant reads
   * its one field, if any, and a tag past the last variant is refused.
   */
  method DecodeVariant(s: Shape, src: Reader) returns (r: Result<Value>)
    requires s.Derived? && |s.variants| != 1 && src.Valid()
    modifies src
    ensures src.Valid()
    ensures Outcome(r, Dec(s, src.data, old(src.pos)), src.pos)
    decreases s, 0
  {
    var index :- DecodeInt(src);
    var find := 0;
    while find < |s.variants|
      invariant find <= |s.variants| && find <= index
    {
      if find == index {
        if s.variants[find].fields == [] {
          return Ok(VariantV(find, []));
        }
        var x :- DecodeBin(s.variants[find].fields[0], src);
        return Ok(VariantV(find, [x]));
      }
      find := find + 1;
    }
    r := Err(InvalidData("Invalid variant"));
  }
}
