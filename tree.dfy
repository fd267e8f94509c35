/**
 * `Tree<T, H>` (src/tree.rs): a reference to a tree by hash or by id, or a
 * `Concrete` tree carried as opaque pre-encoded bytes.
 */
module Trees {
  import opened Base
  import Varint
  import Derive
  import opened Codec
  import CodecLaws

  /**
   * `enum Tree { Hash(H), Id(isize), Concrete(Concrete<T>) }`, where `h` is
   * the shape of the hash type `H`.
   */
  function TreeShape(h: Shape): (s: Shape)
    ensures s.Derived? && |s.variants| == 3
  {
    Derived([Variant([h]), Variant([Int]), Variant([Concrete])])
  }

  function HashTree(hash: Value): Value { VariantV(0, [hash]) }

  function IdTree(n: nat): Value { VariantV(1, [IntV(n)]) }

  function ConcreteTree(encoded: Bytes): Value { VariantV(2, [BytesV(encoded)]) }

  /**
   * `Tree::empty`, for any hash type `h`: the `Concrete` variant over the
   * bytes `[0, 0]`, written as tag 2 and those two bytes.
   */
  function Empty(h: Shape): (t: Value)
    ensures Fits(TreeShape(h), t)
    ensures Enc(TreeShape(h), t) == [2, 0, 0] && Count(TreeShape(h), t) == 3
  {
    var s, t := TreeShape(h), ConcreteTree([0, 0]);
    assert FieldsFit(s, 2, t.fields, 1);
    assert FieldsFit(s, 2, t.fields, 0);
    assert Varint.Encode(2) == [2];
    assert EncPayload(s, t) == [0, 0] && CountPayload(s, t) == 2;
    t
  }

  /**
   * Every variant of `Tree` carries a payload, so the generated encoder's
   * tags are the declaration indices `Hash` = 0, `Id` = 1, `Concrete` = 2
   * and agree with the decoder.
   */
  lemma Tags(h: Shape, t: Value)
    requires Fits(TreeShape(h), t)
    ensures forall i | 0 <= i < 3 :: Derive.AsWrittenTag(PayloadFlags(TreeShape(h).variants), i) == i
    ensures EncVariantAsWritten(TreeShape(h), t) == Enc(TreeShape(h), t)
  {
    var flags := PayloadFlags(TreeShape(h).variants);
    assert Derive.Uniform(flags);
    Derive.TagsAgreeIffUniform(flags);
  }

  /** `Tree::Id(n)` writes the byte 1, then the varint of `n`. */
  lemma IdEncoding(h: Shape, n: nat)
    requires n < TwoPow64 / 2
    ensures Fits(TreeShape(h), IdTree(n))
    ensures Enc(TreeShape(h), IdTree(n)) == [1] + Varint.Encode(n)
    ensures Count(TreeShape(h), IdTree(n)) == 1 + |Varint.Encode(n)|
  {
    var s := TreeShape(h);
    assert EncPayload(s, IdTree(n)) == Varint.Encode(n);
    assert CountPayload(s, IdTree(n)) == |Varint.Encode(n)|;
  }

  /** `Tree::Hash(x)` writes the byte 0, then the hash. */
  lemma HashEncoding(h: Shape, hash: Value)
    requires Fits(h, hash)
    ensures Fits(TreeShape(h), HashTree(hash))
    ensures Enc(TreeShape(h), HashTree(hash)) == [0] + Enc(h, hash)
    ensures Count(TreeShape(h), HashTree(hash)) == 1 + Count(h, hash)
  {
    var s := TreeShape(h);
    assert EncPayload(s, HashTree(hash)) == Enc(h, hash);
    assert CountPayload(s, HashTree(hash)) == Count(h, hash);
  }

  /** References by hash or by id decode back to themselves. */
  lemma ReferenceRoundTrip(h: Shape, t: Value, data: Bytes, pos: nat)
    requires Fits(TreeShape(h), t) && t.index != 2
    requires t.index == 0 ==> Invertible(h, t.fields[0])
    requires At(data, pos, Enc(TreeShape(h), t))
    ensures Dec(TreeShape(h), data, pos) == Ok((t, pos + |Enc(TreeShape(h), t)|))
  {
    CodecLaws.RoundTrip(TreeShape(h), t, data, pos);
  }

  /** `Concrete` writes its bytes with no length prefix and counts them. */
  lemma ConcreteEncoding(encoded: Bytes)
    ensures Enc(Concrete, BytesV(encoded)) == encoded
    ensures Count(Concrete, BytesV(encoded)) == |encoded|
  {
  }

  /**
   * `Concrete` decoding reads a varint length and then that many bytes: it
   * gives back a blob only when the length prefix that encoding leaves out
   * is there.
   */
  lemma ConcreteDecoding(encoded: Bytes, data: Bytes, pos: nat)
    requires At(data, pos, Varint.Encode(|encoded|) + encoded)
    ensures Dec(Concrete, data, pos) == Ok((BytesV(encoded), pos + |Varint.Encode(|encoded|)| + |encoded|))
  {
    var q := pos + |Varint.Encode(|encoded|)|;
    AtConcat(data, pos, Varint.Encode(|encoded|), encoded);
    Varint.RoundTrip(|encoded|, data, pos);
    assert ReadExact(data, q, |encoded|) == Ok((encoded, q + |encoded|));
  }

  /** A `Concrete` whose length prefix or bytes are cut short fails. */
  lemma ConcreteTruncated(encoded: Bytes, j: nat)
    requires j < |Varint.Encode(|encoded|) + encoded|
    ensures Dec(Concrete, (Varint.Encode(|encoded|) + encoded)[..j], 0) == Err(UnexpectedEof)
  {
    var prefix := Varint.Encode(|encoded|);
    var data := (prefix + encoded)[..j];
    if j < |prefix| {
      assert data == prefix[..j];
      Varint.Truncated(|encoded|, j);
    } else {
      assert data[..|prefix|] == prefix;
      Varint.RoundTrip(|encoded|, data, 0);
    }
  }

  /**
   * Decoding the bytes of `Tree::empty()` reads the first 0 as a length,
   * gives a concrete tree with no bytes, and leaves the last byte unread.
   */
  lemma EmptyIsNotInvertible(h: Shape)
    ensures Dec(TreeShape(h), Enc(TreeShape(h), Empty(h)), 0) == Ok((ConcreteTree([]), 2))
    ensures ConcreteTree([]) != Empty(h)
  {
    Varint.RoundTrip(2, [2, 0, 0], 0);
    ConcreteDecoding([], [2, 0, 0], 1);
  }
}
