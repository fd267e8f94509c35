/**
 * `Key` (src/key.rs): a path in the store, a list of string segments that
 * the constructors and `push` keep free of empty segments.
 */
module Keys {
  import opened Base
  import Codec
  import CodecLaws
  import Varint
  import Utf8
  import Streams
  import Binary

  /** `b'/'`, the separator of `to_string` and `from_string`. */
  const Slash: byte := 0x2F

  /** The parts that are not empty, in their original order. */
  function NonEmpty(parts: seq<Bytes>): seq<Bytes> {
    if parts == [] then []
    else (if parts[0] == [] then [] else [parts[0]]) + NonEmpty(parts[1..])
  }

  /** `join("/")`: the segments with one slash between neighbours. */
  function Join(segs: seq<Bytes>): (r: Bytes)
    ensures segs == [] ==> r == []
    ensures segs != [] ==> |r| + 1 == TotalLength(segs) + |segs|
  {
    if segs == [] then []
    else if |segs| == 1 then segs[0]
    else segs[0] + [Slash] + Join(segs[1..])
  }

  /**
   * `split("/")`: the pieces between slashes; there is always at least one,
   * and none holds a slash.
   */
  function Split(s: Bytes): (r: seq<Bytes>)
    ensures |r| >= 1
    ensures forall i | 0 <= i < |r| :: NoSlash(r[i])
  {
    if s == [] then [[]]
    else
      var rest := Split(s[1..]);
      if s[0] == Slash then [[]] + rest
      else [[s[0]] + rest[0]] + rest[1..]
  }

  /** The bytes of all the segments together. */
  function TotalLength(segs: seq<Bytes>): nat {
    if segs == [] then 0 else |segs[0]| + TotalLength(segs[1..])
  }

  predicate NoSlash(s: Bytes) {
    forall i | 0 <= i < |s| :: s[i] != Slash
  }

  /** What `push` leaves: `p` appended, unless it is empty. */
  function Pushed(segs: seq<Bytes>, p: Bytes): seq<Bytes> {
    if p == [] then segs else segs + [p]
  }

  /** What `pop` returns and leaves: the last segment, removed, if any. */
  function Popped(segs: seq<Bytes>): (Option<Bytes>, seq<Bytes>) {
    if segs == [] then (None, segs) else (Some(segs[|segs| - 1]), segs[..|segs| - 1])
  }

  /** The binary form of a key: that of `Vec<String>`. */
  const KeyShape: Codec.Shape := Codec.Array(Codec.Str)

  function AsValue(segs: seq<Bytes>): (v: Codec.Value)
    ensures Codec.Fits(KeyShape, v)
    ensures v.ListV? && |v.items| == |segs| && forall i | 0 <= i < |segs| :: v.items[i] == Codec.BytesV(segs[i])
  {
    var items := seq(|segs|, i requires 0 <= i < |segs| => Codec.BytesV(segs[i]));
    StringsFit(items);
    Codec.ListV(items)
  }

  /** A list of strings is a value of `Vec<String>`. */
  lemma {:induction false} StringsFit(items: seq<Codec.Value>)
    requires forall i | 0 <= i < |items| :: items[i].BytesV?
    ensures Codec.ItemsFit(KeyShape, items)
    decreases |items|
  {
    if items != [] {
      StringsFit(items[1..]);
    }
  }

  /** ... and one that decodes back intact when every string is UTF-8. */
  lemma {:induction false} StringsInvertible(items: seq<Codec.Value>)
    requires forall i | 0 <= i < |items| :: items[i].BytesV? && Utf8.ValidUtf8(items[i].bytes)
    ensures Codec.ItemsFit(KeyShape, items) && Codec.ItemsInvertible(KeyShape, items)
    decreases |items|
  {
    StringsFit(items);
    if items != [] {
      StringsInvertible(items[1..]);
    }
  }

  class Key {
    var segments: seq<Bytes>

    /** Every segment of a key built by `new`, `from_string` and `push` is non-empty. */
    predicate Valid()
      reads this
    {
      forall i | 0 <= i < |segments| :: segments[i] != []
    }

    /** `Key::new`: the non-empty parts. */
    constructor New(parts: seq<Bytes>)
      ensures segments == NonEmpty(parts) && Valid()
    {
      NonEmptyDropsEmpty(parts);
      segments := NonEmpty(parts);
    }

    /** `Key::empty`. */
    constructor Empty()
      ensures segments == [] && Valid() && Len() == 0
    {
      segments := [];
    }

    /** `Key::from_string`: split on slashes, empty pieces dropped. */
    constructor FromString(s: Bytes)
      ensures segments == NonEmpty(Split(s)) && Valid()
    {
      NonEmptyDropsEmpty(Split(s));
      segments := NonEmpty(Split(s));
    }

    /** `push`: appends `p` unless it is empty. */
    method Push(p: Bytes)
      modifies this
      ensures segments == Pushed(old(segments), p)
      ensures old(Valid()) ==> Valid()
    {
      if p != [] {
        segments := segments + [p];
      }
    }

    /** `pop`: removes and returns the last segment, or `None` on an empty key. */
    method Pop() returns (r: Option<Bytes>)
      modifies this
      ensures (r, segments) == Popped(old(segments))
      ensures old(Valid()) ==> Valid()
    {
      if segments == [] {
        r := None;
      } else {
        r := Some(segments[|segments| - 1]);
        segments := segments[..|segments| - 1];
      }
    }

    /** `encode_bin`: exactly the encoding of the `Vec<String>` of segments. */
    method EncodeBin(dest: Streams.Writer) returns (count: nat)
      modifies dest
      ensures dest.bytes == old(dest.bytes) + Codec.Enc(KeyShape, AsValue(segments))
      ensures count == Codec.Count(KeyShape, AsValue(segments))
    {
      count := Binary.EncodeBin(KeyShape, AsValue(segments), dest);
    }

    /** `decode_bin`: a `Vec<String>`, taken as the segments without filtering. */
    static method DecodeBin(src: Streams.Reader) returns (r: Result<Key>)
      requires src.Valid()
      modifies src
      ensures src.Valid()
      ensures r.Ok? ==> fresh(r.value)
      ensures Streams.Outcome(if r.Ok? then Ok(AsValue(r.value.segments)) else Err(r.error),
                              Codec.Dec(KeyShape, src.data, old(src.pos)), src.pos)
    {
      ghost var pos0 := src.pos;
      var x := Binary.DecodeBin(KeyShape, src);
      if x.Err? {
        return Err(x.error);
      }
      DecodedKeyIsList(src.data, pos0);
      var segs := Segments(x.value);
      var k := new Key.FromSegments(segs);
      r := Ok(k);
    }

    constructor FromSegments(segs: seq<Bytes>)
      ensures segments == segs
    {
      segments := segs;
    }

    function Len(): (n: nat)
      reads this
      ensures n == |segments|
    {
      |segments|
    }

    function IsEmpty(): (b: bool)
      reads this
      ensures b <==> Len() == 0
      ensures b <==> segments == []
    {
      |segments| == 0
    }

    /** `to_string`: the segments joined by slashes. */
    function ToString(): (s: Bytes)
      reads this
      ensures Valid() && (forall i | 0 <= i < |segments| :: NoSlash(segments[i])) ==>
        NonEmpty(Split(s)) == segments
    {
      FromStringOfToString(segments);
      Join(segments)
    }
  }

  /** No empty part survives, and a list without empty parts is kept whole. */
  lemma {:induction false} NonEmptyDropsEmpty(parts: seq<Bytes>)
    ensures forall i | 0 <= i < |NonEmpty(parts)| :: NonEmpty(parts)[i] != []
    ensures |NonEmpty(parts)| <= |parts|
    ensures (forall i | 0 <= i < |parts| :: parts[i] != []) ==> NonEmpty(parts) == parts
  {
    if parts != [] {
      NonEmptyDropsEmpty(parts[1..]);
      assert parts == [parts[0]] + parts[1..];
    }
  }

  /** Joining the pieces of a split gives the string back. */
  lemma {:induction false} JoinSplit(s: Bytes)
    ensures Join(Split(s)) == s
  {
    if s != [] {
      var rest := Split(s[1..]);
      JoinSplit(s[1..]);
      if s[0] == Slash {
        assert ([[]] + rest)[1..] == rest;
        assert s == [Slash] + s[1..];
      } else if |rest| == 1 {
        assert s == [s[0]] + s[1..];
      } else {
        assert rest == [rest[0]] + rest[1..];
        assert ([[s[0]] + rest[0]] + rest[1..])[1..] == rest[1..];
        assert s == [s[0]] + (rest[0] + [Slash] + Join(rest[1..]));
      }
    }
  }

  lemma {:induction false} SplitPlain(a: Bytes)
    requires NoSlash(a)
    ensures Split(a) == [a]
  {
    if a != [] {
      SplitPlain(a[1..]);
      assert a == [a[0]] + a[1..];
    }
  }

  lemma {:induction false} SplitAfterSegment(a: Bytes, b: Bytes)
    requires NoSlash(a)
    ensures Split(a + [Slash] + b) == [a] + Split(b)
  {
    if a == [] {
      assert a + [Slash] + b == [Slash] + b;
      assert ([Slash] + b)[1..] == b;
    } else {
      SplitAfterSegment(a[1..], b);
      assert (a + [Slash] + b)[1..] == a[1..] + [Slash] + b;
      assert a == [a[0]] + a[1..];
    }
  }

  /** Splitting a join of slash-free segments gives the segments back. */
  lemma {:induction false} SplitJoin(segs: seq<Bytes>)
    requires |segs| >= 1 && forall i | 0 <= i < |segs| :: NoSlash(segs[i])
    ensures Split(Join(segs)) == segs
  {
    if |segs| == 1 {
      SplitPlain(segs[0]);
    } else {
      SplitJoin(segs[1..]);
      SplitAfterSegment(segs[0], Join(segs[1..]));
      assert segs == [segs[0]] + segs[1..];
    }
  }

  /**
   * `from_string(to_string(k))` is `k` when no segment is empty or holds a
   * slash.
   */
  lemma FromStringOfToString(segs: seq<Bytes>)
    ensures (forall i | 0 <= i < |segs| :: segs[i] != [] && NoSlash(segs[i])) ==>
      NonEmpty(Split(Join(segs))) == segs
  {
    if forall i | 0 <= i < |segs| :: segs[i] != [] && NoSlash(segs[i]) {
      if segs == [] {
        assert Split([]) == [[]];
      } else {
        SplitJoin(segs);
        NonEmptyDropsEmpty(segs);
      }
    }
  }

  /** After `push(p)` with `p` non-empty, `pop` returns `p` and restores the key. */
  lemma PushPop(segs: seq<Bytes>, p: Bytes)
    requires p != []
    ensures Popped(Pushed(segs, p)) == (Some(p), segs)
  {
    assert (segs + [p])[..|segs|] == segs;
  }

  /** `push("")` changes nothing, and `pop` on an empty key returns `None`. */
  lemma PushEmptyPopEmpty(segs: seq<Bytes>)
    ensures Pushed(segs, []) == segs
    ensures Popped([]) == (None, [])
    ensures Popped(segs).0.None? <==> segs == []
  {
  }

  /** A list of strings, as the segments of a key. */
  predicate IsStringList(v: Codec.Value) {
    v.ListV? && forall i | 0 <= i < |v.items| :: v.items[i].BytesV?
  }

  function Segments(v: Codec.Value): (segs: seq<Bytes>)
    requires IsStringList(v)
    ensures AsValue(segs) == v
  {
    var segs := seq(|v.items|, i requires 0 <= i < |v.items| => v.items[i].bytes);
    assert AsValue(segs).items == v.items;
    segs
  }

  /** Whatever decodes as a key is a list of strings. */
  lemma DecodedKeyIsList(data: Bytes, pos: nat)
    requires pos <= |data| && Codec.Dec(KeyShape, data, pos).Ok?
    ensures IsStringList(Codec.Dec(KeyShape, data, pos).value.0)
  {
    var n := Varint.Decode(data, pos).value;
    DecodedStrings(n.0, data, n.1);
  }

  lemma {:induction false} DecodedStrings(n: nat, data: Bytes, pos: nat)
    requires pos <= |data| && Codec.DecItems(KeyShape, n, data, pos).Ok?
    ensures forall i | 0 <= i < n :: Codec.DecItems(KeyShape, n, data, pos).value.0[i].BytesV?
    decreases n
  {
    if n > 0 {
      var x := Codec.Dec(Codec.Str, data, pos).value;
      DecodedStrings(n - 1, data, x.1);
    }
  }

  /** A key whose segments are UTF-8 text decodes to itself. */
  lemma KeyRoundTrip(segs: seq<Bytes>, data: Bytes, pos: nat)
    requires forall i | 0 <= i < |segs| :: Utf8.ValidUtf8(segs[i])
    requires At(data, pos, Codec.Enc(KeyShape, AsValue(segs)))
    ensures Codec.Dec(KeyShape, data, pos) == Ok((AsValue(segs), pos + |Codec.Enc(KeyShape, AsValue(segs))|))
  {
    StringsInvertible(AsValue(segs).items);
    CodecLaws.RoundTrip(KeyShape, AsValue(segs), data, pos);
  }

  /**
   * Decoding does not filter: the bytes of a one-segment list holding the
   * empty string give a key with an empty segment.
   */
  lemma DecodeKeepsEmptySegments()
    ensures Codec.Dec(KeyShape, [1, 0], 0) == Ok((AsValue([[]]), 2))
    ensures AsValue([[]]).items[0] == Codec.BytesV([])
  {
    assert Utf8.ValidUtf8([]);
    KeyRoundTrip([[]], [1, 0], 0);
  }
}
