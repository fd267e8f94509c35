# irmin-rs codec and client protocol, in Dafny

This project models the two parts of the Rust bindings to the Irmin store
that have their own behaviour rather than forwarding calls into the OCaml
runtime:

- the **structural binary codec** (`Type::encode_bin` / `Type::decode_bin`):
  the LEB128-style varint, big-endian fixed-width integers, strings, arrays,
  pairs, triples, `Option`, unit, the encoders and decoders that
  `#[derive(Type)]` generates for structs and enums, fixed-width hashes,
  keys and `Tree` values;
- the **byte-level client protocol**: the handshake line, frames of an
  8-byte big-endian length and a payload, requests (command name, newline,
  frame), responses (status byte, then frame), and the argument and result
  shapes of each command.

## Layout

| file | module | what it holds |
|---|---|---|
| `base.dfy` | `Base` | bytes, `Option`, `std::io::Result` with its error kinds, `read_exact` on a byte slice |
| `utf8.dfy` | `Utf8` | well-formed UTF-8, the check `String::from_utf8` applies |
| `streams.dfy` | `Streams` | `Writer` (an output byte sequence that grows) and `Reader` (an input byte sequence read by a cursor) |
| `varint.dfy` | `Varint` | `encode_int` / `decode_int` as functions, with their laws |
| `fixed.dfy` | `FixedWidth` | big-endian integers and two's-complement casts |
| `hash.dfy` | `Hash` | the `hash_type!` codec, `size` and `name` |
| `derive.dfy` | `Derive` | the variant tags of the derive macro |
| `codec.dfy` | `Codec` | `Shape` (a Rust type implementing `Type`), `Value`, and the specification functions `Enc`, `Count`, `Dec` |
| `codec_laws.dfy` | `CodecLaws` | round trip, counts, layouts and rejections |
| `binary.dfy` | `Binary` | `encode_bin` / `decode_bin` as methods over a `Writer` / `Reader`, loops included, proved equal to `Enc` / `Count` / `Dec` |
| `key.dfy` | `Keys` | `Key` as a class over its segment list |
| `tree.dfy` | `Trees` | the `Tree` enum and `Concrete` |
| `protocol.dfy` | `Protocol` | frames, requests, responses and the handshake as functions over an input and a position |
| `client.dfy` | `Clients` | the client as a class over a `Writer` and a `Reader`, one method per operation |

The generic trait is replaced by dispatch on a `Shape`: `Codec.Shape` names
the Rust type and `Codec.Value` is one of its values; `Codec.Fits(s, v)`
says that `v` is a value of `s`. Strings, digests and concrete trees are
carried as their bytes.

Points where the code behaves otherwise than one might expect. The model
follows the code in each of them, except for negative `isize` values and the
variant tags:

- the varint decoder accepts non-minimal encodings (`[0x80, 0x00]` is 0), so
  an integer does not have exactly one accepted encoding (`Varint.AcceptsPadding`);
- a hash value is not checked against its algorithm's width when it is built:
  its field is public, and `encode_bin` reports `size()` whatever the length;
- the `Option` decoder takes any nonzero tag byte for `Some`;
- the handshake token is the lowercase hex of the Blake2b digest of the
  content type's name followed by a newline, not a fixed `V1` line;
- `encode_int` never stops on a negative `isize`: `>>` on `i64` is an
  arithmetic shift, so -1 shifts to -1 and 0xFF is written forever. Only
  `Varint.EncodeAsWritten` follows the code here; `Codec.Fits` admits only
  non-negative values (see Findings);
- an array's `encode_bin` count leaves out its length prefix;
- `Concrete` writes no length prefix but reads one;
- variant tags of a derived enum with both payload and payload-less
  variants are not the declaration index. Only `Codec.EncVariantAsWritten`
  follows the code here; `Codec.Enc` and `Binary.EncodeVariant` write the
  declaration index, the tag the decoder expects (see Findings).

## Model

| member | source | states |
|---|---|---|
| `Varint.Encode` | src/type/mod.rs:16-30 | the encoding of any non-negative integer is at least one byte |
| `Varint.EncodeGroups` | src/type/mod.rs:16-30 | every byte but the last has the continuation bit, the last is below 128, and the 7-bit groups, least significant first, spell n |
| `Varint.Sizes` | src/type/mod.rs:16-30 | 1 byte exactly for 0..127, 2 exactly for 128..16383, 3 exactly for 16384..2097151 |
| `Varint.Length` | src/type/mod.rs:16-30 | the encoding fits in k bytes exactly when n < 128^k |
| `Varint.Decode` | src/type/mod.rs:39-50 | a successful decode consumes at least one byte and stays in the input; every failure is an unexpected end of input |
| `Varint.DecodeGroups` | src/type/mod.rs:39-50 | decoding stops at the first byte below 128 and returns the value of the groups read; it fails exactly when no such byte follows |
| `Varint.RoundTrip` | src/type/mod.rs:16-50 | decoding the encoding of n, wherever it sits in the input, gives n and consumes exactly its bytes |
| `Varint.Truncated` | src/type/mod.rs:39-50 | every strict prefix of an encoding fails with an unexpected end of input |
| `Varint.AcceptsPadding` | src/type/mod.rs:39-50 | a non-minimal encoding with a redundant zero group still decodes to n |
| `Varint.Canonical` | src/type/mod.rs:16-50 | whatever decodes without a redundant zero group is exactly the encoder's output for the value decoded |
| `Varint.EncodeAsWritten` | src/type/mod.rs:16-30 | `encode_int` as written, on any `i64`, for a bounded number of turns: it never writes more than one byte per turn |
| `Varint.AsWrittenStops` | src/type/mod.rs:16-30 | on a non-negative n, given enough turns, the loop as written stops having written exactly the varint of n |
| `Varint.NegativeNeverStops` | src/type/mod.rs:16-30 | on a negative n the loop as written never stops: after any number of turns it is still running, one byte written per turn |
| `Varint.MinusOneWritesForever` | src/type/mod.rs:16-30 | on -1 the loop as written writes 0xFF on every turn and never stops |
| `Varint.LogicalEncoding` | src/type/mod.rs:16-35 | with a logical shift, every `i64` encodes in at most 10 bytes, non-negative values as the code writes them, and the bytes decode to the unsigned bits, which cast back to n |
| `Binary.EncodeInt` | src/type/mod.rs:16-30 | the loop appends exactly the varint of n and returns the number of bytes written |
| `Binary.DecodeInt` | src/type/mod.rs:39-50 | the loop returns what the varint specification decodes and leaves the cursor after it, or fails at the end of the input |
| `FixedWidth.FromBigEndianOfBigEndian` | src/type/mod.rs:126-166 | big-endian bytes of a width read back as the integer written |
| `FixedWidth.BigEndianOfFromBigEndian` | src/type/mod.rs:126-166 | every byte string of a width is the big-endian form of the integer read from it |
| `FixedWidth.ToUnsigned` | src/type/mod.rs:81-101 | `as u32`/`as u64` gives the unsigned integer below 2^32/2^64 congruent to the signed one |
| `FixedWidth.ToSigned` | src/type/mod.rs:81-101 | `as i32`/`as i64` gives the signed integer in range congruent to the unsigned one |
| `FixedWidth.SignedCasts` | src/type/mod.rs:81-101 | the two casts are inverse bijections |
| `Binary.EncodeFixed` | src/type/mod.rs:113-166 | writes the width's big-endian bytes and returns the width |
| `Binary.DecodeFixed` | src/type/mod.rs:113-166 | reads width bytes as a big-endian integer below 256^width, or fails at the end of the input |
| `Binary.ReadNat` | src/type/mod.rs:113-166 | a fixed-width read succeeds exactly when width bytes remain, and gives their big-endian value |
| `CodecLaws.FixedCount` | src/type/mod.rs:81-166 | `u8`, `u16`, `u32`/`i32` and `u64`/`i64` write 1, 2, 4 and 8 bytes and report exactly that many |
| `CodecLaws.SignedEncodesViaUnsigned` | src/type/mod.rs:81-101 | i32 and i64 write and count exactly what u32 and u64 do for their two's-complement bits |
| `CodecLaws.SignedDecodesViaUnsigned` | src/type/mod.rs:81-101 | i32 and i64 decode by reading u32/u64 and casting; they fail exactly when that read fails |
| `CodecLaws.UnitIsEmpty` | src/type/mod.rs:103-111 | `()` writes nothing, reports 0 and reads nothing |
| `CodecLaws.StringLayout` | src/type/mod.rs:179-185 | a string is the varint of its byte length followed by its bytes, all of them counted |
| `CodecLaws.StringFramed` | src/type/mod.rs:187-198 | bytes preceded by their varint length decode to those bytes when they are UTF-8, and fail with "Invalid string" otherwise |
| `CodecLaws.DecStr` | src/type/mod.rs:187-198 | a string decodes as its varint length, exactly that many bytes, and the UTF-8 check on them |
| `CodecLaws.StringRejectsInvalid` | src/type/mod.rs:187-198 | bytes that are not UTF-8 are refused with `InvalidData` "Invalid string" |
| `CodecLaws.StringTruncated` | src/type/mod.rs:187-190 | a string encoding cut short anywhere fails with an unexpected end of input |
| `Binary.EncodeString` | src/type/mod.rs:179-185 | appends the string's encoding and returns prefix length plus byte length |
| `Binary.DecodeString` | src/type/mod.rs:187-198 | does what the string specification decodes, including the UTF-8 rejection |
| `CodecLaws.BytesLikeString` | src/type/mod.rs:201-210 | a `Vec<u8>` writes the same bytes as the string of those bytes, but reports its count without the length prefix |
| `CodecLaws.CountIsLengthLessPrefixes` | src/type/mod.rs:201-210 | the count `encode_bin` returns is the bytes written less every array length prefix inside the value; an array reports less than it writes |
| `Binary.EncodeArray` | src/type/mod.rs:201-210 | appends the count's varint and the elements in order, and returns only the elements' counts |
| `Binary.EncodeItems` | src/type/mod.rs:205-209 | the loop appends each element's encoding in order and sums their counts |
| `Binary.DecodeArray` | src/type/mod.rs:212-221 | reads a count and then exactly that many elements in order, as the specification decodes |
| `CodecLaws.PairLayout` | src/type/mod.rs:224-236 | a pair is its components' encodings back to back, counted in full |
| `CodecLaws.TripleLayout` | src/type/mod.rs:238-252 | a triple writes and counts like the nested pair of its components |
| `Binary.EncodePair` | src/type/mod.rs:224-229 | appends both components in order and adds their counts |
| `Binary.EncodeTriple` | src/type/mod.rs:238-244 | appends the three components in order and adds their counts |
| `CodecLaws.OptionAnyNonzeroTag` | src/type/mod.rs:254-272 | any nonzero tag byte decodes as `Some`, and only the tag 0xFF is what the encoder writes |
| `Binary.EncodeOption` | src/type/mod.rs:254-264 | `None` appends 0x00; `Some(x)` appends 0xFF and the encoding of x |
| `Binary.DecodeOption` | src/type/mod.rs:266-272 | a tag byte: 0 gives `None`, any other reads the value |
| `Codec.Dec` | src/type/mod.rs:61-272 | a successful decode stops within the input, at or after where it started |
| `CodecLaws.RoundTrip` | src/type/mod.rs:61-272 | for every shape, decoding the encoding of a decodable value gives it back and consumes exactly its bytes |
| `CodecLaws.DecodesOwnEncoding` | src/type/mod.rs:283-346 | a value's own encoding decodes to it, as the tests on pairs, a struct and an enum assert |
| `CodecLaws.DecodesPrefix` | src/type/mod.rs:283-346 | bytes after an encoding do not change what it decodes to |
| `Binary.EncodeBin` | src/type/mod.rs:61-272 | appends exactly the specified encoding and returns the specified count, for every shape |
| `Binary.DecodeBin` | src/type/mod.rs:61-272 | returns exactly what the specification decodes and leaves the cursor after it, for every shape |
| `CodecLaws.RecordIsTuple` | derive/src/lib.rs:9-36 | for any list of fields, a one-variant type writes no tag and the fields' encodings back to back in declaration order, and reports the sum of their counts |
| `CodecLaws.RecordFieldsFrom` | derive/src/lib.rs:13-30 | the fields from any position on write and count like the same fields laid out on their own |
| `CodecLaws.TwoFieldRecordIsPair` | derive/src/lib.rs:9-36 | a two-field struct writes and counts exactly like the pair of its field types |
| `Binary.EncodeRecord` | derive/src/lib.rs:9-30 | the generated struct encoder appends each field in order and sums the counts |
| `Binary.DecodeRecord` | derive/src/lib.rs:13-36 | the generated struct decoder reads each field in declaration order |
| `CodecLaws.VariantLayout` | derive/src/lib.rs:41-60 | a multi-variant value writes its tag, then its first field if any; at most one field; the count adds the two |
| `Binary.EncodeVariant` | derive/src/lib.rs:41-92 | appends the tag as an `isize` varint, then the payload, and returns the summed count |
| `Binary.DecodeVariant` | derive/src/lib.rs:94-101 | reads an `isize` tag, matches it against one counter over all variants, and refuses a tag past the last |
| `CodecLaws.InvalidVariant` | derive/src/lib.rs:94-101 | a tag with no variant behind it fails with `InvalidData` "Invalid variant" |
| `Derive.DecodedVariant` | derive/src/lib.rs:62-101 | the chain of `find == index` checks that `Codec.Dec` goes through selects a variant exactly when the tag is below the variant count, and then the variant whose declaration index is the tag |
| `Derive.FindFrom` | derive/src/lib.rs:62-80 | the checks from variant `find` on select only the variant numbered t, and do select it when find <= t < count |
| `Derive.TagsAgreeIffUniform` | derive/src/lib.rs:41-80 | the generated encoder writes every variant with its declaration index exactly when all variants carry a payload or none does |
| `Derive.MixedCollide` | derive/src/lib.rs:41-80 | with mixed variants, variant 0 and the first variant of the other kind both get tag 0, which decodes as variant 0 |
| `Derive.FirstOther` | derive/src/lib.rs:41-80 | in a mixed type, the first variant whose payload flag differs from variant 0's |
| `Codec.EncVariantAsWritten` | derive/src/lib.rs:41-60 | the generated enum encoder as written; when all variants carry a payload or none does, it writes the same bytes as the declaration-index encoding |
| `CodecLaws.AsWrittenMixedBreaksRoundTrip` | derive/src/lib.rs:41-80 | with mixed variants, the as-written encoding of the first other-kind variant starts with tag 0 and decodes as variant 0 |
| `CodecLaws.MixedEnumExample` | derive/src/lib.rs:41-101 | for `enum { A, B(f64) }`, `B(x)` as written encodes as `[0] + 8 bytes` and decodes as `A` with 1 byte used; with the declaration index it is `[1] + 8 bytes` and round-trips |
| `Hash.Constants` | src/hash.rs:41-63 | Blake2b has size 64 and name "blake2b", Sha1 size 20 and name "sha1" |
| `Hash.Decode` | src/hash.rs:21-25 | reads exactly `size()` bytes and fails exactly when fewer remain |
| `Hash.Encode` | src/hash.rs:16-19 | the count reported is `size()`, which equals the bytes written exactly when the digest has the algorithm's width |
| `Hash.RoundTrip` | src/hash.rs:16-25 | a digest of the algorithm's width decodes back to itself |
| `Hash.DecodeThenEncode` | src/hash.rs:16-25 | re-encoding a decoded hash gives back the bytes it was read from |
| `Trees.TreeShape` | src/tree.rs:10-15 | `Tree` is a derived type with three variants |
| `Trees.Tags` | src/tree.rs:10-15 | every `Tree` variant carries a payload, so the generated tags are Hash = 0, Id = 1, Concrete = 2 and match the decoder |
| `Trees.IdEncoding` | src/tree.rs:10-15 | `Tree::Id(n)` writes the byte 1 followed by the varint of n |
| `Trees.HashEncoding` | src/tree.rs:10-15 | `Tree::Hash(h)` writes the byte 0 followed by the hash |
| `Trees.ReferenceRoundTrip` | src/tree.rs:10-15 | trees by hash or by id decode back to themselves |
| `Trees.ConcreteEncoding` | src/tree.rs:28-33 | `Concrete` writes its stored bytes with no length prefix and reports their length |
| `Trees.ConcreteDecoding` | src/tree.rs:35-43 | `Concrete` decoding reads a varint length and then exactly that many bytes |
| `Trees.ConcreteTruncated` | src/tree.rs:35-43 | a `Concrete` whose prefix or bytes are cut short fails with an unexpected end of input |
| `Trees.Empty` | src/tree.rs:28-52 | `Tree::empty()`, for any hash type, is a `Tree` value that writes `[2, 0, 0]` and reports 3 |
| `Trees.EmptyIsNotInvertible` | src/tree.rs:28-52 | the bytes of `Tree::empty()` decode to a concrete tree with no bytes, leaving one byte unread, so not to `Tree::empty()` |
| `Keys.Key.New` | src/key.rs:22-34 | the key holds the non-empty parts in their original order |
| `Keys.NonEmptyDropsEmpty` | src/key.rs:22-34 | no empty part survives, at most as many parts remain, and a list without empty parts is kept whole |
| `Keys.Key.Empty` | src/key.rs:36-38 | the empty key has no segments and length 0 |
| `Keys.Key.Push` | src/key.rs:40-45 | appends p unless p is empty, and keeps segments non-empty |
| `Keys.Key.Pop` | src/key.rs:47-49 | removes and returns the last segment, or returns `None` on an empty key |
| `Keys.PushPop` | src/key.rs:40-49 | after pushing a non-empty p, pop returns p and restores the key |
| `Keys.PushEmptyPopEmpty` | src/key.rs:40-49 | pushing the empty string changes nothing; pop returns `None` exactly on the empty key |
| `Keys.Key.IsEmpty` | src/key.rs:51-53 | holds exactly when the length is 0 |
| `Keys.Key.Len` | src/key.rs:55-57 | the number of segments |
| `Keys.Join` | src/key.rs:59-61 | `join("/")`: the segments' bytes plus one separator between each pair of neighbours, nothing for no segments |
| `Keys.Split` | src/key.rs:63-65 | `split("/")`: at least one piece, and no piece holds a "/" |
| `Keys.Key.ToString` | src/key.rs:59-61 | segments joined by "/"; splitting it again gives the key back when no segment is empty or holds a "/" |
| `Keys.Key.FromString` | src/key.rs:63-65 | the non-empty pieces of the string split on "/" |
| `Keys.JoinSplit` | src/key.rs:59-65 | joining the pieces of a split gives the string back |
| `Keys.SplitJoin` | src/key.rs:59-65 | splitting a join of slash-free segments gives the segments back |
| `Keys.FromStringOfToString` | src/key.rs:59-65 | `from_string(to_string(k)) == k` when no segment of k is empty or holds "/" |
| `Keys.Key.EncodeBin` | src/key.rs:11-13 | a key writes exactly the `Vec<String>` encoding of its segments |
| `Keys.Key.DecodeBin` | src/key.rs:15-18 | a key reads a `Vec<String>` and keeps its strings unfiltered as segments |
| `Keys.KeyRoundTrip` | src/key.rs:11-18 | a key whose segments are UTF-8 decodes back to itself |
| `Keys.DecodeKeepsEmptySegments` | src/key.rs:15-18 | decoding does not drop empty segments: `[1, 0]` decodes to a key with one empty segment |
| `Protocol.Frame` | src/client.rs:57-70 | a frame is 8 length bytes followed by exactly the payload |
| `Protocol.ReadFrame` | src/client.rs:72-77 | succeeds exactly when 8 length bytes and then that many bytes remain, giving those bytes and stopping after them; otherwise fails with an unexpected end of input at the end of the input |
| `Protocol.FrameRoundTrip` | src/client.rs:57-79 | reading a frame gives back its payload and stops just after it |
| `Protocol.FrameTruncated` | src/client.rs:72-77 | a frame cut short anywhere fails with an unexpected end of input |
| `Protocol.ReadMessage` | src/client.rs:72-79 | reading a message never moves backwards or past the input |
| `Protocol.MessageRoundTrip` | src/client.rs:57-79 | a message carrying a decodable value reads back as that value, consuming its frame |
| `Protocol.MessageIgnoresTrailing` | src/client.rs:72-79 | bytes of the frame after the value are skipped without complaint |
| `Protocol.FramedMessage` | src/client.rs:72-79 | a frame whose payload decodes to x reads as x, however much of the payload was used |
| `Protocol.Request` | src/client.rs:81-88 | the command, a newline, then the 8-byte length and the payload, which ends the request |
| `Protocol.RequestParses` | src/client.rs:81-88 | a request is the command up to the first newline followed by a frame holding the payload |
| `Protocol.ReadResponse` | src/client.rs:90-101 | reading a response stays within the input |
| `Protocol.ReadRemoteError` | src/client.rs:95-97 | after a nonzero status the outcome is always an error |
| `Protocol.StatusZero` | src/client.rs:98-99 | after status 0 the response is the message that follows |
| `Protocol.StatusNonzero` | src/client.rs:95-97 | after a nonzero status the response is the error message that follows |
| `Protocol.ResponseOk` | src/client.rs:90-101 | status 0 and a frame holding v read as v |
| `Protocol.ResponseAfterStatus` | src/client.rs:90-101 | status 0 followed by a frame whose payload decodes in full as x reads as x and stops after the frame |
| `Protocol.ResponseOfFrame` | src/client.rs:98-99 | after status 0, whatever frame follows is decoded from its payload alone, however much of it is used |
| `Protocol.RemoteErrorOfFrame` | src/client.rs:95-97 | a frame whose payload decodes as a string is raised as an `Other` error with that text, and the frame is consumed |
| `Protocol.RemoteErrorText` | src/client.rs:95-97 | a nonzero status and a string frame read as an error of kind `Other` carrying that text |
| `Protocol.StatusThenFrame` | src/client.rs:93-99 | a response is a status byte followed by a frame |
| `Protocol.Token` | src/client.rs:23-29 | the handshake token is the hex digest followed by one newline |
| `Protocol.Hex` | src/client.rs:25 | two lowercase hex digits per digest byte |
| `Protocol.HexRoundTrip` | src/client.rs:25 | the hex form of the digest loses nothing |
| `Protocol.LineEnd` | src/client.rs:31-37 | a line ends just after the first newline from the start, or at the end of the input when none follows |
| `Protocol.LineEndAt` | src/client.rs:31-37 | a line whose first newline is at k ends at k + 1 |
| `Protocol.ReadLine` | src/client.rs:31-37 | reads through the first newline and fails, with `InvalidData`, exactly when that line is not UTF-8; the line is consumed either way |
| `Protocol.Handshake` | src/client.rs:31-50 | consumes one line and succeeds exactly when it is the token; a failure is a refused connection or a line that is not UTF-8 |
| `Protocol.HandshakeEcho` | src/client.rs:31-50 | a server that echoes the token completes the handshake, consuming the line |
| `Protocol.HandshakeRefused` | src/client.rs:39-50 | any other line is refused with `ConnectionRefused` "Invalid handshake" |
| `Protocol.HandshakeOnEof` | src/client.rs:31-50 | a closed connection reads an empty line and is refused |
| `Clients.ReadLineFrom` | src/client.rs:31-37 | the loop reads exactly the line the specification describes |
| `Clients.Client.WriteHandshake` | src/client.rs:23-29 | sends exactly the token |
| `Clients.Client.ReadHandshake` | src/client.rs:31-37 | reads one line and reports whether it equals the token |
| `Clients.Client.DoHandshake` | src/client.rs:39-50 | sends the token, then succeeds exactly when the echoed line equals it |
| `Clients.Client.WriteMessage` | src/client.rs:57-70 | sends exactly one frame holding the value's encoding |
| `Clients.Client.WriteFrame` | src/client.rs:64-67 | sends the 8-byte length and then the payload |
| `Clients.Client.ReadFrame` | src/client.rs:73-77 | reads 8 length bytes and then exactly that many bytes |
| `Clients.Client.ReadMessage` | src/client.rs:72-79 | reads one frame and decodes the value from its bytes alone |
| `Clients.Client.Request` | src/client.rs:81-88 | sends the command name, a newline and one frame |
| `Clients.Client.Response` | src/client.rs:90-101 | reads a status byte, then the result or the server's error text |
| `Clients.Client.Call` | src/client.rs:103-106 | one operation sends exactly one request and reads exactly one response |
| `Clients.Client.Ping` | src/client.rs:103-107 | sends `ping` with `()` and reads a `()` response |
| `Clients.Connect` | src/client.rs:114-143 | a client is returned only once the handshake has succeeded |
| `Clients.Store.Set` | src/client.rs:149-152 | sends `store.set` with `(key, info, value)` and reads a `()` response |
| `Clients.Store.Find` | src/client.rs:154-157 | sends `store.find` with the key and reads an `Option<T>` |
| `Clients.Store.Remove` | src/client.rs:159-162 | sends `store.remove` with `(key, info)` and reads a `()` response |
| `Clients.CreateCommit` | src/client.rs:165-175 | sends `commit.v` with `(info, parents, node)` and reads a `Commit<H>` |
| `Clients.TreeAdd` | src/client.rs:178-187 | sends `tree.add` with `(tree, key, value)` and reads a `Tree` |
| `Clients.TreeRemove` | src/client.rs:189-196 | sends `tree.remove` with `(tree, key)` and reads a `Tree` |
| `Clients.TreeFind` | src/client.rs:198-205 | sends `tree.find` with `(tree, key)` and reads an `Option<T>` |
| `Clients.TreeFindTree` | src/client.rs:207-214 | sends `tree.find_tree` with `(tree, key)` and reads an `Option<Tree>` |

## Findings

| source | as written | input that shows it | evidently intended | confidence | as-written member | corrected member |
|---|---|---|---|---|---|---|
| derive/src/lib.rs:41-80 | the generated encoder numbers payload variants and payload-less variants with two separate counters, while the generated decoder compares the tag with one counter over all variants | `enum E { A, B(f64) }`: `B(x)` is written as `[0x00]` and 8 bytes, which decodes as `A` | every variant is written with its declaration index, the number the decoder expects | high; not executed | `CodecLaws.MixedEnumExample` (with `Codec.EncVariantAsWritten`, `CodecLaws.AsWrittenMixedBreaksRoundTrip`) | `Binary.EncodeVariant` (with `CodecLaws.RoundTrip`) |
| src/type/mod.rs:16-30 | `encode_int` shifts with `>>`, an arithmetic shift on `i64`, and stops only once `0 <= n < 128` | `Tree::Id(-1)` or any negative `isize`: -1 shifts to -1, so the loop writes 0xFF forever | a logical shift, as the `lsr` of the commented-out OCaml at src/type/mod.rs:32-35, which stops within 10 bytes | high; not executed | `Varint.NegativeNeverStops` (with `Varint.EncodeAsWritten`, `Varint.MinusOneWritesForever`) | `Varint.EncodeLogical` (with `Varint.LogicalEncoding`) |

The rest of the model encodes an `isize` with `Varint.Encode`, which is
`Varint.EncodeLogical` on the non-negative values `Codec.Fits` admits
(`Varint.LogicalEncoding`).

The rest of the model encodes variants with their declaration index. For
types whose variants all carry a payload, such as `Tree`, or none does, the
two numberings coincide (`Derive.TagsAgreeIffUniform`).

## Left out

- The tokio transport: connecting a TCP or Unix socket, `BufStream`
  buffering, `flush`, `close`/`shutdown`, async suspension and the
  `RefCell` borrow. The connection is an output byte sequence and an input
  byte sequence read by a cursor; writes cannot fail.
- The order of a request and its response on one stream: output and input
  are separate sequences, so `Clients.Client.Call` states what each one gets
  but not their interleaving in time.
- Blake2b and SHA-1 digests (`Hash::hash` and the digest in the handshake
  token): the digest is a parameter.
- `f64`: carried as its `u64` bit pattern; the conversion from float to bits
  is not modelled.
- `Info` and `Commit<H>` on the protocol side: their shapes are parameters
  of the client.
- The behaviour of the server: what each command does to the store, and so
  the end-to-end scenarios that need a server.
- The commented-out `Concrete` tree type and its operations in src/tree.rs:
  they are not compiled.
- The `name()` methods of `Key` and `Concrete`: the `Type` trait in
  src/type/mod.rs has no such method.
- Integer widths beyond the stated ranges: a `usize` above `i64::MAX`, and
  `decode_int` overflowing its shift after nine or more continuation bytes.
  A decoded varint is an unbounded natural number.
- `CodecLaws.RoundTrip`: stated only for values that decode back intact —
  strings that are UTF-8, digests of their algorithm's width, and no
  `Concrete` tree, whose encoder and decoder disagree on a length prefix.
- `Protocol.ReadFrame`: fails with `UnexpectedEof` whenever the length prefix
  promises more bytes than remain. The source reads the prefix as an `i64`,
  casts it to `usize`, so a negative length becomes a huge one, and
  allocates that many bytes before reading (src/client.rs:75-76). When that
  allocation fails, the source panics or aborts instead of returning an
  error. The same holds for `Clients.Client.ReadFrame`.
- `Codec.Dec`: on a string or a `Concrete` tree, fails with `UnexpectedEof`
  whenever the varint length prefix promises more bytes than remain. The
  source allocates that many bytes before reading (src/type/mod.rs:188-189,
  src/tree.rs:36-37), so for a length too large to allocate it panics or
  aborts instead of returning an error. The same holds for
  `Binary.DecodeString` and `Binary.DecodeBin`. Arrays are not affected: they
  read one element at a time.
- `Codec.Fits`: an `isize` value must be non-negative. The source's
  `encode_int` never stops on a negative argument (see Findings), so the
  model's encoders, `Tree::Id` included, cover non-negative values only.
- `Binary.EncodeVariant`: writes the declaration index as the tag, which is
  what the decoder expects. For an enum mixing payload and payload-less
  variants, the generated encoder writes a different tag; that behaviour is
  `Codec.EncVariantAsWritten` (see Findings). `Codec.Enc` does the same.
- `Clients.ReadLineFrom`: a line that is not UTF-8 is consumed and refused,
  as tokio's `read_line` does; no other buffered-reader behaviour is modelled.
- `Keys.Key.New`: takes byte strings rather than `&str`; segments are not
  required to be UTF-8.
- The owned/borrowed view enums of src/type/types.rs, array.rs, string.rs and
  bytes.rs, and all FFI wrappers around the OCaml store: they only delegate.
