/**
 * The client of src/client.rs over a connection modelled as two byte
 * streams: what it sends is appended to `output`, and what it receives is
 * read from `input` by a cursor. Each operation is proved to send and
 * receive exactly what the `Protocol` functions describe.
 */
module Clients {
  import opened Base
  import opened Streams
  import FixedWidth
  import Utf8
  import opened Codec
  import opened Protocol
  import Binary
  import Keys
  import Trees

  /** The bytes of an ASCII command name. */
  function Ascii(s: string): (b: Bytes)
    requires forall i | 0 <= i < |s| :: s[i] as int < 0x80
    ensures |b| == |s| && forall i | 0 <= i < |s| :: b[i] == s[i] as int
  {
    seq(|s|, i requires 0 <= i < |s| => s[i] as int)
  }

  /** `read_line` on the input: bytes up to and including a newline, or to the end. */
  method ReadLineFrom(src: Reader) returns (r: Result<Bytes>)
    requires src.Valid()
    modifies src
    ensures src.Valid()
    ensures (r, src.pos) == Protocol.ReadLine(src.data, old(src.pos))
  {
    ghost var start := src.pos;
    var line: Bytes := [];
    while true
      invariant src.Valid() && start <= src.pos && line == src.data[start..src.pos]
      invariant LineEnd(src.data, start) == LineEnd(src.data, src.pos)
      decreases |src.data| - src.pos
    {
      ghost var before := src.pos;
      var b := src.ReadExact(1);
      if b.Err? {
        assert LineEnd(src.data, start) == src.pos;
        break;
      }
      assert b.value == [src.data[before]];
      line := line + b.value;
      assert line == src.data[start..src.pos];
      if b.value[0] == Newline {
        assert LineEnd(src.data, start) == src.pos;
        break;
      }
    }
    if Utf8.ValidUtf8(line) {
      r := Ok(line);
    } else {
      r := Err(InvalidData("stream did not contain valid UTF-8"));
    }
  }

  class Client {
    const output: Writer
    const input: Reader
    /** The shapes of the hash type `H`, of `Info` and of `Commit<H>`. */
    const hash: Shape
    const info: Shape
    const commit: Shape

    predicate Valid()
      reads this, input
    {
      input.Valid()
    }

    constructor Over(output: Writer, input: Reader, hash: Shape, info: Shape, commit: Shape)
      ensures this.output == output && this.input == input
      ensures this.hash == hash && this.info == info && this.commit == commit
    {
      this.output := output;
      this.input := input;
      this.hash := hash;
      this.info := info;
      this.commit := commit;
    }

    /** `write_handshake`: the token line for the content type's digest. */
    method WriteHandshake(digest: Bytes)
      modifies output
      ensures output.bytes == old(output.bytes) + Token(digest)
    {
      output.WriteAll(Hex(digest) + [Newline]);
    }

    /** `read_handshake`: one line, compared with the token. */
    method ReadHandshake(digest: Bytes) returns (r: Result<bool>)
      requires Valid()
      modifies input
      ensures Valid()
      ensures var (line, q) := Protocol.ReadLine(input.data, old(input.pos));
        && input.pos == q
        && r == (if line.Ok? then Ok(line.value == Token(digest)) else Err(line.error))
    {
      var line :- ReadLineFrom(input);
      r := Ok(line == Token(digest));
    }

    /** `do_handshake`: send the token, then expect it back. */
    method DoHandshake(digest: Bytes) returns (r: Result<()>)
      requires Valid()
      modifies output, input
      ensures Valid()
      ensures output.bytes == old(output.bytes) + Token(digest)
      ensures (r, input.pos) == Handshake(digest, input.data, old(input.pos))
    {
      WriteHandshake(digest);
      var ok :- ReadHandshake(digest);
      if !ok {
        return Err(ConnectionRefused("Invalid handshake"));
      }
      r := Ok(());
    }

    /** `write_message`: the value encoded into a buffer, sent as one frame. */
    method WriteMessage(s: Shape, v: Value)
      requires Fits(s, v) && |Enc(s, v)| < TwoPow64
      modifies output
      ensures output.bytes == old(output.bytes) + Frame(Enc(s, v))
    {
      var data := new Writer();
      var _ := Binary.EncodeBin(s, v, data);
      assert data.bytes == Enc(s, v);
      WriteFrame(data.bytes);
    }

    /** The second half of `write_message`: the 8-byte length, then the bytes. */
    method WriteFrame(payload: Bytes)
      requires |payload| < TwoPow64
      modifies output
      ensures output.bytes == old(output.bytes) + Frame(payload)
    {
      LengthRange();
      var header := FixedWidth.BigEndian(|payload|, LengthWidth);
      output.WriteAll(header);
      output.WriteAll(payload);
      assert output.bytes == old(output.bytes) + (header + payload);
    }

    /** `read_message`: one frame, and a value decoded from its bytes alone. */
    method ReadMessage(s: Shape) returns (r: Result<Value>)
      requires Valid()
      modifies input
      ensures Valid()
      ensures (r, input.pos) == Protocol.ReadMessage(s, input.data, old(input.pos))
    {
      var f := ReadFrame();
      if f.Err? {
        return Err(f.error);
      }
      var frame := new Reader(f.value);
      r := Binary.DecodeBin(s, frame);
    }

    /** The first half of `read_message`: the 8-byte length, then that many bytes. */
    method ReadFrame() returns (r: Result<Bytes>)
      requires Valid()
      modifies input
      ensures Valid()
      ensures (r, input.pos) == Protocol.ReadFrame(input.data, old(input.pos))
    {
      var lenBuf := input.ReadExact(LengthWidth);
      if lenBuf.Err? {
        return Err(lenBuf.error);
      }
      var len := FixedWidth.FromBigEndian(lenBuf.value);
      r := input.ReadExact(len);
    }

    /** `request`: the command name, a newline, then the argument as a frame. */
    method Request(command: Bytes, s: Shape, v: Value)
      requires Fits(s, v) && |Enc(s, v)| < TwoPow64
      modifies output
      ensures output.bytes == old(output.bytes) + Protocol.Request(command, Enc(s, v))
    {
      output.WriteAll(command);
      output.WriteAll([Newline]);
      WriteMessage(s, v);
      RequestBytes(old(output.bytes), command, Frame(Enc(s, v)));
    }

    /** `response`: a status byte, then the result or the server's error text. */
    method Response(s: Shape) returns (r: Result<Value>)
      requires Valid()
      modifies input
      ensures Valid()
      ensures (r, input.pos) == ReadResponse(s, input.data, old(input.pos))
    {
      var status := input.ReadExact(1);
      if status.Err? {
        return Err(status.error);
      }
      if status.value[0] > 0 {
        var text := ReadMessage(Str);
        if text.Err? {
          return text;
        }
        return Err(Other(text.value.bytes));
      }
      r := ReadMessage(s);
    }

    /** One command: its request sent, then its response read. */
    method Call(command: Bytes, arg: Shape, v: Value, result: Shape) returns (r: Result<Value>)
      requires Valid() && Fits(arg, v) && |Enc(arg, v)| < TwoPow64
      modifies output, input
      ensures Valid()
      ensures output.bytes == old(output.bytes) + Protocol.Request(command, Enc(arg, v))
      ensures (r, input.pos) == ReadResponse(result, input.data, old(input.pos))
    {
      Request(command, arg, v);
      r := Response(result);
    }

    /** `ping`: sends `()` and expects `()`. */
    method Ping() returns (r: Result<()>)
      requires Valid()
      modifies output, input
      ensures Valid()
      ensures output.bytes == old(output.bytes) + Protocol.Request(Ascii("ping"), [])
      ensures var (res, q) := ReadResponse(Unit, input.data, old(input.pos));
        input.pos == q && r == (if res.Ok? then Ok(()) else Err(res.error))
    {
      var _ :- Call(Ascii("ping"), Unit, UnitV, Unit);
      r := Ok(());
    }
  }

  /**
   * `Client::new` for either socket kind, once connected: a client over the
   * two streams, returned only if the handshake succeeds.
   */
  method Connect(output: Writer, input: Reader, digest: Bytes, hash: Shape, info: Shape, commit: Shape)
    returns (r: Result<Client>)
    requires input.Valid()
    modifies output, input
    ensures input.Valid()
    ensures output.bytes == old(output.bytes) + Token(digest)
    ensures var (h, q) := Handshake(digest, input.data, old(input.pos));
      && input.pos == q
      && (r.Ok? <==> h.Ok?)
      && (r.Err? ==> h == Err(r.error))
    ensures r.Ok? ==> r.value.output == output && r.value.input == input && r.value.hash == hash
  {
    var client := new Client.Over(output, input, hash, info, commit);
    var _ :- client.DoHandshake(digest);
    r := Ok(client);
  }

  /** `Store`: the store operations of a client. */
  class Store {
    const client: Client

    constructor Of(client: Client)
      ensures this.client == client
    {
      this.client := client;
    }

    /** `store.set`: sends `(key, info, value)`, expects `()`. */
    method Set(key: Keys.Key, t: Shape, value: Value, info: Value) returns (r: Result<Value>)
      requires client.Valid() && Fits(t, value) && Fits(client.info, info)
      requires |Enc(Triple(Keys.KeyShape, client.info, t), TripleV(Keys.AsValue(key.segments), info, value))| < TwoPow64
      modifies client.output, client.input
      ensures client.Valid()
      ensures client.output.bytes == old(client.output.bytes) +
        Protocol.Request(Ascii("store.set"), Enc(Triple(Keys.KeyShape, client.info, t), TripleV(Keys.AsValue(key.segments), info, value)))
      ensures (r, client.input.pos) == ReadResponse(Unit, client.input.data, old(client.input.pos))
    {
      r := client.Call(Ascii("store.set"), Triple(Keys.KeyShape, client.info, t),
                       TripleV(Keys.AsValue(key.segments), info, value), Unit);
    }

    /** `store.find`: sends the key, expects an `Option<T>`. */
    method Find(key: Keys.Key, t: Shape) returns (r: Result<Value>)
      requires client.Valid() && |Enc(Keys.KeyShape, Keys.AsValue(key.segments))| < TwoPow64
      modifies client.output, client.input
      ensures client.Valid()
      ensures client.output.bytes == old(client.output.bytes) +
        Protocol.Request(Ascii("store.find"), Enc(Keys.KeyShape, Keys.AsValue(key.segments)))
      ensures (r, client.input.pos) == ReadResponse(Opt(t), client.input.data, old(client.input.pos))
    {
      r := client.Call(Ascii("store.find"), Keys.KeyShape, Keys.AsValue(key.segments), Opt(t));
    }

    /** `store.remove`: sends `(key, info)`, expects `()`. */
    method Remove(key: Keys.Key, info: Value) returns (r: Result<Value>)
      requires client.Valid() && Fits(client.info, info)
      requires |Enc(Pair(Keys.KeyShape, client.info), PairV(Keys.AsValue(key.segments), info))| < TwoPow64
      modifies client.output, client.input
      ensures client.Valid()
      ensures client.output.bytes == old(client.output.bytes) +
        Protocol.Request(Ascii("store.remove"), Enc(Pair(Keys.KeyShape, client.info), PairV(Keys.AsValue(key.segments), info)))
      ensures (r, client.input.pos) == ReadResponse(Unit, client.input.data, old(client.input.pos))
    {
      r := client.Call(Ascii("store.remove"), Pair(Keys.KeyShape, client.info),
                       PairV(Keys.AsValue(key.segments), info), Unit);
    }
  }

  /** `Commit::create`: sends `(info, parents, node)`, expects a `Commit<H>`. */
  method CreateCommit(client: Client, node: Value, parents: seq<Value>, info: Value) returns (r: Result<Value>)
    requires client.Valid() && Fits(client.hash, node) && Fits(client.info, info)
    requires Fits(Array(client.hash), ListV(parents))
    requires |Enc(Triple(client.info, Array(client.hash), client.hash), TripleV(info, ListV(parents), node))| < TwoPow64
    modifies client.output, client.input
    ensures client.Valid()
    ensures client.output.bytes == old(client.output.bytes) +
      Protocol.Request(Ascii("commit.v"), Enc(Triple(client.info, Array(client.hash), client.hash), TripleV(info, ListV(parents), node)))
    ensures (r, client.input.pos) == ReadResponse(client.commit, client.input.data, old(client.input.pos))
  {
    r := client.Call(Ascii("commit.v"), Triple(client.info, Array(client.hash), client.hash),
                     TripleV(info, ListV(parents), node), client.commit);
  }

  /** `Tree::add`: sends `(tree, key, value)`, expects a `Tree`. */
  method TreeAdd(client: Client, tree: Value, key: Keys.Key, t: Shape, value: Value) returns (r: Result<Value>)
    requires client.Valid() && Fits(Trees.TreeShape(client.hash), tree) && Fits(t, value)
    requires |Enc(Triple(Trees.TreeShape(client.hash), Keys.KeyShape, t), TripleV(tree, Keys.AsValue(key.segments), value))| < TwoPow64
    modifies client.output, client.input
    ensures client.Valid()
    ensures client.output.bytes == old(client.output.bytes) +
      Protocol.Request(Ascii("tree.add"), Enc(Triple(Trees.TreeShape(client.hash), Keys.KeyShape, t), TripleV(tree, Keys.AsValue(key.segments), value)))
    ensures (r, client.input.pos) == ReadResponse(Trees.TreeShape(client.hash), client.input.data, old(client.input.pos))
  {
    r := client.Call(Ascii("tree.add"), Triple(Trees.TreeShape(client.hash), Keys.KeyShape, t),
                     TripleV(tree, Keys.AsValue(key.segments), value), Trees.TreeShape(client.hash));
  }

  /**
   * `Tree::remove`, `Tree::find` and `Tree::find_tree`: each sends
   * `(tree, key)`; they expect a `Tree`, an `Option<T>` and an
   * `Option<Tree>`.
   */
  method TreeRemove(client: Client, tree: Value, key: Keys.Key) returns (r: Result<Value>)
    requires client.Valid() && Fits(Trees.TreeShape(client.hash), tree)
    requires |Enc(Pair(Trees.TreeShape(client.hash), Keys.KeyShape), PairV(tree, Keys.AsValue(key.segments)))| < TwoPow64
    modifies client.output, client.input
    ensures client.Valid()
    ensures client.output.bytes == old(client.output.bytes) +
      Protocol.Request(Ascii("tree.remove"), Enc(Pair(Trees.TreeShape(client.hash), Keys.KeyShape), PairV(tree, Keys.AsValue(key.segments))))
    ensures (r, client.input.pos) == ReadResponse(Trees.TreeShape(client.hash), client.input.data, old(client.input.pos))
  {
    r := client.Call(Ascii("tree.remove"), Pair(Trees.TreeShape(client.hash), Keys.KeyShape),
                     PairV(tree, Keys.AsValue(key.segments)), Trees.TreeShape(client.hash));
  }

  method TreeFind(client: Client, tree: Value, key: Keys.Key, t: Shape) returns (r: Result<Value>)
    requires client.Valid() && Fits(Trees.TreeShape(client.hash), tree)
    requires |Enc(Pair(Trees.TreeShape(client.hash), Keys.KeyShape), PairV(tree, Keys.AsValue(key.segments)))| < TwoPow64
    modifies client.output, client.input
    ensures client.Valid()
    ensures client.output.bytes == old(client.output.bytes) +
      Protocol.Request(Ascii("tree.find"), Enc(Pair(Trees.TreeShape(client.hash), Keys.KeyShape), PairV(tree, Keys.AsValue(key.segments))))
    ensures (r, client.input.pos) == ReadResponse(Opt(t), client.input.data, old(client.input.pos))
  {
    r := client.Call(Ascii("tree.find"), Pair(Trees.TreeShape(client.hash), Keys.KeyShape),
                     PairV(tree, Keys.AsValue(key.segments)), Opt(t));
  }

  method TreeFindTree(client: Client, tree: Value, key: Keys.Key) returns (r: Result<Value>)
    requires client.Valid() && Fits(Trees.TreeShape(client.hash), tree)
    requires |Enc(Pair(Trees.TreeShape(client.hash), Keys.KeyShape), PairV(tree, Keys.AsValue(key.segments)))| < TwoPow64
    modifies client.output, client.input
    ensures client.Valid()
    ensures client.output.bytes == old(client.output.bytes) +
      Protocol.Request(Ascii("tree.find_tree"), Enc(Pair(Trees.TreeShape(client.hash), Keys.KeyShape), PairV(tree, Keys.AsValue(key.segments))))
    ensures (r, client.input.pos) == ReadResponse(Opt(Trees.TreeShape(client.hash)), client.input.data, old(client.input.pos))
  {
    r := client.Call(Ascii("tree.find_tree"), Pair(Trees.TreeShape(client.hash), Keys.KeyShape),
                     PairV(tree, Keys.AsValue(key.segments)), Opt(Trees.TreeShape(client.hash)));
  }

  /**
   * The three writes of `request` add up to the request's bytes. Kept apart
   * so that `Client.Request` reasons about the regrouping in isolation.
   */
  lemma RequestBytes(before: Bytes, command: Bytes, frame: Bytes)
    ensures before + command + [Newline] + frame == before + (command + [Newline] + frame)
  {
  }
}
