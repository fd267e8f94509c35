/**
 * The byte-level protocol of the client (src/client.rs): the handshake
 * line, length-prefixed frames, requests and responses. Each function
 * reads from an input `data` at a position and gives the outcome together
 * with the position reached, which is the end of the input whenever a read
 * ran out of bytes.
 */
module Protocol {
  import opened Base
  import FixedWidth
  import Utf8
  import opened Codec
  import CodecLaws

  /** The 8-byte big-endian length of a frame. */
  const LengthWidth: nat := 8

  /**
   * What `write_message` sends for an encoded message: its length as 8
   * big-endian bytes, then the message.
   */
  function Frame(payload: Bytes): (f: Bytes)
    requires |payload| < TwoPow64
    ensures |f| == LengthWidth + |payload| && f[LengthWidth..] == payload
  {
    assert Pow(0x100, 8) == TwoPow64;
    FixedWidth.BigEndian(|payload|, LengthWidth) + payload
  }

  /** The frame at `pos`: 8 length bytes, then exactly that many bytes. */
  function ReadFrame(data: Bytes, pos: nat): (r: (Result<Bytes>, nat))
    requires pos <= |data|
    ensures pos <= r.1 <= |data|
    ensures r.0.Ok? <==>
      (pos + LengthWidth <= |data|
       && pos + LengthWidth + FixedWidth.FromBigEndian(data[pos..pos + LengthWidth]) <= |data|)
    ensures r.0.Ok? ==>
      (r.1 == pos + LengthWidth + |r.0.value|
       && |r.0.value| == FixedWidth.FromBigEndian(data[pos..pos + LengthWidth])
       && r.0.value == data[pos + LengthWidth..r.1])
    ensures r.0.Err? ==> r.0.error == UnexpectedEof && r.1 == |data|
  {
    if pos + LengthWidth > |data| then (Err(UnexpectedEof), |data|)
    else
      var len := FixedWidth.FromBigEndian(data[pos..pos + LengthWidth]);
      var start := pos + LengthWidth;
      if start + len > |data| then (Err(UnexpectedEof), |data|)
      else (Ok(data[start..start + len]), start + len)
  }

  /**
   * `read_message`: a frame, then a value of shape `s` decoded from the
   * frame's bytes alone. Bytes of the frame the decoder leaves unread are
   * skipped.
   */
  function ReadMessage(s: Shape, data: Bytes, pos: nat): (r: (Result<Value>, nat))
    requires pos <= |data|
    ensures pos <= r.1 <= |data|
  {
    var (f, q) := ReadFrame(data, pos);
    if f.Err? then (Err(f.error), q)
    else
      match Dec(s, f.value, 0)
      case Ok((v, _)) => (Ok(v), q)
      case Err(e) => (Err(e), q)
  }

  /** What `request` sends: the command name, a newline, then one frame. */
  function Request(command: Bytes, payload: Bytes): (r: Bytes)
    requires |payload| < TwoPow64
    ensures |r| == |command| + 1 + LengthWidth + |payload|
    ensures r[..|command|] == command && r[|command|] == Newline
    ensures r[|r| - |payload|..] == payload
  {
    command + [Newline] + Frame(payload)
  }

  /**
   * `response`: a status byte; 0 is followed by a frame holding the result,
   * anything else by a frame holding the error message as a `String`.
   */
  function ReadResponse(s: Shape, data: Bytes, pos: nat): (r: (Result<Value>, nat))
    requires pos <= |data|
    ensures pos <= r.1 <= |data|
  {
    if pos + 1 > |data| then (Err(UnexpectedEof), |data|)
    else if data[pos] > 0 then ReadRemoteError(data, pos + 1)
    else ReadMessage(s, data, pos + 1)
  }

  /**
   * What follows a nonzero status: a `String` message, raised as an error
   * of kind `Other` once read.
   */
  function ReadRemoteError(data: Bytes, pos: nat): (r: (Result<Value>, nat))
    requires pos <= |data|
    ensures pos <= r.1 <= |data|
    ensures r.0.Err?
  {
    var (m, q) := ReadMessage(Str, data, pos);
    if m.Err? then (m, q) else (Err(Other(m.value.bytes)), q)
  }

  /** The position just after the first newline from `pos`, or the end of the input. */
  function LineEnd(data: Bytes, pos: nat): (q: nat)
    requires pos <= |data|
    ensures pos <= q <= |data|
    ensures forall i | pos <= i < q - 1 :: data[i] != Newline
    ensures (pos < q && data[q - 1] == Newline)
         || (q == |data| && forall i | pos <= i < |data| :: data[i] != Newline)
    decreases |data| - pos
  {
    if pos == |data| then pos
    else if data[pos] == Newline then pos + 1
    else LineEnd(data, pos + 1)
  }

  /**
   * `read_line`: the bytes up to and including the first newline, or to
   * the end of the input; they are consumed even when they are not UTF-8.
   */
  function ReadLine(data: Bytes, pos: nat): (r: (Result<Bytes>, nat))
    requires pos <= |data|
    ensures r.1 == LineEnd(data, pos)
    ensures r.0.Ok? <==> Utf8.ValidUtf8(data[pos..r.1])
    ensures r.0.Ok? ==> r.0.value == data[pos..r.1]
    ensures r.0.Err? ==> r.0.error.InvalidData?
  {
    var q := LineEnd(data, pos);
    var line := data[pos..q];
    if Utf8.ValidUtf8(line) then (Ok(line), q)
    else (Err(InvalidData("stream did not contain valid UTF-8")), q)
  }

  /** A lowercase hexadecimal digit. */
  function HexDigit(d: nat): (c: byte)
    requires d < 16
    ensures IsHexDigit(c)
  {
    if d < 10 then 0x30 + d else 0x61 + (d - 10)
  }

  predicate IsHexDigit(c: byte) {
    (0x30 <= c <= 0x39) || (0x61 <= c <= 0x66)
  }

  function HexValue(c: byte): nat
    requires IsHexDigit(c)
  {
    if c <= 0x39 then c - 0x30 else c - 0x61 + 10
  }

  /** `format!("{:x}", digest)`: two lowercase hex digits per byte. */
  function Hex(digest: Bytes): (h: Bytes)
    ensures |h| == 2 * |digest|
    ensures forall i | 0 <= i < |h| :: IsHexDigit(h[i])
  {
    if digest == [] then []
    else [HexDigit(digest[0] / 16), HexDigit(digest[0] % 16)] + Hex(digest[1..])
  }

  /** Reads hex digits back, two to a byte. */
  function Unhex(h: Bytes): Bytes
    requires |h| % 2 == 0 && forall i | 0 <= i < |h| :: IsHexDigit(h[i])
  {
    if h == [] then [] else [16 * HexValue(h[0]) + HexValue(h[1])] + Unhex(h[2..])
  }

  /** The hex form loses nothing: reading it back gives the digest. */
  lemma {:induction false} HexRoundTrip(digest: Bytes)
    ensures Unhex(Hex(digest)) == digest
  {
    if digest != [] {
      var h := Hex(digest);
      assert h[2..] == Hex(digest[1..]);
      HexRoundTrip(digest[1..]);
      assert digest == [digest[0]] + digest[1..];
    }
  }

  /**
   * The handshake line: the hex of the Blake2b digest of the content type's
   * name, and a newline. The digest is computed outside this model.
   */
  function Token(digest: Bytes): (t: Bytes)
    ensures |t| == 2 * |digest| + 1 && t[|t| - 1] == Newline
  {
    Hex(digest) + [Newline]
  }

  /**
   * The outcome of `do_handshake` once its token is sent: the line read
   * back must equal the token, or the connection is refused.
   */
  function Handshake(digest: Bytes, data: Bytes, pos: nat): (r: (Result<()>, nat))
    requires pos <= |data|
    ensures r.1 == LineEnd(data, pos)
    ensures r.0.Ok? <==> data[pos..r.1] == Token(digest)
    ensures r.0.Err? ==>
      (r.0.error == ConnectionRefused("Invalid handshake") || !Utf8.ValidUtf8(data[pos..r.1]))
  {
    Utf8.AsciiIsUtf8(Token(digest));
    var (line, q) := ReadLine(data, pos);
    if line.Err? then (Err(line.error), q)
    else if line.value == Token(digest) then (Ok(()), q)
    else (Err(ConnectionRefused("Invalid handshake")), q)
  }

  // ---------------------------------------------------------------------
  // Properties

  /** Reading a frame gives back its payload and stops just after it. */
  lemma FrameRoundTrip(payload: Bytes, data: Bytes, pos: nat)
    requires |payload| < TwoPow64 && At(data, pos, Frame(payload))
    ensures ReadFrame(data, pos) == (Ok(payload), pos + LengthWidth + |payload|)
  {
    LengthRange();
    var len := FixedWidth.BigEndian(|payload|, LengthWidth);
    assert Frame(payload) == len + payload;
    AtConcat(data, pos, len, payload);
    FixedWidth.FromBigEndianOfBigEndian(|payload|, LengthWidth);
    assert FixedWidth.FromBigEndian(data[pos..pos + LengthWidth]) == |payload|;
  }

  /** Eight length bytes hold every length below 2^64. */
  lemma LengthRange()
    ensures Pow(0x100, LengthWidth) == TwoPow64
  {
  }

  /** A frame cut short anywhere fails with an unexpected end of input. */
  lemma FrameTruncated(payload: Bytes, j: nat)
    requires |payload| < TwoPow64 && j < |Frame(payload)|
    ensures ReadFrame(Frame(payload)[..j], 0) == (Err(UnexpectedEof), j)
  {
    assert Pow(0x100, 8) == TwoPow64;
    var data := Frame(payload)[..j];
    if j >= LengthWidth {
      assert data[..LengthWidth] == FixedWidth.BigEndian(|payload|, LengthWidth);
      FixedWidth.FromBigEndianOfBigEndian(|payload|, LengthWidth);
    }
  }

  /**
   * A frame whose payload decodes as `x` reads as the message `x`, however
   * much of the payload the decoder used.
   */
  lemma FramedMessage(s: Shape, payload: Bytes, x: Value, r: nat, data: Bytes, pos: nat)
    requires |payload| < TwoPow64 && At(data, pos, Frame(payload))
    requires Dec(s, payload, 0) == Ok((x, r))
    ensures ReadMessage(s, data, pos) == (Ok(x), pos + LengthWidth + |payload|)
  {
    FrameRoundTrip(payload, data, pos);
  }

  /**
   * A message carrying an invertible value `v`, whose encoding is `e`,
   * reads back as that value.
   */
  lemma MessageRoundTrip(s: Shape, v: Value, e: Bytes, data: Bytes, pos: nat)
    requires Decodable(s, v) && e == Enc(s, v) && |e| < TwoPow64
    requires At(data, pos, Frame(e))
    ensures ReadMessage(s, data, pos) == (Ok(v), pos + LengthWidth + |e|)
  {
    CodecLaws.DecodesOwnEncoding(s, v);
    FramedMessage(s, e, v, |e|, data, pos);
  }

  /**
   * `read_message` does not check that the decoder used the whole frame:
   * bytes after the value inside the frame are skipped without complaint.
   */
  lemma MessageIgnoresTrailing(s: Shape, v: Value, e: Bytes, extra: Bytes, data: Bytes, pos: nat)
    requires Decodable(s, v) && e == Enc(s, v) && |e + extra| < TwoPow64
    requires At(data, pos, Frame(e + extra))
    ensures ReadMessage(s, data, pos) == (Ok(v), pos + LengthWidth + |e| + |extra|)
  {
    CodecLaws.DecodesPrefix(s, v, extra);
    FramedMessage(s, e + extra, v, |e|, data, pos);
  }

  /** A status byte followed by a frame: the status at `pos`, the frame after it. */
  lemma StatusThenFrame(status: byte, payload: Bytes, data: Bytes, pos: nat)
    requires |payload| < TwoPow64 && At(data, pos, [status] + Frame(payload))
    ensures pos < |data| && data[pos] == status && At(data, pos + 1, Frame(payload))
  {
    AtConcat(data, pos, [status], Frame(payload));
    assert data[pos] == data[pos..pos + 1][0];
  }

  /** After status 0 the response is the message that follows. */
  lemma StatusZero(s: Shape, data: Bytes, pos: nat)
    requires pos < |data| && data[pos] == 0
    ensures ReadResponse(s, data, pos) == ReadMessage(s, data, pos + 1)
  {
  }

  /** Status 0 and a frame holding the encoding `e` of `v`: the response is `v`. */
  lemma ResponseOk(s: Shape, v: Value, e: Bytes, data: Bytes, pos: nat)
    requires Decodable(s, v) && e == Enc(s, v) && |e| < TwoPow64
    requires At(data, pos, [0] + Frame(e))
    ensures ReadResponse(s, data, pos) == (Ok(v), pos + 1 + LengthWidth + |e|)
  {
    StatusThenFrame(0, e, data, pos);
    CodecLaws.DecodesOwnEncoding(s, v);
    ResponseAfterStatus(s, e, v, data, pos, pos + 1, pos + 1 + LengthWidth + |e|);
  }

  /**
   * Status 0, then at `p` a frame whose payload `e` decodes in full as `x`:
   * the response is `x`, ending with the frame at `q`.
   */
  lemma ResponseAfterStatus(s: Shape, e: Bytes, x: Value, data: Bytes, pos: nat, p: nat, q: nat)
    requires pos < |data| && data[pos] == 0 && p == pos + 1 && q == p + LengthWidth + |e|
    requires |e| < TwoPow64 && At(data, p, Frame(e)) && Dec(s, e, 0) == Ok((x, |e|))
    ensures ReadResponse(s, data, pos) == (Ok(x), q)
  {
    FrameRoundTrip(e, data, p);
    assert ReadFrame(data, p) == (Ok(e), q);
    ResponseOfFrame(s, e, x, |e|, data, pos, q);
  }

  /**
   * Status 0 and a frame, ending at `q`, whose payload `e` decodes as `x`:
   * the response is `x`, and it ends at `q`.
   */
  lemma ResponseOfFrame(s: Shape, e: Bytes, x: Value, r: nat, data: Bytes, pos: nat, q: nat)
    requires pos < |data| && data[pos] == 0
    requires ReadFrame(data, pos + 1) == (Ok(e), q) && Dec(s, e, 0) == Ok((x, r))
    ensures ReadResponse(s, data, pos) == (Ok(x), q)
  {
  }

  /** After a nonzero status the response is the remote error that follows. */
  lemma StatusNonzero(s: Shape, data: Bytes, pos: nat)
    requires pos < |data| && data[pos] != 0
    ensures ReadResponse(s, data, pos) == ReadRemoteError(data, pos + 1)
  {
  }

  /**
   * A frame holding the string `text`, encoded as `e`, is read as an error
   * carrying `text`, and the frame is consumed.
   */
  lemma RemoteErrorText(text: Bytes, e: Bytes, data: Bytes, pos: nat)
    requires Utf8.ValidUtf8(text) && e == Enc(Str, BytesV(text)) && |e| < TwoPow64
    requires At(data, pos, Frame(e))
    ensures ReadRemoteError(data, pos) == (Err(Other(text)), pos + LengthWidth + |e|)
  {
    FrameRoundTrip(e, data, pos);
    CodecLaws.DecodesOwnEncoding(Str, BytesV(text));
    RemoteErrorOfFrame(text, e, |e|, data, pos, pos + LengthWidth + |e|);
  }

  /** A frame, ending at `q`, whose payload decodes as the string `text` is raised as the error `text`. */
  lemma RemoteErrorOfFrame(text: Bytes, e: Bytes, r: nat, data: Bytes, pos: nat, q: nat)
    requires pos <= |data| && ReadFrame(data, pos) == (Ok(e), q) && Dec(Str, e, 0) == Ok((BytesV(text), r))
    ensures ReadRemoteError(data, pos) == (Err(Other(text)), q)
  {
  }

  /**
   * A request can be taken apart again: the command is the line before the
   * first newline, and the frame after it holds the payload.
   */
  lemma RequestParses(command: Bytes, payload: Bytes)
    requires Newline !in command && |payload| < TwoPow64
    ensures var r := Request(command, payload);
      && LineEnd(r, 0) == |command| + 1
      && r[..|command|] == command
      && ReadFrame(r, |command| + 1) == (Ok(payload), |r|)
  {
    var r := Request(command, payload);
    LineEndAt(r, 0, |command|);
    assert r[..|command|] == command;
    assert At(r, |command| + 1, Frame(payload)) by {
      assert r[|command| + 1..] == Frame(payload);
    }
    FrameRoundTrip(payload, r, |command| + 1);
  }

  /** The line from `pos` ends at the newline at `k` when none comes before it. */
  lemma {:induction false} LineEndAt(data: Bytes, pos: nat, k: nat)
    requires pos <= k < |data| && data[k] == Newline
    requires forall i | pos <= i < k :: data[i] != Newline
    ensures LineEnd(data, pos) == k + 1
    decreases k - pos
  {
    if pos < k {
      LineEndAt(data, pos + 1, k);
    }
  }

  /** A server that echoes the token completes the handshake, consuming the line. */
  lemma HandshakeEcho(digest: Bytes, data: Bytes, pos: nat)
    requires At(data, pos, Token(digest))
    ensures Handshake(digest, data, pos) == (Ok(()), pos + |Token(digest)|)
  {
    var t := Token(digest);
    var k := pos + |t| - 1;
    forall i | pos <= i < k ensures data[i] != Newline {
      assert data[i] == t[i - pos] == Hex(digest)[i - pos];
    }
    LineEndAt(data, pos, k);
    assert data[pos..k + 1] == t;
    Utf8.AsciiIsUtf8(t);
  }

  /** Any other line, including none at all, is refused. */
  lemma HandshakeRefused(digest: Bytes, data: Bytes, pos: nat)
    requires pos <= |data|
    requires ReadLine(data, pos).0.Ok? && ReadLine(data, pos).0.value != Token(digest)
    ensures Handshake(digest, data, pos).0 == Err(ConnectionRefused("Invalid handshake"))
    ensures pos == |data| ==> ReadLine(data, pos).0 == Ok([])
  {
    if pos == |data| {
      assert data[pos..pos] == [];
    }
  }

  /** A closed connection fails the handshake: the empty line is not the token. */
  lemma HandshakeOnEof(digest: Bytes, data: Bytes)
    ensures Handshake(digest, data, |data|) == (Err(ConnectionRefused("Invalid handshake")), |data|)
  {
    assert data[|data|..|data|] == [];
    assert Utf8.ValidUtf8([]);
  }
}
