/** Length-prefixed SCALE frames of the fragment protocol. */
module Framing {
  import opened Common
  import opened Bytes
  import opened Digits
  import opened Utf8

  const MAX_FRAGMENT_SIZE: nat := 128 * 1024 * 1024
  const ENVELOPE_OVERHEAD: nat := 1024
  const MAX_MESSAGE_SIZE: nat := MAX_FRAGMENT_SIZE + ENVELOPE_OVERHEAD

  type FragmentId = id: seq<byte> | |id| == 32 witness seq(32, _ => 0)

  datatype FragmentRequest = Get(fragmentId: FragmentId) | Put(fragmentId: FragmentId, data: seq<byte>)

  datatype FragmentResponse = Data(fragment: Option<seq<byte>>) | Ack(success: bool, error: Option<Text>)

  // ------------------------------------------------------------------- SCALE --

  /** A value decoded from the front of a buffer, and what follows it; None is a decoding error. */
  type Decoded<T> = Option<(T, seq<byte>)>

  function EncodeCompact(n: u32): (s: seq<byte>)
    ensures |s| == if n < 0x40 then 1 else if n < 0x4000 then 2 else if n < 0x4000_0000 then 4 else 5
  {
    if n < 0x40 then [n as int * 4]
    else if n < 0x4000 then Le16(n * 4 + 1)
    else if n < 0x4000_0000 then Le32(n * 4 + 2)
    else [3] + Le32(n)
  }

  /** The decoder refuses a length written in more bytes than it needs. */
  function DecodeCompact(s: seq<byte>): Decoded<u32>
  {
    if s == [] then None
    else if s[0] % 4 == 0 then Some(((s[0] as int) / 4, s[1..]))
    else if s[0] % 4 == 1 then
      if |s| < 2 || FromLe16(s[..2]) / 4 <= 0x3F then None else Some((FromLe16(s[..2]) / 4, s[2..]))
    else if s[0] % 4 == 2 then
      if |s| < 4 || FromLe32(s[..4]) / 4 <= 0x3FFF then None else Some((FromLe32(s[..4]) / 4, s[4..]))
    else
      if s[0] != 3 || |s| < 5 || FromLe32(s[1..5]) <= 0x3FFF_FFFF then None else Some((FromLe32(s[1..5]), s[5..]))
  }

  /** The two low bits of the first byte tell the modes apart. */
  lemma Le16Mode(n: u32)
    ensures n < 0x4000 ==> Le16(n * 4 + 1)[0] % 4 == 1
  {
  }

  lemma Le32Mode(n: u32)
    ensures n < 0x4000_0000 ==> Le32(n * 4 + 2)[0] % 4 == 2
  {
  }

  lemma CompactRoundTrip(n: u32, rest: seq<byte>)
    ensures DecodeCompact(EncodeCompact(n) + rest) == Some((n, rest))
  {
    hide Le16, Le32, FromLe16, FromLe32;
    var s := EncodeCompact(n) + rest;
    Le16Mode(n);
    Le32Mode(n);
    if n < 0x40 {
      assert s[1..] == rest;
    } else if n < 0x4000 {
      assert s[..2] == Le16(n * 4 + 1) && s[2..] == rest;
      Le16RoundTrip(n * 4 + 1);
    } else if n < 0x4000_0000 {
      assert s[..4] == Le32(n * 4 + 2) && s[4..] == rest;
      Le32RoundTrip(n * 4 + 2);
    } else {
      assert s[1..5] == Le32(n) && s[5..] == rest;
      Le32RoundTrip(n);
    }
  }

  /** `Vec<u8>`; the length of a longer vector does not fit the format (the crate panics). */
  function EncodeBytes(v: seq<byte>): (s: seq<byte>)
    ensures |s| >= |v|
  {
    EncodeCompact(if |v| < 0x1_0000_0000 then |v| else 0xFFFF_FFFF) + v
  }

  function DecodeBytes(s: seq<byte>): Decoded<seq<byte>>
  {
    match DecodeCompact(s)
    case None => None
    case Some((n, rest)) => if |rest| < n then None else Some((rest[..n], rest[n..]))
  }

  lemma BytesRoundTrip(v: seq<byte>, rest: seq<byte>)
    requires |v| < 0x1_0000_0000
    ensures DecodeBytes(EncodeBytes(v) + rest) == Some((v, rest))
  {
    hide EncodeCompact, DecodeCompact;
    assert EncodeBytes(v) + rest == EncodeCompact(|v|) + (v + rest);
    CompactRoundTrip(|v|, v + rest);
  }

  function EncodeOption(o: Option<seq<byte>>): (s: seq<byte>)
    ensures o.Some? ==> |s| >= |o.value|
  {
    if o == None then [0] else [1] + EncodeBytes(o.value)
  }

  function DecodeOption(s: seq<byte>): Decoded<Option<seq<byte>>>
  {
    if s == [] then None
    else if s[0] == 0 then Some((None, s[1..]))
    else if s[0] == 1 then
      match DecodeBytes(s[1..])
      case None => None
      case Some((v, rest)) => Some((Some(v), rest))
    else None
  }

  lemma OptionRoundTrip(o: Option<seq<byte>>, rest: seq<byte>)
    requires o.Some? ==> |o.value| < 0x1_0000_0000
    ensures DecodeOption(EncodeOption(o) + rest) == Some((o, rest))
  {
    hide EncodeBytes, DecodeBytes;
    var s := EncodeOption(o) + rest;
    if o.Some? {
      assert s[1..] == EncodeBytes(o.value) + rest;
      BytesRoundTrip(o.value, rest);
    }
  }

  function EncodeRequest(m: FragmentRequest): seq<byte>
  {
    match m
    case Get(id) => [0] + id
    case Put(id, data) => [1] + id + EncodeBytes(data)
  }

  function DecodeRequest(s: seq<byte>): Decoded<FragmentRequest>
  {
    if |s| < 33 then None
    else if s[0] == 0 then Some((Get(s[1..33]), s[33..]))
    else if s[0] == 1 then
      match DecodeBytes(s[33..])
      case None => None
      case Some((data, rest)) => Some((Put(s[1..33], data), rest))
    else None
  }

  function EncodeResponse(m: FragmentResponse): seq<byte>
  {
    match m
    case Data(fragment) => [0] + EncodeOption(fragment)
    case Ack(success, error) => [1, if success then 1 else 0] + EncodeOption(error)
  }

  function DecodeResponse(s: seq<byte>): Decoded<FragmentResponse>
  {
    if s == [] then None
    else if s[0] == 0 then
      match DecodeOption(s[1..])
      case None => None
      case Some((fragment, rest)) => Some((Data(fragment), rest))
    else if s[0] == 1 && |s| >= 2 && s[1] <= 1 then
      match DecodeOption(s[2..])
      case None => None
      case Some((error, rest)) =>
        match error
        case None => Some((Ack(s[1] == 1, None), rest))
        case Some(text) => if IsUtf8(text) then Some((Ack(s[1] == 1, Some(text)), rest)) else None
    else None
  }

  // ------------------------------------------------------------------ layout --

  /** Compact lengths: the number times four as one byte; plus one, as two; plus two, as four; or a byte of three and the
      number as four bytes. All little-endian, in the shortest form. */
  lemma CompactLayout(n: u32)
    ensures var s := EncodeCompact(n);
      if n < 64 then |s| == 1 && LeValue(s) == 4 * n
      else if n < 16_384 then |s| == 2 && LeValue(s) == 4 * n + 1
      else if n < 1_073_741_824 then |s| == 4 && LeValue(s) == 4 * n + 2
      else |s| == 5 && s[0] == 3 && LeValue(s[1..]) == n
  {
    hide LeValue, Le16, Le32;
    if n < 64 {
      OneByte(4 * n);
    } else if n < 16_384 {
      FixedWidthValues(n * 4 + 1, 0);
    } else if n < 1_073_741_824 {
      FixedWidthValues(0, n * 4 + 2);
    } else {
      FixedWidthValues(0, n);
      assert EncodeCompact(n)[1..] == Le32(n);
    }
  }

  lemma OneByte(b: byte)
    ensures LeValue([b]) == b
  {
    assert LeValue([b][1..]) == 0;
  }

  /** Requests are a tag byte and their fields; byte strings their compact length and the bytes. */
  lemma RequestLayout(id: FragmentId, data: seq<byte>)
    requires |data| < 4_294_967_296
    ensures EncodeRequest(Get(id)) == [0] + id
    ensures EncodeRequest(Put(id, data)) == [1] + id + EncodeCompact(|data|) + data
  {
    hide EncodeCompact;
  }

  /** Responses are a tag byte and their fields; options a tag byte and the value, if any. */
  lemma ResponseLayout(data: seq<byte>, success: bool, text: Text)
    requires |data| < 4_294_967_296 && |text| < 4_294_967_296
    ensures EncodeResponse(Data(None)) == [0, 0]
    ensures EncodeResponse(Data(Some(data))) == [0, 1] + EncodeCompact(|data|) + data
    ensures EncodeResponse(Ack(success, None)) == [1, if success then 1 else 0, 0]
    ensures EncodeResponse(Ack(success, Some(text))) == [1, if success then 1 else 0, 1] + EncodeCompact(|text|) + text
  {
    hide EncodeCompact;
  }

  // -------------------------------------------------- decoded means encoded --

  lemma LeModes(s: seq<byte>)
    requires s != []
    ensures |s| >= 2 ==> FromLe16(s[..2]) % 4 == s[0] % 4
    ensures |s| >= 4 ==> FromLe32(s[..4]) % 4 == s[0] % 4
  {
  }

  /** A length has one encoding: the decoder takes no other. */
  lemma CompactIsCanonical(s: seq<byte>)
    requires DecodeCompact(s).Some?
    ensures var (n, rest) := DecodeCompact(s).value; EncodeCompact(n) + rest == s
  {
    hide Le16, Le32, FromLe16, FromLe32;
    var (n, rest) := DecodeCompact(s).value;
    LeModes(s);
    if s[0] % 4 == 0 {
      assert [s[0]] + s[1..] == s;
    } else if s[0] % 4 == 1 {
      assert n * 4 + 1 == FromLe16(s[..2]);
      Le16OfBytes(s[..2]);
      assert s[..2] + s[2..] == s;
    } else if s[0] % 4 == 2 {
      assert n * 4 + 2 == FromLe32(s[..4]);
      Le32OfBytes(s[..4]);
      assert s[..4] + s[4..] == s;
    } else {
      Le32OfBytes(s[1..5]);
      assert [s[0]] + s[1..5] + s[5..] == s;
    }
  }

  lemma BytesCanonical(s: seq<byte>)
    requires DecodeBytes(s).Some?
    ensures var (v, rest) := DecodeBytes(s).value; EncodeBytes(v) + rest == s
  {
    hide EncodeCompact, DecodeCompact;
    CompactIsCanonical(s);
    var (n, tail) := DecodeCompact(s).value;
    assert tail[..n] + tail[n..] == tail;
  }

  lemma OptionCanonical(s: seq<byte>)
    requires DecodeOption(s).Some?
    ensures var (o, rest) := DecodeOption(s).value; EncodeOption(o) + rest == s
  {
    hide EncodeBytes, DecodeBytes;
    assert [s[0]] + s[1..] == s;
    if s[0] == 1 {
      BytesCanonical(s[1..]);
    }
  }

  /** Whatever decodes to a request is its encoding, with the bytes left over behind it. */
  lemma RequestCanonical(s: seq<byte>)
    requires DecodeRequest(s).Some?
    ensures var (m, rest) := DecodeRequest(s).value; EncodeRequest(m) + rest == s
  {
    hide EncodeBytes, DecodeBytes;
    assert [s[0]] + s[1..33] + s[33..] == s;
    if s[0] == 1 {
      BytesCanonical(s[33..]);
    }
  }

  lemma ResponseCanonical(s: seq<byte>)
    requires DecodeResponse(s).Some?
    ensures var (m, rest) := DecodeResponse(s).value; EncodeResponse(m) + rest == s
  {
    hide EncodeOption, DecodeOption;
    if s[0] == 0 {
      assert [s[0]] + s[1..] == s;
      OptionCanonical(s[1..]);
    } else {
      assert [s[0], s[1]] + s[2..] == s;
      OptionCanonical(s[2..]);
    }
  }

  // ------------------------------------------------------------------- frames --

  /** What `encode` and `decode` mean for one message type. */
  datatype Codec<!M> = Codec(encode: M -> seq<byte>, decode: seq<byte> -> Decoded<M>)

  datatype IoError = UnexpectedEof | InvalidData

  /** The bytes `write_framed` puts on the wire. */
  function WriteFrame<M>(codec: Codec<M>, msg: M): Result<seq<byte>, IoError>
  {
    var data := codec.encode(msg);
    if |data| > MAX_MESSAGE_SIZE then Err(InvalidData) else Ok(Be32(|data|) + data)
  }

  /** What `read_framed` makes of the incoming bytes, and what it leaves unread. */
  function ReadFrame<M>(codec: Codec<M>, input: seq<byte>): (Result<M, IoError>, seq<byte>)
  {
    if |input| < 4 then (Err(UnexpectedEof), [])
    else
      var length := FromBe32(input[..4]);
      if length > MAX_MESSAGE_SIZE then (Err(InvalidData), input[4..])
      else if |input| - 4 < length then (Err(UnexpectedEof), [])
      else
        match codec.decode(input[4..4 + length])
        case None => (Err(InvalidData), input[4 + length..])
        case Some((msg, _)) => (Ok(msg), input[4 + length..])
  }

  /** A frame is the payload behind its length as a four-byte big-endian number; payloads over 128 MiB and 1024 bytes are
      refused. */
  lemma FrameLayout<M>(codec: Codec<M>, msg: M)
    ensures var data, frame := codec.encode(msg), WriteFrame(codec, msg);
      if |data| <= 134_218_752 then
        frame.Ok? && |frame.value| == 4 + |data| && Value(frame.value[..4], 256) == |data| && frame.value[4..] == data
      else frame == Err(InvalidData)
  {
    hide Be32, Value;
    var data := codec.encode(msg);
    if |data| <= 134_218_752 {
      FixedWidthValues(0, |data|);
      assert (Be32(|data|) + data)[..4] == Be32(|data|);
    }
  }

  /** What the reader answers: too few bytes for prefix or payload end the stream early; a length beyond the limit or a
      payload that does not decode is invalid; otherwise the message comes back and the bytes behind the frame stay. */
  lemma ReadExactly<M>(codec: Codec<M>, input: seq<byte>)
    ensures |input| < 4 ==> ReadFrame(codec, input) == (Err(UnexpectedEof), [])
    ensures |input| >= 4 ==>
              var length := Value(input[..4], 256);
              && length >= 0
              && (length > 134_218_752 ==> ReadFrame(codec, input) == (Err(InvalidData), input[4..]))
              && (|input| - 4 < length <= 134_218_752 ==> ReadFrame(codec, input) == (Err(UnexpectedEof), []))
              && (length <= 134_218_752 && length <= |input| - 4 ==>
                   var decoded := codec.decode(input[4..4 + length]);
                   ReadFrame(codec, input) ==
                   (if decoded == None then Err(InvalidData) else Ok(decoded.value.0), input[4 + length..]))
  {
    hide Be32, FromBe32, Value;
    if |input| >= 4 {
      Be32OfBytes(input[..4]);
      FixedWidthValues(0, FromBe32(input[..4]));
    }
  }

  /** A connection: bytes not yet read, bytes already written. */
  class Stream {
    var incoming: seq<byte>
    var outgoing: seq<byte>

    constructor (input: seq<byte>)
      ensures incoming == input && outgoing == []
    {
      incoming, outgoing := input, [];
    }

    method ReadExact(buf: array<byte>) returns (ok: bool)
      modifies this`incoming, buf
      ensures ok == (buf.Length <= |old(incoming)|)
      ensures if ok then old(incoming) == buf[..] + incoming else incoming == []
    {
      var n := buf.Length;
      if |incoming| < n {
        incoming := [];
        return false;
      }
      var taken := incoming[..n];
      forall i | 0 <= i < n {
        buf[i] := taken[i];
      }
      assert buf[..] == taken;
      incoming := incoming[n..];
      return true;
    }

    method WriteAll(data: seq<byte>)
      modifies this`outgoing
      ensures outgoing == old(outgoing) + data
    {
      outgoing := outgoing + data;
    }
  }

  method ReadFramed<M>(io: Stream, codec: Codec<M>) returns (r: Result<M, IoError>)
    modifies io`incoming
    ensures (r, io.incoming) == ReadFrame(codec, old(io.incoming))
  {
    ghost var input := io.incoming;
    var lengthBuf := new byte[4];
    var ok := io.ReadExact(lengthBuf);
    if !ok {
      return Err(UnexpectedEof);
    }
    var length := FromBe32(lengthBuf[..]);
    assert input[..4] == lengthBuf[..] && input[4..] == io.incoming;
    if length > MAX_MESSAGE_SIZE {
      return Err(InvalidData);
    }
    var buf := new byte[length];
    ok := io.ReadExact(buf);
    if !ok {
      return Err(UnexpectedEof);
    }
    assert input[4..4 + length] == buf[..] && input[4 + length..] == io.incoming;
    var decoded := codec.decode(buf[..]);
    match decoded
    case None => return Err(InvalidData);
    case Some((msg, _)) => return Ok(msg);
  }

  method WriteFramed<M>(io: Stream, codec: Codec<M>, msg: M) returns (r: Result<(), IoError>)
    modifies io`outgoing
    ensures match WriteFrame(codec, msg)
            case Ok(frame) => r == Ok(()) && io.outgoing == old(io.outgoing) + frame
            case Err(e) => r == Err(e) && io.outgoing == old(io.outgoing)
  {
    var data := codec.encode(msg);
    if |data| > MAX_MESSAGE_SIZE {
      return Err(InvalidData);
    }
    var length := Be32(|data|);
    io.WriteAll(length);
    io.WriteAll(data);
    assert io.outgoing == old(io.outgoing) + (length + data);
    return Ok(());
  }

  // ---------------------------------------------------------------- round trip --

  /** The codec reads back what it wrote, leaving later bytes alone. */
  ghost predicate Faithful<M(!new)>(codec: Codec<M>)
  {
    forall m: M, rest: seq<byte> :: |codec.encode(m)| <= MAX_MESSAGE_SIZE ==> codec.decode(codec.encode(m) + rest) == Some((m, rest))
  }

  function RequestCodec(): Codec<FragmentRequest> { Codec(EncodeRequest, DecodeRequest) }

  function ResponseCodec(): Codec<FragmentResponse> { Codec(EncodeResponse, DecodeResponse) }

  lemma RequestFaithful()
    ensures Faithful(RequestCodec())
  {
    forall m: FragmentRequest, rest: seq<byte> | |EncodeRequest(m)| <= MAX_MESSAGE_SIZE
      ensures DecodeRequest(EncodeRequest(m) + rest) == Some((m, rest))
    {
      RequestRoundTrip(m, rest);
    }
  }

  lemma RequestRoundTrip(m: FragmentRequest, rest: seq<byte>)
    requires |EncodeRequest(m)| <= MAX_MESSAGE_SIZE
    ensures DecodeRequest(EncodeRequest(m) + rest) == Some((m, rest))
  {
    hide EncodeBytes, DecodeBytes;
    var s := EncodeRequest(m) + rest;
    assert s[1..33] == m.fragmentId;
    if m.Put? {
      assert s[33..] == EncodeBytes(m.data) + rest;
      BytesRoundTrip(m.data, rest);
    } else {
      assert s[33..] == rest;
    }
  }

  lemma ResponseFaithful()
    ensures Faithful(ResponseCodec())
  {
    forall m: FragmentResponse, rest: seq<byte> | |EncodeResponse(m)| <= MAX_MESSAGE_SIZE
      ensures DecodeResponse(EncodeResponse(m) + rest) == Some((m, rest))
    {
      ResponseRoundTrip(m, rest);
    }
  }

  lemma ResponseRoundTrip(m: FragmentResponse, rest: seq<byte>)
    requires |EncodeResponse(m)| <= MAX_MESSAGE_SIZE
    ensures DecodeResponse(EncodeResponse(m) + rest) == Some((m, rest))
  {
    hide EncodeOption, DecodeOption;
    var s := EncodeResponse(m) + rest;
    match m
    case Data(fragment) =>
      assert s[1..] == EncodeOption(fragment) + rest;
      OptionRoundTrip(fragment, rest);
    case Ack(_, error) =>
      assert s[2..] == EncodeOption(error) + rest;
      OptionRoundTrip(error, rest);
  }

  /** The reader's bound admits every frame the writer emits, and the prefix never truncates. */
  lemma FrameRoundTrip<M(!new)>(codec: Codec<M>, msg: M, rest: seq<byte>)
    requires Faithful(codec) && WriteFrame(codec, msg).Ok?
    ensures ReadFrame(codec, WriteFrame(codec, msg).value + rest) == (Ok(msg), rest)
  {
    hide Be32, FromBe32;
    var data := codec.encode(msg);
    var input := Be32(|data|) + data + rest;
    Be32RoundTrip(|data|);
    assert input[..4] == Be32(|data|) && input[4..4 + |data|] == data && input[4 + |data|..] == rest;
    assert data + [] == data;
  }

  /** The codec decodes a message from nothing but its encoding. */
  ghost predicate Canonical<M(!new)>(codec: Codec<M>)
  {
    forall s: seq<byte> :: codec.decode(s).Some? ==>
      codec.encode(codec.decode(s).value.0) + codec.decode(s).value.1 == s
  }

  lemma CodecsAreCanonical()
    ensures Canonical(RequestCodec()) && Canonical(ResponseCodec())
  {
    forall s: seq<byte> | DecodeRequest(s).Some?
      ensures EncodeRequest(DecodeRequest(s).value.0) + DecodeRequest(s).value.1 == s
    {
      RequestCanonical(s);
    }
    forall s: seq<byte> | DecodeResponse(s).Some?
      ensures EncodeResponse(DecodeResponse(s).value.0) + DecodeResponse(s).value.1 == s
    {
      ResponseCanonical(s);
    }
  }

  /** A message is read only from a frame that holds its encoding and possibly padding, which is skipped: what was read
      is exactly the written frame if and only if there is no padding. */
  lemma FrameContents<M(!new)>(codec: Codec<M>, input: seq<byte>) returns (padding: seq<byte>)
    requires Canonical(codec) && ReadFrame(codec, input).0.Ok?
    ensures var msg, rest := ReadFrame(codec, input).0.value, ReadFrame(codec, input).1;
      var data := codec.encode(msg);
      && |data| + |padding| <= MAX_MESSAGE_SIZE
      && input == Be32(|data| + |padding|) + (data + padding) + rest
      && WriteFrame(codec, msg).Ok?
      && (WriteFrame(codec, msg).value + rest == input <==> padding == [])
  {
    hide Be32, FromBe32;
    var length := FromBe32(input[..4]);
    var body := input[4..4 + length];
    padding := codec.decode(body).value.1;
    var data := codec.encode(codec.decode(body).value.0);
    assert data + padding == body;
    Be32OfBytes(input[..4]);
    assert input == input[..4] + body + input[4 + length..];
    if padding == [] {
      assert data + padding == data;
    } else {
      assert |WriteFrame(codec, codec.decode(body).value.0).value| < 4 + length;
    }
  }

  /** The frames of a list of messages, one after the other. */
  ghost function WriteFrames<M>(codec: Codec<M>, msgs: seq<M>): seq<byte>
    requires forall i :: 0 <= i < |msgs| ==> WriteFrame(codec, msgs[i]).Ok?
  {
    if msgs == [] then [] else WriteFrame(codec, msgs[0]).value + WriteFrames(codec, msgs[1..])
  }

  /** n calls of the reader, stopping at the first error. */
  ghost function ReadFrames<M>(codec: Codec<M>, n: nat, input: seq<byte>): (Result<seq<M>, IoError>, seq<byte>)
  {
    if n == 0 then (Ok([]), input)
    else
      match ReadFrame(codec, input)
      case (Err(e), rest) => (Err(e), rest)
      case (Ok(msg), rest) =>
        match ReadFrames(codec, n - 1, rest)
        case (Err(e), rest') => (Err(e), rest')
        case (Ok(msgs), rest') => (Ok([msg] + msgs), rest')
  }

  /** Reading back any concatenation of accepted frames yields the messages in order. */
  lemma {:induction false} StreamRoundTrip<M(!new)>(codec: Codec<M>, msgs: seq<M>, rest: seq<byte>)
    requires Faithful(codec)
    requires forall i :: 0 <= i < |msgs| ==> WriteFrame(codec, msgs[i]).Ok?
    ensures ReadFrames(codec, |msgs|, WriteFrames(codec, msgs) + rest) == (Ok(msgs), rest)
  {
    hide Faithful, ReadFrame, WriteFrame;
    if msgs == [] {
      assert WriteFrames(codec, msgs) + rest == rest;
    } else {
      var tail := WriteFrames(codec, msgs[1..]) + rest;
      assert WriteFrames(codec, msgs) + rest == WriteFrame(codec, msgs[0]).value + tail;
      FrameRoundTrip(codec, msgs[0], tail);
      StreamRoundTrip(codec, msgs[1..], rest);
      assert [msgs[0]] + msgs[1..] == msgs;
    }
  }

  /** The largest fragment a request or a response can carry; 128 MiB always fits. */
  lemma FragmentsFit(id: FragmentId, data: seq<byte>)
    ensures WriteFrame(RequestCodec(), Get(id)).Ok?
    ensures WriteFrame(RequestCodec(), Put(id, data)).Ok? <==> |data| <= 134_217_728 + 987
    ensures WriteFrame(ResponseCodec(), Data(None)).Ok?
    ensures WriteFrame(ResponseCodec(), Data(Some(data))).Ok? <==> |data| <= 134_217_728 + 1018
    ensures |data| <= 134_217_728 ==>
              WriteFrame(RequestCodec(), Put(id, data)).Ok? && WriteFrame(ResponseCodec(), Data(Some(data))).Ok?
  {
    assert |EncodeRequest(Get(id))| == 33;
    assert |EncodeRequest(Put(id, data))| == 33 + |EncodeBytes(data)|;
    assert |EncodeResponse(Data(Some(data)))| == 2 + |EncodeBytes(data)|;
  }
}
