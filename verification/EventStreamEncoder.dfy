/** The event-stream encoder, and the proof that the decoder inverts it on every stream. */
module EventStreamEncoder {
  import opened Base
  import Utf8
  import opened Headers = EventStreamHeaders
  import opened EventStream

  /** What the gateway sends a native client: a named event, or a modeled exception with its body. */
  datatype Message =
    | Event(name: seq<Byte>, payload: seq<Byte>)
    | Exception(name: seq<Byte>, payload: seq<Byte>)

  function StringHeader(name: seq<Byte>, value: seq<Byte>): Header {
    Header(name, HDR_TYPE_STRING, value)
  }

  /** The three headers of a message. */
  function HeadersOf(m: Message): seq<Header> {
    [ StringHeader(if m.Event? then HDR_EVENT_TYPE else HDR_EXCEPTION_TYPE, m.name),
      StringHeader(HDR_CONTENT_TYPE, APPLICATION_JSON),
      StringHeader(HDR_MESSAGE_TYPE, if m.Event? then MSG_TYPE_EVENT else MSG_TYPE_EXCEPTION) ]
  }

  /** The octets of a frame with this header block and payload. */
  function FrameBytes(crc: Crc, block: seq<Byte>, payload: seq<Byte>): seq<Byte>
    requires MIN_FRAME_BYTES + |block| + |payload| <= MAX_FRAME_BYTES
  {
    var lengths := Be32(MIN_FRAME_BYTES + |block| + |payload|) + Be32(|block|);
    var body := lengths + Be32(crc(lengths)) + block + payload;
    body + Be32(crc(body))
  }

  /** A message is sent exactly when its name fits a string header and its frame fits the cap. */
  predicate Fits(m: Message) {
    |m.name| < 0x1_0000 && MIN_FRAME_BYTES + |Block(HeadersOf(m))| + |m.payload| <= MAX_FRAME_BYTES
  }

  function Encoded(crc: Crc, m: Message): seq<Byte> {
    if Fits(m) then FrameBytes(crc, Block(HeadersOf(m)), m.payload) else []
  }

  /** The one token an exception name is to be reported as. */
  ghost function Normalized(name: seq<Byte>): (token: seq<Byte>)
    ensures NormalizedFrom(token, name)
  {
    TokenNormalized(name);
    var token :| NormalizedFrom(token, name);
    token
  }

  /** What a decoder is to report for a message. */
  ghost function Meaning(m: Message): Frame {
    Frame(if m.Event? then m.name else Normalized(m.name), m.payload)
  }

  // ---- The encoder as written ----

  method PushStringHeader(headers: seq<Byte>, name: seq<Byte>, value: seq<Byte>)
    returns (pushed: seq<Byte>, ok: bool)
    ensures ok <==> |name| < 256 && |value| < 0x1_0000
    ensures pushed == headers + if ok then Wire(StringHeader(name, value)) else []
  {
    if |name| > 255 || |value| > 65535 {
      return headers, false;
    }
    var length := [|value| / 256, |value| % 256];
    pushed := headers + [|name|];
    pushed := pushed + name;
    pushed := pushed + [HDR_TYPE_STRING];
    pushed := pushed + length;
    pushed := pushed + value;
    ok := true;
    RegroupHeader(headers, [|name|], name, [HDR_TYPE_STRING], length, value);
  }

  lemma RegroupHeader(p: seq<Byte>, a: seq<Byte>, b: seq<Byte>, c: seq<Byte>, d: seq<Byte>, e: seq<Byte>)
    ensures p + a + b + c + d + e == p + (a + b + c + d + e)
  {
  }

  /** Overwrite the octets of `frame` from `at` on. */
  function CopyInto(frame: seq<Byte>, at: nat, bytes: seq<Byte>): seq<Byte>
    requires at + |bytes| <= |frame|
  {
    frame[..at] + bytes + frame[at + |bytes|..]
  }

  /** Close a frame whose header block follows a prelude placeholder: backfill the prelude, then
      append payload and checksum. An oversized frame is dropped. */
  method FrameClose(crc: Crc, opened_: seq<Byte>, payload: seq<Byte>) returns (frame: seq<Byte>)
    requires |opened_| >= PRELUDE_LEN
    ensures var block := opened_[PRELUDE_LEN..];
      frame == if MIN_FRAME_BYTES + |block| + |payload| <= MAX_FRAME_BYTES
               then FrameBytes(crc, block, payload) else []
  {
    frame := opened_;
    var headersLen := |frame| - PRELUDE_LEN;
    var totalLen := PRELUDE_LEN + headersLen + |payload| + CRC_BYTES;
    if totalLen > MAX_FRAME_BYTES {
      return [];
    }
    frame := CopyInto(frame, 0, Be32(totalLen));
    frame := CopyInto(frame, 4, Be32(headersLen));
    ghost var lengths := Be32(totalLen) + Be32(headersLen);
    assert frame[..8] == lengths;
    frame := CopyInto(frame, 8, Be32(crc(frame[..8])));
    assert frame == lengths + Be32(crc(lengths)) + opened_[PRELUDE_LEN..];
    frame := frame + payload;
    frame := frame + Be32(crc(frame));
  }

  method EncodeFrame(crc: Crc, eventType: seq<Byte>, payload: seq<Byte>) returns (frame: seq<Byte>)
    ensures frame == Encoded(crc, Event(eventType, payload))
  {
    frame := EncodeMessage(crc, Event(eventType, payload));
  }

  /** `payload` is the serialized `{"message": ...}` body of the exception. */
  method EncodeExceptionFrame(crc: Crc, exceptionType: seq<Byte>, payload: seq<Byte>)
    returns (frame: seq<Byte>)
    ensures frame == Encoded(crc, Exception(exceptionType, payload))
  {
    frame := EncodeMessage(crc, Exception(exceptionType, payload));
  }

  /** Append three string headers, stopping at the first that does not fit. */
  method PushThree(start: seq<Byte>, hs: seq<Header>) returns (frame: seq<Byte>, ok: bool)
    requires |hs| == 3 && forall i :: 0 <= i < 3 ==> hs[i].kind == HDR_TYPE_STRING
    ensures ok <==> AllSendable(hs)
    ensures ok ==> frame == start + Block(hs)
  {
    frame, ok := PushStringHeader(start, hs[0].name, hs[0].bytes);
    if !ok {
      assert !Sendable(hs[0]);
      return;
    }
    frame, ok := PushStringHeader(frame, hs[1].name, hs[1].bytes);
    if !ok {
      assert !Sendable(hs[1]);
      return;
    }
    frame, ok := PushStringHeader(frame, hs[2].name, hs[2].bytes);
    if !ok {
      assert !Sendable(hs[2]);
      return;
    }
    assert hs == [hs[0], hs[1], hs[2]];
    BlockOfThree(hs);
    AppendThree(start, Wire(hs[0]), Wire(hs[1]), Wire(hs[2]));
  }

  lemma AppendThree<T>(start: seq<T>, a: seq<T>, b: seq<T>, c: seq<T>)
    ensures start + a + b + c == start + (a + b + c)
  {
  }

  method EncodeMessage(crc: Crc, m: Message) returns (frame: seq<Byte>)
    ensures frame == Encoded(crc, m)
  {
    var prelude: seq<Byte> := seq(PRELUDE_LEN, _ => 0);
    var ok: bool;
    frame, ok := PushThree(prelude, HeadersOf(m));
    if !ok {
      return [];
    }
    assert frame[PRELUDE_LEN..] == Block(HeadersOf(m));
    frame := FrameClose(crc, frame, m.payload);
  }

  lemma BlockOfThree(hs: seq<Header>)
    requires |hs| == 3 && AllSendable(hs)
    ensures Block(hs) == Wire(hs[0]) + Wire(hs[1]) + Wire(hs[2])
  {
    assert hs[1..][1..] == hs[2..] && hs[2..][1..] == [];
    assert Block(hs[2..]) == Wire(hs[2]);
    assert Block(hs[1..]) == Wire(hs[1]) + Block(hs[2..]);
  }

  // ---- The decoder inverts the encoder ----

  lemma Be32RoundTrip(n: U32)
    ensures U32At(Be32(n), 0) == n
  {
    assert n == 256 * (n / 256) + n % 256;
    assert n / 256 == 256 * (n / 0x1_0000) + n / 256 % 256;
    assert n / 0x1_0000 == 256 * (n / 0x100_0000) + n / 0x1_0000 % 256;
  }

  lemma U32AtSlice(f: seq<Byte>, i: nat)
    requires i + 4 <= |f|
    ensures U32At(f, i) == U32At(f[i..i + 4], 0)
  {
  }

  lemma PreludeSlices(total: seq<Byte>, hl: seq<Byte>, crc: seq<Byte>, rest: seq<Byte>)
    requires |total| == |hl| == |crc| == 4
    ensures var f := total + hl + crc + rest;
      f[0..4] == total && f[4..8] == hl && f[PRELUDE_LEN..] == rest
  {
  }

  lemma BodySlices(block: seq<Byte>, payload: seq<Byte>, tail: seq<Byte>)
    ensures var b := block + payload + tail;
      b[..|block|] == block && b[|block|..|b| - |tail|] == payload
  {
  }

  lemma Regroup(p: seq<Byte>, block: seq<Byte>, payload: seq<Byte>, tail: seq<Byte>)
    ensures p + block + payload + tail == p + (block + payload + tail)
  {
  }

  /** Octets whose lengths and parts lie where a frame has them are that frame. */
  lemma Layout(f: seq<Byte>, block: seq<Byte>, payload: seq<Byte>)
    requires |f| == MIN_FRAME_BYTES + |block| + |payload| <= MAX_FRAME_BYTES
    requires U32At(f[0..4], 0) == |f| && U32At(f[4..8], 0) == |block|
    requires f[PRELUDE_LEN..][..|block|] == block && f[PRELUDE_LEN..][|block|..|block| + |payload|] == payload
    ensures IsFrame(f) && FrameOf(f) == Frame(EventTypeOf(Scan(block, NO_HEADERS)), payload)
  {
    hide Scan, EventTypeOf, U32At;
    U32AtSlice(f, 0);
    U32AtSlice(f, 4);
    assert f[PRELUDE_LEN..PRELUDE_LEN + |block|] == block;
    assert f[PRELUDE_LEN + |block|..|f| - CRC_BYTES] == payload;
  }

  /** A frame's octets are exactly one frame, and decode to its block and payload. */
  lemma FrameBytesDecode(crc: Crc, block: seq<Byte>, payload: seq<Byte>)
    requires MIN_FRAME_BYTES + |block| + |payload| <= MAX_FRAME_BYTES
    ensures var f := FrameBytes(crc, block, payload);
      IsFrame(f) && FrameOf(f) == Frame(EventTypeOf(Scan(block, NO_HEADERS)), payload)
  {
    hide Be32, U32At, IsFrame, FrameOf, Scan, EventTypeOf;
    var n: U32, k: U32 := MIN_FRAME_BYTES + |block| + |payload|, |block|;
    var lengths := Be32(n) + Be32(k);
    var prelude := lengths + Be32(crc(lengths));
    var tail := Be32(crc(prelude + block + payload));
    var f := prelude + (block + payload + tail);
    Regroup(prelude, block, payload, tail);
    Be32RoundTrip(n);
    Be32RoundTrip(k);
    PreludeSlices(Be32(n), Be32(k), Be32(crc(lengths)), block + payload + tail);
    BodySlices(block, payload, tail);
    Layout(f, block, payload);
  }

  lemma {:induction false} AllWhole(hs: seq<Header>)
    requires AllSendable(hs)
    ensures Whole(hs, |Block(hs)|) == |hs|
  {
    if hs != [] {
      AllWhole(hs[1..]);
    }
  }

  lemma LatestOfThree(hs: seq<Header>, name: seq<Byte>)
    requires |hs| == 3 && hs[1].name != name
    requires forall i :: 0 <= i < 3 ==> Variable(hs[i]) && (i != 1 ==> Utf8.Valid(hs[i].bytes))
    ensures Latest(hs, name) ==
      if hs[2].name == name then Some(hs[2].bytes)
      else if hs[0].name == name then Some(hs[0].bytes)
      else None
  {
    var two, one := hs[..2], hs[..2][..1];
    assert two == [hs[0], hs[1]] && one == [hs[0]] && one[..0] == [];
    assert Latest(two, name) == Latest(one, name);
  }

  lemma ContentTypeDiffers()
    ensures HDR_CONTENT_TYPE !in {HDR_EVENT_TYPE, HDR_MESSAGE_TYPE, HDR_EXCEPTION_TYPE}
  {
    assert HDR_CONTENT_TYPE[1] == 'c' as int && HDR_EVENT_TYPE[1] == 'e' as int;
    assert HDR_EXCEPTION_TYPE[1] == 'e' as int && HDR_MESSAGE_TYPE[1] == 'm' as int;
  }

  lemma MessageTypes()
    ensures MSG_TYPE_EVENT != MSG_TYPE_EXCEPTION
    ensures Utf8.Valid(MSG_TYPE_EVENT) && Utf8.Valid(MSG_TYPE_EXCEPTION)
  {
    assert |MSG_TYPE_EVENT| == 5 && |MSG_TYPE_EXCEPTION| == 9;
    Utf8.AsciiValid(MSG_TYPE_EVENT);
    Utf8.AsciiValid(MSG_TYPE_EXCEPTION);
  }

  /** The decoder resolves a message's own headers to its meaning. */
  lemma HeadersResolve(m: Message)
    requires Fits(m) && Utf8.Valid(m.name)
    ensures EventTypeOf(Scan(Block(HeadersOf(m)), NO_HEADERS)) == Meaning(m).eventType
  {
    hide NormalizedFrom, ExceptionToken, Latest, Scan;
    var hs := HeadersOf(m);
    AllWhole(hs);
    TruncatedBlock(hs, |Block(hs)|);
    assert Block(hs)[..|Block(hs)|] == Block(hs) && hs[..|hs|] == hs;
    NamesDiffer();
    ContentTypeDiffers();
    MessageTypes();
    LatestOfThree(hs, HDR_EVENT_TYPE);
    LatestOfThree(hs, HDR_MESSAGE_TYPE);
    LatestOfThree(hs, HDR_EXCEPTION_TYPE);
    if m.Exception? {
      TokenNormalized(m.name);
      NormalizedUnique(ExceptionToken(m.name), Normalized(m.name), m.name);
    }
  }

  lemma EncodedDecodes(crc: Crc, m: Message, rest: seq<Byte>)
    requires Utf8.Valid(m.name)
    ensures var d := Drain(rest);
      Drain(Encoded(crc, m) + rest) ==
      if Fits(m) then Drained([Meaning(m)] + d.frames, d.status, d.rest, Encoded(crc, m) + d.sink) else d
  {
    if Fits(m) {
      FrameBytesDecode(crc, Block(HeadersOf(m)), m.payload);
      HeadersResolve(m);
      DrainFrame(Encoded(crc, m), rest);
    } else {
      assert [] + rest == rest;
    }
  }

  function Stream(crc: Crc, ms: seq<Message>): seq<Byte> {
    if ms == [] then [] else Encoded(crc, ms[0]) + Stream(crc, ms[1..])
  }

  /** The meanings of the messages that were sent, in order. */
  ghost function Meanings(ms: seq<Message>): seq<Frame> {
    if ms == [] then [] else (if Fits(ms[0]) then [Meaning(ms[0])] else []) + Meanings(ms[1..])
  }

  lemma {:induction false} StreamDecodes(crc: Crc, ms: seq<Message>)
    requires forall i :: 0 <= i < |ms| ==> Utf8.Valid(ms[i].name)
    ensures Drain(Stream(crc, ms)) == Drained(Meanings(ms), Ok, [], Stream(crc, ms))
  {
    if ms != [] {
      StreamDecodes(crc, ms[1..]);
      EncodedDecodes(crc, ms[0], Stream(crc, ms[1..]));
    }
  }

  /** Round trip: a list of messages, encoded, concatenated and delivered in any chunks, decodes to
      the meanings of exactly those that fit, in order, with nothing left over. */
  lemma RoundTrip(crc: Crc, ms: seq<Message>, chunks: seq<seq<Byte>>)
    requires forall i :: 0 <= i < |ms| ==> Utf8.Valid(ms[i].name)
    requires Flatten(chunks) == Stream(crc, ms)
    ensures Feed(Drained([], Ok, [], []), chunks) == Drained(Meanings(ms), Ok, [], Stream(crc, ms))
  {
    ChunkingDoesNotMatter(chunks);
    StreamDecodes(crc, ms);
  }

  /** An exception with a name is never decoded to the empty token, which callers drop. */
  lemma ExceptionIsNeverDropped(m: Message)
    requires m.Exception? && m.name != []
    ensures Meaning(m).eventType != []
  {
    assert NormalizedFrom(Normalized(m.name), m.name);
    var a: nat, b: nat :| LastStretch(m.name, a, b) && FirstLowered(Normalized(m.name), Stretch(m.name, a, b));
  }

  /** An exception frame, decoded alone: its payload, and its name's last stretch with the first octet in
      lower case. */
  lemma ExceptionNameIsNormalized(crc: Crc, name: seq<Byte>, payload: seq<Byte>)
    requires Fits(Exception(name, payload)) && Utf8.Valid(name)
    ensures var d := Drain(Encoded(crc, Exception(name, payload)));
      && d.status == Ok && d.rest == [] && |d.frames| == 1
      && d.frames[0].payload == payload && NormalizedFrom(d.frames[0].eventType, name)
  {
    hide Encoded, NormalizedFrom;
    var m := Exception(name, payload);
    EncodedDecodes(crc, m, []);
    DrainNothing();
    assert Encoded(crc, m) + [] == Encoded(crc, m);
  }

  // ---- What is on the wire ----

  /** Lengths are big-endian. */
  lemma BigEndian()
    ensures Be32(0x0102_0304) == [1, 2, 3, 4] && U32At([1, 2, 3, 4], 0) == 0x0102_0304
    ensures U16At([1, 2], 0) == 0x0102
  {
  }

  /** The prelude checksum covers the two length fields, and the message checksum everything before it. */
  lemma ChecksumsCover(crc: Crc, block: seq<Byte>, payload: seq<Byte>)
    requires MIN_FRAME_BYTES + |block| + |payload| <= MAX_FRAME_BYTES
    ensures var f := FrameBytes(crc, block, payload);
      && |f| == 16 + |block| + |payload|
      && U32At(f, 0) == |f| && U32At(f, 4) == |block|
      && U32At(f, 8) == crc(f[..8]) && U32At(f, |f| - 4) == crc(f[..|f| - 4])
  {
    hide Be32, U32At;
    var n: U32, k: U32 := MIN_FRAME_BYTES + |block| + |payload|, |block|;
    var lengths := Be32(n) + Be32(k);
    var sum := Be32(crc(lengths));
    var body := lengths + sum + block + payload;
    var tail := Be32(crc(body));
    var f := FrameBytes(crc, block, payload);
    assert f == body + tail;
    Be32RoundTrip(n);
    Be32RoundTrip(k);
    Be32RoundTrip(crc(lengths));
    Be32RoundTrip(crc(body));
    assert f[..8] == lengths && f[..|f| - 4] == body;
    assert f[0..4] == Be32(n) && f[4..8] == Be32(k) && f[8..12] == sum && f[|f| - 4..|f|] == tail;
    U32AtSlice(f, 0);
    U32AtSlice(f, 4);
    U32AtSlice(f, 8);
    U32AtSlice(f, |f| - 4);
  }

  /** The header block of a message holds its name, the content type and the message type, each a
      type-7 string, in that order, and nothing else. */
  lemma ThreeHeaders(m: Message)
    requires Fits(m)
    ensures var (kind, what) := if m.Event? then (":event-type", "event") else (":exception-type", "exception");
      Block(HeadersOf(m)) ==
        Wire(Header(Octets(kind), 7, m.name))
        + Wire(Header(Octets(":content-type"), 7, Octets("application/json")))
        + Wire(Header(Octets(":message-type"), 7, Octets(what)))
  {
    BlockOfThree(HeadersOf(m));
  }
}
