/** The incremental decoder of AWS event-stream frames, and the event type a frame resolves to. */
module EventStream {
  import opened Base
  import opened Headers = EventStreamHeaders

  const MAX_FRAME_BYTES: nat := 16 * 1024 * 1024
  const PRELUDE_LEN: nat := 12
  const CRC_BYTES: nat := 4
  const MIN_FRAME_BYTES: nat := PRELUDE_LEN + CRC_BYTES
  const HDR_CONTENT_TYPE: seq<Byte> := Octets(":content-type")
  const APPLICATION_JSON: seq<Byte> := Octets("application/json")
  const MSG_TYPE_EVENT: seq<Byte> := Octets("event")
  const MSG_TYPE_EXCEPTION: seq<Byte> := Octets("exception")

  type U32 = x: int | 0 <= x < U32_MOD
  type Crc = seq<Byte> -> U32

  datatype Status = Ok | MalformedPrelude
  datatype Frame = Frame(eventType: seq<Byte>, payload: seq<Byte>)

  function Be32(n: U32): (b: seq<Byte>)
    ensures |b| == 4
  {
    [n / 0x100_0000, n / 0x1_0000 % 256, n / 256 % 256, n % 256]
  }

  function U32At(b: seq<Byte>, i: nat): (n: U32)
    requires i + 4 <= |b|
  {
    var b0: nat, b1: nat, b2: nat, b3: nat := b[i], b[i + 1], b[i + 2], b[i + 3];
    b0 * 0x100_0000 + b1 * 0x1_0000 + b2 * 256 + b3
  }

  // ---- Event-type resolution ----

  predicate Delimiter(b: Byte) {
    b == '#' as int || b == '/' as int
  }

  /** Where the text after the last delimiter starts. */
  function AfterLastDelimiter(s: seq<Byte>): (i: nat)
    ensures i <= |s| && (i > 0 ==> Delimiter(s[i - 1]))
    ensures forall k :: i <= k < |s| ==> !Delimiter(s[k])
  {
    if s == [] then 0
    else if Delimiter(s[|s| - 1]) then |s|
    else AfterLastDelimiter(s[..|s| - 1])
  }

  /** The last non-empty token between delimiters. */
  function LastToken(s: seq<Byte>): Option<seq<Byte>> {
    var i := AfterLastDelimiter(s);
    if i < |s| then Some(s[i..])
    else if i == 0 then None
    else LastToken(s[..i - 1])
  }

  function LowercaseFirst(s: seq<Byte>): (r: seq<Byte>)
    ensures |r| == |s|
  {
    if s != [] && 'A' as int <= s[0] <= 'Z' as int then [s[0] + 32] + s[1..] else s
  }

  function ExceptionToken(exception: seq<Byte>): seq<Byte> {
    var bare := LastToken(exception);
    LowercaseFirst(if bare.Some? then bare.value else exception)
  }

  function EventTypeOf(found: FrameHeaders): seq<Byte> {
    if found.messageType == Some(MSG_TYPE_EXCEPTION) && found.exceptionType.Some? then
      ExceptionToken(found.exceptionType.value)
    else if found.eventType.Some? then found.eventType.value
    else []
  }

  /** The bare name is the last delimiter-free stretch: only delimiters follow it, and it is whole.
      A name made only of delimiters has none, and is kept as it is. */
  lemma {:induction false} LastTokenMeaning(s: seq<Byte>) returns (a: nat, b: nat)
    ensures a <= b <= |s| && IsLastToken(s, a, b)
    ensures LastToken(s) == if a < b then Some(s[a..b]) else None
    ensures a == b ==> forall i :: 0 <= i < |s| ==> Delimiter(s[i])
  {
    var i := AfterLastDelimiter(s);
    if i < |s| {
      a, b := i, |s|;
      assert s[i..] == s[a..b];
    } else if i == 0 {
      a, b := 0, 0;
    } else {
      var t := s[..i - 1];
      a, b := LastTokenMeaning(t);
      assert forall k :: 0 <= k < |t| ==> s[k] == t[k];
      assert t[a..b] == s[a..b];
    }
  }

  predicate IsLastToken(s: seq<Byte>, a: nat, b: nat)
    requires a <= b <= |s|
  {
    && (a > 0 ==> Delimiter(s[a - 1]))
    && (forall k :: a <= k < b ==> !Delimiter(s[k]))
    && (forall k :: b <= k < |s| ==> Delimiter(s[k]))
  }

  // ---- What a frame's event type means, without the functions that resolve it ----

  /** `a..b` is the last stretch of `s` without `#` and `/`: only those follow it, and it is empty only
      when `s` has nothing else. */
  ghost predicate LastStretch(s: seq<Byte>, a: nat, b: nat) {
    && a <= b <= |s|
    && (a > 0 ==> s[a - 1] in {0x23, 0x2F})
    && (forall k :: a <= k < b ==> s[k] !in {0x23, 0x2F})
    && (forall k :: b <= k < |s| ==> s[k] in {0x23, 0x2F})
    && (a == b ==> forall k :: 0 <= k < |s| ==> s[k] in {0x23, 0x2F})
  }

  /** `token` is `name` with its first octet in ASCII lower case. */
  ghost predicate FirstLowered(token: seq<Byte>, name: seq<Byte>) {
    && |token| == |name|
    && (forall k :: 0 < k < |name| ==> token[k] == name[k])
    && (name != [] ==> token[0] == if 0x41 <= name[0] <= 0x5A then name[0] + 0x20 else name[0])
  }

  /** The stretch itself, or all of `s` when it is empty. */
  function Stretch(s: seq<Byte>, a: nat, b: nat): seq<Byte> {
    if a < b <= |s| then s[a..b] else s
  }

  /** `token` is what an exception name resolves to: its last stretch, or all of it when that is empty,
      with the first octet lowered. */
  ghost predicate NormalizedFrom(token: seq<Byte>, name: seq<Byte>) {
    exists a: nat, b: nat :: LastStretch(name, a, b) && FirstLowered(token, Stretch(name, a, b))
  }

  lemma TokenNormalized(name: seq<Byte>)
    ensures NormalizedFrom(ExceptionToken(name), name)
  {
    var a, b := LastTokenMeaning(name);
    assert LastStretch(name, a, b);
    assert FirstLowered(ExceptionToken(name), Stretch(name, a, b));
  }

  lemma StretchUnique(s: seq<Byte>, a: nat, b: nat, a': nat, b': nat)
    requires LastStretch(s, a, b) && LastStretch(s, a', b')
    ensures a < b <==> a' < b'
    ensures a < b ==> a == a' && b == b'
  {
    if a < b {
      assert s[b - 1] !in {0x23, 0x2F};
    }
    if a' < b' {
      assert s[b' - 1] !in {0x23, 0x2F};
    }
    if a < b && a' < b' {
      assert b == b';
    }
  }

  lemma LoweredUnique(t: seq<Byte>, t': seq<Byte>, name: seq<Byte>)
    requires FirstLowered(t, name) && FirstLowered(t', name)
    ensures t == t'
  {
    assert forall k :: 0 < k < |name| ==> t[k] == t'[k];
  }

  /** A name resolves to one token only. */
  lemma NormalizedUnique(token: seq<Byte>, token': seq<Byte>, name: seq<Byte>)
    requires NormalizedFrom(token, name) && NormalizedFrom(token', name)
    ensures token == token'
  {
    hide LastStretch, FirstLowered;
    var a: nat, b: nat :| LastStretch(name, a, b) && FirstLowered(token, Stretch(name, a, b));
    var a': nat, b': nat :| LastStretch(name, a', b') && FirstLowered(token', Stretch(name, a', b'));
    StretchUnique(name, a, b, a', b');
    LoweredUnique(token, token', Stretch(name, a, b));
  }

  /** For every list of typed headers and every truncation of its block: the event type is the
      normalized exception name when the message type is `exception` and there is one, otherwise the
      event-type header, otherwise nothing. */
  lemma FrameTypeMeaning(hs: seq<Header>, k: nat)
    requires AllSendable(hs) && k <= |Block(hs)|
    ensures var whole := hs[..Whole(hs, k)];
      var exception, event := Latest(whole, Octets(":exception-type")), Latest(whole, Octets(":event-type"));
      var t := EventTypeOf(Scan(Block(hs)[..k], NO_HEADERS));
      if Latest(whole, Octets(":message-type")) == Some(Octets("exception")) && exception.Some?
      then NormalizedFrom(t, exception.value)
      else t == if event.Some? then event.value else []
  {
    hide Scan, Latest, ExceptionToken, NormalizedFrom;
    TruncatedBlock(hs, k);
    var exception := Latest(hs[..Whole(hs, k)], Octets(":exception-type"));
    if exception.Some? {
      TokenNormalized(exception.value);
    }
  }

  // ---- Decoder ----

  datatype Drained = Drained(frames: seq<Frame>, status: Status, rest: seq<Byte>, sink: seq<Byte>)

  predicate BadPrelude(total: nat, headers: nat) {
    !(MIN_FRAME_BYTES <= total <= MAX_FRAME_BYTES) || headers > total - MIN_FRAME_BYTES
  }

  /** What the front of a buffer is: a frame of `size` octets, an impossible prelude, or too little
      to tell. */
  datatype Front = Partial | Malformed | Complete(size: nat)

  function FrontOf(buf: seq<Byte>): (f: Front)
    ensures f.Complete? ==> MIN_FRAME_BYTES <= f.size <= |buf| && IsFrame(buf[..f.size])
    ensures f.Partial? ==> |buf| < MAX_FRAME_BYTES
  {
    if |buf| < PRELUDE_LEN then Partial
    else
      var total, headers := U32At(buf, 0), U32At(buf, 4);
      if BadPrelude(total, headers) then Malformed
      else if |buf| < total then Partial
      else Complete(total)
  }

  /** The octets of exactly one frame. */
  predicate IsFrame(f: seq<Byte>) {
    |f| >= PRELUDE_LEN && U32At(f, 0) == |f| && !BadPrelude(|f|, U32At(f, 4))
  }

  function FrameOf(f: seq<Byte>): Frame
    requires IsFrame(f)
  {
    var headers := U32At(f, 4);
    var block := f[PRELUDE_LEN..PRELUDE_LEN + headers];
    Frame(EventTypeOf(Scan(block, NO_HEADERS)), f[PRELUDE_LEN + headers..|f| - CRC_BYTES])
  }

  /** One pass over a buffer: the frames it holds whole, why the pass stopped, what it leaves
      buffered, and the octets of the frames it took. */
  function Drain(buf: seq<Byte>): Drained
    decreases |buf|
  {
    match FrontOf(buf)
    case Partial => Drained([], Ok, buf, [])
    case Malformed => Drained([], MalformedPrelude, [], [])
    case Complete(n) => Prepend(buf[..n], Drain(buf[n..]))
  }

  function Prepend(f: seq<Byte>, d: Drained): Drained
    requires IsFrame(f)
  {
    Drained([FrameOf(f)] + d.frames, d.status, d.rest, f + d.sink)
  }

  /** What one pass did, followed by what another did. */
  function Then(d: Drained, e: Drained): Drained {
    Drained(d.frames + e.frames, e.status, e.rest, d.sink + e.sink)
  }

  lemma ThenPrepend(d: Drained, f: seq<Byte>, e: Drained)
    requires IsFrame(f)
    ensures Then(d, Prepend(f, e)) == Then(Drained(d.frames + [FrameOf(f)], d.status, d.rest, d.sink + f), e)
    ensures Then(Prepend(f, d), e) == Prepend(f, Then(d, e))
  {
    assert d.frames + ([FrameOf(f)] + e.frames) == (d.frames + [FrameOf(f)]) + e.frames;
    assert d.sink + (f + e.sink) == (d.sink + f) + e.sink;
    assert ([FrameOf(f)] + d.frames) + e.frames == [FrameOf(f)] + (d.frames + e.frames);
    assert (f + d.sink) + e.sink == f + (d.sink + e.sink);
  }

  lemma ThenNothing(d: Drained, e: Drained)
    requires e.frames == [] && e.sink == []
    ensures Then(d, e) == Drained(d.frames, e.status, e.rest, d.sink)
    ensures Then(e, d) == d
  {
  }

  /** The reassembly buffer and the optional verbatim sink of one upstream stream. */
  class StreamBuffer {
    var buf: seq<Byte>
    var sink: seq<Byte>
    const wantsSink: bool

    constructor (wantsSink: bool)
      ensures buf == [] && sink == [] && this.wantsSink == wantsSink
    {
      buf, sink := [], [];
      this.wantsSink := wantsSink;
    }

    method Append(chunk: seq<Byte>)
      modifies this
      ensures buf == old(buf) + chunk && sink == old(sink)
    {
      buf := buf + chunk;
    }

    method DrainFramesChecked() returns (out: seq<Frame>, status: Status, validConsumed: nat)
      modifies this
      ensures var d := Drain(old(buf));
        && out == d.frames && status == d.status && buf == d.rest
        && validConsumed == |d.sink|
        && sink == old(sink) + if wantsSink then d.sink else []
    {
      hide FrameOf, U32At;
      out, status, validConsumed := [], Ok, 0;
      ghost var taken: seq<Byte> := [];
      ghost var start := buf;
      ThenNothing(Drain(start), Drained([], Ok, [], []));
      while true
        invariant status == Ok && validConsumed == |taken|
        invariant sink == old(sink) + if wantsSink then taken else []
        invariant Drain(start) == Then(Drained(out, Ok, [], taken), Drain(buf))
        decreases |buf|
      {
        if |buf| < PRELUDE_LEN {
          break;
        }
        var totalLen, headersLen := U32At(buf, 0), U32At(buf, 4);
        if !(MIN_FRAME_BYTES <= totalLen <= MAX_FRAME_BYTES) || headersLen > totalLen - MIN_FRAME_BYTES {
          assert Drain(buf) == Drained([], MalformedPrelude, [], []);
          buf := [];
          status := MalformedPrelude;
          return;
        }
        if |buf| < totalLen {
          break;
        }
        var frame := TakeFrame(buf, totalLen, headersLen);
        ThenPrepend(Drained(out, Ok, [], taken), buf[..totalLen], Drain(buf[totalLen..]));
        assert (old(sink) + taken) + buf[..totalLen] == old(sink) + (taken + buf[..totalLen]);
        out := out + [frame];
        if wantsSink {
          sink := sink + buf[..totalLen];
        }
        taken := taken + buf[..totalLen];
        validConsumed := validConsumed + totalLen;
        buf := buf[totalLen..];
      }
      assert Drain(buf) == Drained([], Ok, buf, []);
    }
  }

  /** Read one whole frame off the front of the buffer. */
  method TakeFrame(buf: seq<Byte>, totalLen: nat, headersLen: nat) returns (frame: Frame)
    requires |buf| >= PRELUDE_LEN && totalLen == U32At(buf, 0) && headersLen == U32At(buf, 4)
    requires !BadPrelude(totalLen, headersLen) && totalLen <= |buf|
    ensures FrontOf(buf) == Complete(totalLen) && frame == FrameOf(buf[..totalLen])
  {
    hide Scan, EventTypeOf;
    var found := ParseFrameHeaders(buf[PRELUDE_LEN..PRELUDE_LEN + headersLen]);
    var payload := buf[PRELUDE_LEN + headersLen..totalLen - CRC_BYTES];
    frame := Frame(EventTypeOf(found), payload);
    ghost var f := buf[..totalLen];
    assert f[PRELUDE_LEN..PRELUDE_LEN + headersLen] == buf[PRELUDE_LEN..PRELUDE_LEN + headersLen];
    assert f[PRELUDE_LEN + headersLen..totalLen - CRC_BYTES] == payload;
  }

  /** Later octets cannot change the verdict on a front that has one. */
  lemma FrontAppend(a: seq<Byte>, b: seq<Byte>)
    ensures !FrontOf(a).Partial? ==> FrontOf(a + b) == FrontOf(a)
  {
    if |a| >= PRELUDE_LEN {
      assert U32At(a + b, 0) == U32At(a, 0) && U32At(a + b, 4) == U32At(a, 4);
    }
  }

  lemma DrainFrame(f: seq<Byte>, rest: seq<Byte>)
    requires IsFrame(f)
    ensures Drain(f + rest) == Prepend(f, Drain(rest))
  {
    FrontAppend(f, rest);
    assert (f + rest)[..|f|] == f && (f + rest)[|f|..] == rest;
  }

  lemma DrainNothing()
    ensures Drain([]) == Drained([], Ok, [], [])
  {
  }

  /** On a clean pass nothing is lost: the octets taken and the octets left are the input, and what is
      left is less than one frame. On a malformed prelude the octets taken are the valid prefix: they
      drain cleanly to the same frames. */
  lemma {:induction false} DrainConserves(buf: seq<Byte>)
    ensures var d := Drain(buf);
      && d.sink <= buf
      && (d.status.Ok? ==> d.sink + d.rest == buf && |d.rest| < MAX_FRAME_BYTES)
      && (d.status.MalformedPrelude? ==> d.rest == [])
      && Drain(d.sink) == Drained(d.frames, Ok, [], d.sink)
    decreases |buf|
  {
    hide FrontOf, FrameOf, IsFrame;
    var front := FrontOf(buf);
    DrainNothing();
    if front.Complete? {
      var f, rest := buf[..front.size], buf[front.size..];
      var d := Drain(rest);
      assert buf == f + rest && Drain(buf) == Prepend(f, d);
      DrainConserves(rest);
      assert f + d.sink <= f + rest && (f + d.sink) + d.rest == f + (d.sink + d.rest);
      DrainFrame(f, d.sink);
    }
  }

  /** Draining what has arrived and then the rest is draining it all; a malformed verdict is final. */
  lemma {:induction false} DrainAppend(a: seq<Byte>, b: seq<Byte>)
    ensures var d := Drain(a);
      Drain(a + b) == if d.status.MalformedPrelude? then d else Then(d, Drain(d.rest + b))
    decreases |a|
  {
    match FrontOf(a) {
      case Partial =>
        ThenNothing(Drain(a + b), Drain(a));
      case Malformed =>
        FrontAppend(a, b);
      case Complete(n) =>
        var f, rest := a[..n], a[n..];
        assert a + b == f + (rest + b);
        DrainAppend(rest, b);
        DrainFrame(f, rest + b);
        ThenPrepend(Drain(rest), f, Drain(Drain(rest).rest + b));
    }
  }

  /** A stream fed chunk by chunk; the caller abandons it at the first malformed prelude. */
  function Feed(d: Drained, chunks: seq<seq<Byte>>): Drained
    decreases |chunks|
  {
    if chunks == [] || d.status.MalformedPrelude? then d
    else
      Feed(Then(d, Drain(d.rest + chunks[0])), chunks[1..])
  }

  lemma {:induction false} FeedFrom(arrived: seq<Byte>, chunks: seq<seq<Byte>>)
    ensures Feed(Drain(arrived), chunks) == Drain(arrived + Flatten(chunks))
    decreases |chunks|
  {
    if chunks == [] {
      assert arrived + [] == arrived;
    } else {
      assert arrived + Flatten(chunks) == (arrived + chunks[0]) + Flatten(chunks[1..]);
      DrainAppend(arrived, chunks[0]);
      DrainAppend(arrived, Flatten(chunks));
      FeedFrom(arrived + chunks[0], chunks[1..]);
    }
  }

  /** Decoding does not depend on how the octets were cut into chunks. */
  lemma ChunkingDoesNotMatter(chunks: seq<seq<Byte>>)
    ensures Feed(Drained([], Ok, [], []), chunks) == Drain(Flatten(chunks))
  {
    FeedFrom([], chunks);
    assert [] + Flatten(chunks) == Flatten(chunks);
  }
}
