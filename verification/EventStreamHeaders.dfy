/** The header block of an AWS event-stream frame: the scanner that reads it, and the wire form of a
    list of typed headers it is measured against. */
module EventStreamHeaders {
  import opened Base
  import Utf8

  const HDR_TYPE_STRING: Byte := 7
  const HDR_EVENT_TYPE: seq<Byte> := Octets(":event-type")
  const HDR_MESSAGE_TYPE: seq<Byte> := Octets(":message-type")
  const HDR_EXCEPTION_TYPE: seq<Byte> := Octets(":exception-type")

  datatype FrameHeaders = FrameHeaders(
    eventType: Option<seq<Byte>>,
    messageType: Option<seq<Byte>>,
    exceptionType: Option<seq<Byte>>)

  const NO_HEADERS := FrameHeaders(None, None, None)

  /** The width of a value type that carries no length prefix. */
  function FixedWidth(kind: Byte): Option<nat> {
    match kind
    case 0 => Some(0)
    case 1 => Some(0)
    case 2 => Some(1)
    case 3 => Some(2)
    case 4 => Some(4)
    case 5 => Some(8)
    case 8 => Some(8)
    case 9 => Some(16)
    case _ => None
  }

  /** What the scanner remembers of one header. */
  function Note(found: FrameHeaders, name: seq<Byte>, value: Option<seq<Byte>>): FrameHeaders {
    if value.None? || !Utf8.Valid(value.value) then found
    else if name == HDR_EVENT_TYPE then found.(eventType := value)
    else if name == HDR_MESSAGE_TYPE then found.(messageType := value)
    else if name == HDR_EXCEPTION_TYPE then found.(exceptionType := value)
    else found
  }

  function U16At(h: seq<Byte>, p: nat): nat
    requires p + 1 < |h|
  {
    var high: nat, low: nat := h[p], h[p + 1];
    high * 256 + low
  }

  /** One header read off the front of a block, or the verdict that none is there whole. */
  datatype Read = Stop | Read(name: seq<Byte>, value: Option<seq<Byte>>, size: nat)

  function ReadHeader(h: seq<Byte>): (r: Read)
    ensures r.Read? ==> 0 < r.size <= |h|
  {
    if h == [] then Stop
    else
      var nameLen: nat := h[0];
      if |h| < 1 + nameLen + 1 then Stop
      else
        var name, kind, p := h[1..1 + nameLen], h[1 + nameLen], 1 + nameLen + 1;
        if kind == 6 || kind == HDR_TYPE_STRING then
          if |h| < p + 2 then Stop
          else
            var vlen := U16At(h, p);
            if |h| < p + 2 + vlen then Stop else Read(name, Some(h[p + 2..p + 2 + vlen]), p + 2 + vlen)
        else
          match FixedWidth(kind)
          case Some(w) => if |h| < p + w then Stop else Read(name, None, p + w)
          case None => Stop
  }

  function Scan(h: seq<Byte>, found: FrameHeaders): FrameHeaders
    decreases |h|
  {
    match ReadHeader(h)
    case Stop => found
    case Read(name, value, size) => Scan(h[size..], Note(found, name, value))
  }

  /** Scan a header block, advancing a cursor over it header by header. */
  method ParseFrameHeaders(block: seq<Byte>) returns (found: FrameHeaders)
    ensures found == Scan(block, NO_HEADERS)
  {
    var h := block;
    found := NO_HEADERS;
    while h != []
      invariant Scan(h, found) == Scan(block, NO_HEADERS)
      decreases |h|
    {
      var nameLen: nat := h[0];
      if |h| < 1 + nameLen + 1 {
        return;
      }
      var name, kind, p := h[1..1 + nameLen], h[1 + nameLen], 1 + nameLen + 1;
      var value: Option<seq<Byte>> := None;
      if kind == 6 || kind == HDR_TYPE_STRING {
        if |h| < p + 2 {
          return;
        }
        var vlen := U16At(h, p);
        p := p + 2;
        if |h| < p + vlen {
          return;
        }
        value := Some(h[p..p + vlen]);
        p := p + vlen;
      } else {
        var width := FixedWidth(kind);
        if width.None? || |h| < p + width.value {
          return;
        }
        p := p + width.value;
      }
      assert ReadHeader(h) == Read(name, value, p);
      found := Note(found, name, value);
      h := h[p..];
    }
  }

  /** A typed header as a sender means it: kinds 6 and 7 carry a length-prefixed value, the other
      kinds below 10 a value of fixed width. */
  datatype Header = Header(name: seq<Byte>, kind: Byte, bytes: seq<Byte>)

  predicate Variable(h: Header) {
    h.kind == 6 || h.kind == HDR_TYPE_STRING
  }

  /** The octets of a value of each fixed-width kind: true, false, byte, short, int, long, (bytes and
      string,) timestamp and UUID. */
  const VALUE_WIDTHS: seq<nat> := [0, 0, 1, 2, 4, 8, 0, 0, 8, 16]

  predicate Sendable(h: Header) {
    && |h.name| < 256 && h.kind < 10
    && (if Variable(h) then |h.bytes| < 0x1_0000 else |h.bytes| == VALUE_WIDTHS[h.kind])
  }

  predicate AllSendable(hs: seq<Header>) {
    forall i :: 0 <= i < |hs| ==> Sendable(hs[i])
  }

  function Wire(h: Header): (w: seq<Byte>)
    requires Sendable(h)
    ensures |w| > 0
  {
    var length: seq<Byte> := if Variable(h) then [|h.bytes| / 256, |h.bytes| % 256] else [];
    [|h.name|] + h.name + [h.kind] + length + h.bytes
  }

  function Block(hs: seq<Header>): seq<Byte>
    requires AllSendable(hs)
  {
    if hs == [] then [] else Wire(hs[0]) + Block(hs[1..])
  }

  /** How many headers of the list lie wholly within the first `k` octets of its block. */
  function Whole(hs: seq<Header>, k: nat): (m: nat)
    requires AllSendable(hs)
    ensures m <= |hs|
  {
    if hs == [] || k < |Wire(hs[0])| then 0 else 1 + Whole(hs[1..], k - |Wire(hs[0])|)
  }

  /** The last string or bytes value under `name` that is a UTF-8 string. */
  function Latest(hs: seq<Header>, name: seq<Byte>): Option<seq<Byte>> {
    if hs == [] then None
    else
      var h := hs[|hs| - 1];
      if h.name == name && Variable(h) && Utf8.Valid(h.bytes) then Some(h.bytes)
      else Latest(hs[..|hs| - 1], name)
  }

  function Value(h: Header): Option<seq<Byte>> {
    if Variable(h) then Some(h.bytes) else None
  }

  lemma ReadWhole(h: Header, rest: seq<Byte>)
    requires Sendable(h)
    ensures ReadHeader(Wire(h) + rest) == Read(h.name, Value(h), |Wire(h)|)
  {
    var w := Wire(h) + rest;
    var n := |h.name|;
    assert w[0] == n && w[1..1 + n] == h.name && w[1 + n] == h.kind;
    if Variable(h) {
      assert w[n + 2] == |h.bytes| / 256 && w[n + 3] == |h.bytes| % 256;
      assert w[n + 4..n + 4 + |h.bytes|] == h.bytes;
    }
  }

  /** A header of a kind outside the ten ends the scan. */
  lemma UnknownKindStops(name: seq<Byte>, kind: Byte, rest: seq<Byte>)
    requires |name| < 256 && kind >= 10
    ensures ReadHeader([|name|] + name + [kind] + rest) == Stop
  {
    var w := [|name|] + name + [kind] + rest;
    assert w[0] == |name| && w[1 + |name|] == kind;
  }

  /** A header cut anywhere before its end is never read as a whole one. */
  lemma ReadCut(h: Header, k: nat)
    requires Sendable(h) && k < |Wire(h)|
    ensures ReadHeader(Wire(h)[..k]) == Stop
  {
    var w := Wire(h);
    var n := |h.name|;
    assert w[0] == n && w[1 + n] == h.kind;
    if Variable(h) {
      assert w[n + 2] == |h.bytes| / 256 && w[n + 3] == |h.bytes| % 256;
    }
  }

  function Noted(found: FrameHeaders, hs: seq<Header>): FrameHeaders
    decreases |hs|
  {
    if hs == [] then found else Noted(Note(found, hs[0].name, Value(hs[0])), hs[1..])
  }

  lemma {:induction false} ScanPrefix(hs: seq<Header>, k: nat, found: FrameHeaders)
    requires AllSendable(hs) && k <= |Block(hs)|
    ensures Scan(Block(hs)[..k], found) == Noted(found, hs[..Whole(hs, k)])
  {
    if hs != [] {
      var w, rest := Wire(hs[0]), Block(hs[1..]);
      if k < |w| {
        assert (w + rest)[..k] == w[..k];
        ReadCut(hs[0], k);
      } else {
        var m := k - |w|;
        assert (w + rest)[..k] == w + rest[..m];
        ReadWhole(hs[0], rest[..m]);
        assert (w + rest[..m])[|w|..] == rest[..m];
        ScanPrefix(hs[1..], m, Note(found, hs[0].name, Value(hs[0])));
        assert hs[..Whole(hs, k)][1..] == hs[1..][..Whole(hs[1..], m)];
      }
    }
  }

  lemma {:induction false} NotedSnoc(found: FrameHeaders, hs: seq<Header>, h: Header)
    ensures Noted(found, hs + [h]) == Note(Noted(found, hs), h.name, Value(h))
    decreases |hs|
  {
    if hs != [] {
      assert (hs + [h])[1..] == hs[1..] + [h];
      NotedSnoc(Note(found, hs[0].name, Value(hs[0])), hs[1..], h);
    }
  }

  lemma NamesDiffer()
    ensures HDR_EVENT_TYPE != HDR_MESSAGE_TYPE && HDR_EVENT_TYPE != HDR_EXCEPTION_TYPE
    ensures HDR_MESSAGE_TYPE != HDR_EXCEPTION_TYPE
  {
    assert |HDR_EVENT_TYPE| == 11 && |HDR_MESSAGE_TYPE| == 13 && |HDR_EXCEPTION_TYPE| == 15;
  }

  lemma {:induction false} NotedIsLatest(hs: seq<Header>)
    ensures Noted(NO_HEADERS, hs) == FrameHeaders(
      Latest(hs, HDR_EVENT_TYPE), Latest(hs, HDR_MESSAGE_TYPE), Latest(hs, HDR_EXCEPTION_TYPE))
  {
    NamesDiffer();
    if hs != [] {
      var n := |hs| - 1;
      assert hs == hs[..n] + [hs[n]];
      NotedSnoc(NO_HEADERS, hs[..n], hs[n]);
      NotedIsLatest(hs[..n]);
    }
  }

  /** For every list of typed headers and every truncation of its block, the scanner finds the last
      string value of each name among the headers that arrived whole, and nothing else. */
  lemma TruncatedBlock(hs: seq<Header>, k: nat)
    requires AllSendable(hs) && k <= |Block(hs)|
    ensures var whole := hs[..Whole(hs, k)];
      Scan(Block(hs)[..k], NO_HEADERS) == FrameHeaders(
        Latest(whole, HDR_EVENT_TYPE), Latest(whole, HDR_MESSAGE_TYPE), Latest(whole, HDR_EXCEPTION_TYPE))
  {
    ScanPrefix(hs, k, NO_HEADERS);
    NotedIsLatest(hs[..Whole(hs, k)]);
  }

  /** `Whole` counts what it says: those headers' octets fit in the cut, one more header's do not. */
  lemma {:induction false} WholeIsMaximal(hs: seq<Header>, k: nat)
    requires AllSendable(hs) && k <= |Block(hs)|
    ensures var m := Whole(hs, k);
      |Block(hs[..m])| <= k && (m < |hs| ==> k < |Block(hs[..m + 1])|)
  {
    if hs != [] && |Wire(hs[0])| <= k {
      var m := Whole(hs, k);
      WholeIsMaximal(hs[1..], k - |Wire(hs[0])|);
      assert hs[..m][1..] == hs[1..][..m - 1];
      if m < |hs| {
        assert hs[..m + 1][1..] == hs[1..][..m];
      }
    } else if hs != [] {
      assert hs[..1][1..] == [];
      assert Block(hs[..1]) == Wire(hs[0]);
    }
  }
}
