/** The gateway's own base64 (section 4 of RFC 4648): padding and whitespace are ignored on decode, and
    the decoder's 32-bit accumulator is never cleared. */
module Base64 {
  import opened Base

  const PAD: Byte := '=' as int

  /** The character of a six-bit value. */
  function Character(v: nat): Byte
    requires v < 64
  {
    if v < 26 then 'A' as int + v
    else if v < 52 then 'a' as int + v - 26
    else if v < 62 then '0' as int + v - 52
    else if v == 62 then '+' as int
    else '/' as int
  }

  /** What the decoder makes of one byte. */
  datatype Kind = Skip | Foreign | Sextet(v: nat)

  /** Padding and ASCII whitespace are skipped; an alphabet character is its six-bit value. */
  function KindOf(b: Byte): (k: Kind)
    ensures k.Sextet? ==> k.v < 64
  {
    if b == PAD || b == 9 || b == 10 || b == 12 || b == 13 || b == 32 then Skip
    else if 'A' as int <= b <= 'Z' as int then Sextet(b - 'A' as int)
    else if 'a' as int <= b <= 'z' as int then Sextet(b - 'a' as int + 26)
    else if '0' as int <= b <= '9' as int then Sextet(b - '0' as int + 52)
    else if b == '+' as int then Sextet(62)
    else if b == '/' as int then Sextet(63)
    else Foreign
  }

  lemma CharacterReads(v: nat)
    requires v < 64
    ensures KindOf(Character(v)) == Sextet(v)
  {
  }

  // ---- Encoder ----

  function Group(b0: Byte, b1: Byte, b2: Byte): seq<nat> {
    [b0 / 4, b0 % 4 * 16 + b1 / 16, b1 % 16 * 4 + b2 / 64, b2 % 64]
  }

  /** The six-bit values of a byte string; a final group of one or two bytes yields two or three. */
  function Sextets(b: seq<Byte>): (q: seq<nat>)
    ensures forall i :: 0 <= i < |q| ==> q[i] < 64
    ensures |q| % 4 != 1
    decreases |b|
  {
    if |b| == 0 then []
    else if |b| == 1 then Group(b[0], 0, 0)[..2]
    else if |b| == 2 then Group(b[0], b[1], 0)[..3]
    else Group(b[0], b[1], b[2]) + Sextets(b[3..])
  }

  /** The four characters of a group of one to three bytes. */
  function EncodedGroup(b: seq<Byte>): seq<Byte>
    requires 1 <= |b| <= 3
  {
    var g := Group(b[0], if |b| > 1 then b[1] else 0, if |b| > 2 then b[2] else 0);
    [ Character(g[0]), Character(g[1]),
      if |b| > 1 then Character(g[2]) else PAD,
      if |b| > 2 then Character(g[3]) else PAD ]
  }

  function Encoded(b: seq<Byte>): seq<Byte>
    decreases |b|
  {
    if b == [] then []
    else
      var n := if |b| > 2 then 3 else |b|;
      EncodedGroup(b[..n]) + Encoded(b[n..])
  }

  lemma SextetsOfWord(g0: nat, g1: nat, g2: nat, g3: nat)
    requires g0 < 64 && g1 < 64 && g2 < 64 && g3 < 64
    ensures var w := 0x4_0000 * g0 + 0x1000 * g1 + 64 * g2 + g3;
      w / 0x4_0000 % 64 == g0 && w / 0x1000 % 64 == g1 && w / 64 % 64 == g2 && w % 64 == g3
  {
    DivMod(0x4_0000, g0, 0x1000 * g1 + 64 * g2 + g3);
    DivMod(0x1000, 64 * g0 + g1, 64 * g2 + g3);
    DivMod(64, g0, g1);
    DivMod(64, 0x1000 * g0 + 64 * g1 + g2, g3);
    DivMod(64, 64 * g0 + g1, g2);
  }

  lemma WordSextets(b0: Byte, b1: Byte, b2: Byte)
    ensures var c0: nat, c1: nat, c2: nat := b0, b1, b2;
      var word := c0 * 0x1_0000 + c1 * 0x100 + c2;
      && word / 0x4_0000 % 64 == Group(b0, b1, b2)[0] && word / 0x1000 % 64 == Group(b0, b1, b2)[1]
      && word / 64 % 64 == Group(b0, b1, b2)[2] && word % 64 == Group(b0, b1, b2)[3]
  {
    var g := Group(b0, b1, b2);
    var c0: nat, c1: nat, c2: nat := b0, b1, b2;
    var word := c0 * 0x1_0000 + c1 * 0x100 + c2;
    SextetsOfWord(g[0], g[1], g[2], g[3]);
    assert word == 0x4_0000 * g[0] + 0x1000 * g[1] + 64 * g[2] + g[3];
  }

  method EncodeChunk(chunk: seq<Byte>) returns (out: seq<Byte>)
    requires 1 <= |chunk| <= 3
    ensures out == EncodedGroup(chunk)
  {
    var b0: nat := chunk[0];
    var b1: nat := if |chunk| > 1 then chunk[1] else 0;
    var b2: nat := if |chunk| > 2 then chunk[2] else 0;
    var word := b0 * 0x1_0000 + b1 * 0x100 + b2;
    WordSextets(b0, b1, b2);
    out := [Character(word / 0x4_0000 % 64)];
    out := out + [Character(word / 0x1000 % 64)];
    out := out + [if |chunk| > 1 then Character(word / 64 % 64) else PAD];
    out := out + [if |chunk| > 2 then Character(word % 64) else PAD];
  }

  method Base64Encode(input: seq<Byte>) returns (out: seq<Byte>)
    ensures out == Encoded(input)
  {
    out := [];
    var i := 0;
    while i < |input|
      invariant 0 <= i <= |input|
      invariant out + Encoded(input[i..]) == Encoded(input)
    {
      var n := if i + 3 <= |input| then 3 else |input| - i;
      assert input[i..][..n] == input[i..i + n] && input[i..][n..] == input[i + n..];
      var chars := EncodeChunk(input[i..i + n]);
      out := out + chars;
      i := i + n;
    }
    assert input[i..] == [];
  }

  // ---- Decoder ----

  /** No byte outside the alphabet, padding and whitespace. */
  predicate Accepted(s: seq<Byte>) {
    forall i :: 0 <= i < |s| ==> !KindOf(s[i]).Foreign?
  }

  /** The six-bit values of a text's alphabet characters, in order. */
  function Values(s: seq<Byte>): (q: seq<nat>)
    ensures forall i :: 0 <= i < |q| ==> q[i] < 64
  {
    if s == [] then []
    else
      var k := KindOf(s[|s| - 1]);
      if k.Sextet? then Values(s[..|s| - 1]) + [k.v] else Values(s[..|s| - 1])
  }

  lemma ValuesStep(s: seq<Byte>, i: nat)
    requires i < |s|
    ensures Values(s[..i + 1]) ==
      if KindOf(s[i]).Sextet? then Values(s[..i]) + [KindOf(s[i]).v] else Values(s[..i])
  {
    assert s[..i + 1][..i] == s[..i];
  }

  /** The byte that two neighbouring values of a group make. */
  function First(a: nat, b: nat): Byte
    requires a < 64 && b < 64
  {
    a * 4 + b / 16
  }

  function Second(a: nat, b: nat): Byte
    requires a < 64 && b < 64
  {
    a % 16 * 16 + b / 4
  }

  function Third(a: nat, b: nat): Byte
    requires a < 64 && b < 64
  {
    a % 4 * 64 + b
  }

  /** The bytes that six-bit values stand for, four values to three bytes. */
  function Bytes(q: seq<nat>): seq<Byte>
    requires forall i :: 0 <= i < |q| ==> q[i] < 64
    decreases |q|
  {
    if |q| < 2 then []
    else if |q| == 2 then [First(q[0], q[1])]
    else if |q| == 3 then [First(q[0], q[1]), Second(q[1], q[2])]
    else [First(q[0], q[1]), Second(q[1], q[2]), Third(q[2], q[3])] + Bytes(q[4..])
  }

  /** How many low bits of the last value are still pending, and what one more value completes. */
  function Pending(k: nat): nat {
    match k % 4
    case 0 => 0
    case 1 => 6
    case 2 => 4
    case _ => 2
  }

  function Completed(q: seq<nat>, v: nat): seq<Byte>
    requires v < 64 && forall i :: 0 <= i < |q| ==> q[i] < 64
  {
    match |q| % 4
    case 0 => []
    case 1 => [First(q[|q| - 1], v)]
    case 2 => [Second(q[|q| - 1], v)]
    case _ => [Third(q[|q| - 1], v)]
  }

  lemma {:induction false} BytesSnoc(q: seq<nat>, v: nat)
    requires v < 64 && forall i :: 0 <= i < |q| ==> q[i] < 64
    ensures Bytes(q + [v]) == Bytes(q) + Completed(q, v)
    decreases |q|
  {
    hide First, Second, Third;
    if |q| >= 4 {
      assert (q + [v])[4..] == q[4..] + [v] && Completed(q, v) == Completed(q[4..], v);
      BytesSnoc(q[4..], v);
    } else if |q| == 3 {
      assert (q + [v])[4..] == [];
      assert Bytes([]) == [];
    }
  }

  /** A 32-bit register agrees with an unbounded one on its low twelve bits. */
  lemma Truncated(w: nat)
    ensures w % U32_MOD % 4096 == w % 4096
  {
    var j := w / U32_MOD;
    assert w % U32_MOD == w - 4096 * (0x10_0000 * j);
  }

  /** Shifting six bits into a 32-bit register leaves the bits that matter unharmed, however much stale
      history the register still holds above them. */
  lemma Shifted(bits: nat, v: nat)
    requires v < 64
    ensures var bits' := (bits * 64 + v) % U32_MOD;
      && bits' % 64 == v
      && bits' / 16 % 256 == bits % 64 * 4 + v / 16
      && bits' / 4 % 256 == bits % 64 % 16 * 16 + v / 4
      && bits' % 256 == bits % 64 % 4 * 64 + v
  {
    var w := bits * 64 + v;
    var l := bits % 64;
    assert w % 4096 == 64 * l + v by {
      assert w == 4096 * (bits / 64) + (64 * l + v);
    }
    Truncated(w);
    var bits' := w % U32_MOD;
    assert bits' == 4096 * (bits' / 4096) + (64 * l + v);
    LowBits(bits' / 4096, l, v);
  }

  lemma LowBits(k: nat, l: nat, v: nat)
    requires l < 64 && v < 64
    ensures var x := 4096 * k + (64 * l + v);
      x % 64 == v && x / 16 % 256 == l * 4 + v / 16 && x / 4 % 256 == l % 16 * 16 + v / 4 && x % 256 == l % 4 * 64 + v
  {
    DivMod(64, 64 * k + l, v);
    DivMod(16, 256 * k + 4 * l + v / 16, v % 16);
    DivMod(256, k, 4 * l + v / 16);
    DivMod(4, 1024 * k + 16 * l + v / 4, v % 4);
    DivMod(256, 4 * k + l / 16, l % 16 * 16 + v / 4);
    DivMod(256, 16 * k + l / 4, l % 4 * 64 + v);
  }

  /** What decoding is to yield: nothing when a byte is foreign or a lone character dangles, otherwise
      the bytes the alphabet characters stand for. */
  function Decoded(s: seq<Byte>): Option<seq<Byte>> {
    if !Accepted(s) || |Values(s)| % 4 == 1 then None
    else Some(Bytes(Values(s)))
  }

  /** The low bits of the register that still count, given the values shifted in so far. */
  predicate Register(bits: nat, q: seq<nat>) {
    q != [] ==> bits % 64 == q[|q| - 1]
  }

  /** The eight bits of the register above its `nbits` lowest: `(bits >> nbits) as u8`. */
  function ByteAbove(bits: nat, nbits: nat): Byte
    requires nbits in {0, 2, 4}
  {
    (if nbits == 4 then bits / 16 else if nbits == 2 then bits / 4 else bits) % 256
  }

  lemma PendingNext(k: nat)
    ensures k % 4 == 0 ==> Pending(k) == 0 && Pending(k + 1) == 6
    ensures k % 4 == 1 ==> Pending(k) == 6 && Pending(k + 1) == 4
    ensures k % 4 == 2 ==> Pending(k) == 4 && Pending(k + 1) == 2
    ensures k % 4 == 3 ==> Pending(k) == 2 && Pending(k + 1) == 0
  {
  }

  lemma CompletedByte(bits: nat, q: seq<nat>, v: nat)
    requires v < 64 && Register(bits, q) && |q| % 4 != 0 && forall i :: 0 <= i < |q| ==> q[i] < 64
    ensures Pending(|q| + 1) in {0, 2, 4}
    ensures Completed(q, v) == [ByteAbove((bits * 64 + v) % U32_MOD, Pending(|q| + 1))]
  {
    PendingNext(|q|);
    var bits' := (bits * 64 + v) % U32_MOD;
    var last := q[|q| - 1];
    assert bits' / 16 % 256 == last * 4 + v / 16
        && bits' / 4 % 256 == last % 16 * 16 + v / 4
        && bits' % 256 == last % 4 * 64 + v by {
      Shifted(bits, v);
    }
  }

  lemma CompletesNothing(q: seq<nat>, v: nat)
    requires v < 64 && forall i :: 0 <= i < |q| ==> q[i] < 64
    ensures |q| % 4 == 0 ==> Completed(q, v) == []
  {
  }

  /** One more value: the register, the pending count and the completed byte stay in step. */
  lemma DecodeStep(bits: nat, q: seq<nat>, v: nat)
    requires v < 64 && Register(bits, q) && forall i :: 0 <= i < |q| ==> q[i] < 64
    ensures var bits', n := (bits * 64 + v) % U32_MOD, Pending(|q|) + 6;
      && Register(bits', q + [v])
      && (n < 8 ==> Pending(|q| + 1) == n && Bytes(q + [v]) == Bytes(q))
      && (n >= 8 ==> Pending(|q| + 1) == n - 8 && n - 8 in {0, 2, 4}
                     && Bytes(q + [v]) == Bytes(q) + [ByteAbove(bits', n - 8)])
  {
    hide Bytes, Completed, ByteAbove, Pending;
    BytesSnoc(q, v);
    PendingNext(|q|);
    CompletesNothing(q, v);
    assert (bits * 64 + v) % U32_MOD % 64 == v by {
      Shifted(bits, v);
    }
    if |q| % 4 != 0 {
      CompletedByte(bits, q, v);
    } else {
      assert Bytes(q) + [] == Bytes(q);
    }
  }

  /** The decoder's variables after the values `q`. */
  predicate Synced(bits: nat, nbits: nat, out: seq<Byte>, q: seq<nat>) {
    && (forall i :: 0 <= i < |q| ==> q[i] < 64)
    && Register(bits, q) && nbits == Pending(|q|) && out == Bytes(q)
  }

  /** Shift one value in, and push a byte once eight bits are there. */
  method Absorb(bits: nat, nbits: nat, out: seq<Byte>, v: nat, ghost q: seq<nat>)
    returns (bits': nat, nbits': nat, out': seq<Byte>)
    requires v < 64 && Synced(bits, nbits, out, q)
    ensures Synced(bits', nbits', out', q + [v])
  {
    DecodeStep(bits, q, v);
    bits' := (bits * 64 + v) % U32_MOD;
    nbits' := nbits + 6;
    out' := out;
    if nbits' >= 8 {
      nbits' := nbits' - 8;
      out' := out + [ByteAbove(bits', nbits')];
    }
  }

  method Base64Decode(input: seq<Byte>) returns (r: Option<seq<Byte>>)
    ensures r == Decoded(input)
  {
    var bits: nat, nbits: nat := 0, 0;
    var out: seq<Byte> := [];
    for i := 0 to |input|
      invariant Accepted(input[..i])
      invariant Synced(bits, nbits, out, Values(input[..i]))
    {
      ValuesStep(input, i);
      var kind := KindOf(input[i]);
      if kind.Foreign? {
        assert !Accepted(input);
        return None;
      }
      assert input[..i + 1] == input[..i] + [input[i]];
      if kind.Sextet? {
        bits, nbits, out := Absorb(bits, nbits, out, kind.v, Values(input[..i]));
      }
    }
    assert input[..|input|] == input;
    PendingNext(|Values(input)|);
    r := if nbits == 6 then None else Some(out);
  }

  // ---- Round trip ----

  lemma GroupBytes(b0: Byte, b1: Byte, b2: Byte)
    ensures var g := Group(b0, b1, b2);
      First(g[0], g[1]) == b0 && Second(g[1], g[2]) == b1 && Third(g[2], g[3]) == b2
  {
  }

  lemma {:induction false} BytesOfSextets(b: seq<Byte>)
    ensures Bytes(Sextets(b)) == b
    decreases |b|
  {
    hide First, Second, Third;
    if |b| >= 3 {
      GroupBytes(b[0], b[1], b[2]);
      assert (Group(b[0], b[1], b[2]) + Sextets(b[3..]))[4..] == Sextets(b[3..]);
      BytesOfSextets(b[3..]);
      assert b == [b[0], b[1], b[2]] + b[3..];
    } else if |b| == 2 {
      GroupBytes(b[0], b[1], 0);
    } else if |b| == 1 {
      GroupBytes(b[0], 0, 0);
    }
  }

  lemma {:induction false} ValuesAppend(a: seq<Byte>, b: seq<Byte>)
    ensures Values(a + b) == Values(a) + Values(b)
  {
    if b == [] {
      assert a + b == a;
    } else {
      assert (a + b)[..|a + b| - 1] == a + b[..|b| - 1];
      ValuesAppend(a, b[..|b| - 1]);
    }
  }

  lemma ValuesOfFour(a: Byte, b: Byte, c: Byte, d: Byte)
    ensures Values([a, b, c, d]) == Values([a]) + Values([b]) + Values([c]) + Values([d])
  {
    ValuesAppend([a], [b]);
    ValuesAppend([a, b], [c]);
    ValuesAppend([a, b, c], [d]);
    assert [a] + [b] == [a, b] && [a, b] + [c] == [a, b, c] && [a, b, c] + [d] == [a, b, c, d];
  }

  lemma ValueOf(v: nat)
    requires v < 64
    ensures Values([Character(v)]) == [v] && Values([PAD]) == []
  {
    CharacterReads(v);
    assert [Character(v)][..0] == [] && [PAD][..0] == [];
  }

  lemma GroupValues(b: seq<Byte>)
    requires 1 <= |b| <= 3
    ensures Values(EncodedGroup(b)) == Group(b[0], if |b| > 1 then b[1] else 0, if |b| > 2 then b[2] else 0)[..|b| + 1]
  {
    hide Values, Character;
    var g := Group(b[0], if |b| > 1 then b[1] else 0, if |b| > 2 then b[2] else 0);
    var e := EncodedGroup(b);
    ValuesOfFour(e[0], e[1], e[2], e[3]);
    ValueOf(g[0]);
    ValueOf(g[1]);
    ValueOf(g[2]);
    ValueOf(g[3]);
  }

  lemma {:induction false} ValuesOfEncoded(b: seq<Byte>)
    ensures Values(Encoded(b)) == Sextets(b)
    decreases |b|
  {
    if b != [] {
      var n := if |b| > 2 then 3 else |b|;
      GroupValues(b[..n]);
      ValuesAppend(EncodedGroup(b[..n]), Encoded(b[n..]));
      ValuesOfEncoded(b[n..]);
    }
  }

  /** Any text whose alphabet characters are those of an encoding, with padding removed or added and
      whitespace anywhere, decodes to the bytes that were encoded. */
  lemma RoundTrip(b: seq<Byte>, s: seq<Byte>)
    requires Accepted(s)
    requires Values(s) == Values(Encoded(b))
    ensures Decoded(s) == Some(b)
  {
    ValuesOfEncoded(b);
    BytesOfSextets(b);
  }

  /** Padding and whitespace count for nothing, wherever they stand. */
  lemma IgnoredAnywhere(a: seq<Byte>, skipped: seq<Byte>, b: seq<Byte>)
    requires forall i :: 0 <= i < |skipped| ==> KindOf(skipped[i]).Skip?
    ensures Decoded(a + skipped + b) == Decoded(a + b)
  {
    hide Values, Bytes;
    ValuesOfSkipped(skipped);
    ValuesAppend(a, skipped);
    ValuesAppend(a + skipped, b);
    ValuesAppend(a, b);
    AcceptedAppend(a, skipped);
    AcceptedAppend(a + skipped, b);
    AcceptedAppend(a, b);
    assert Values(a) + [] == Values(a);
  }

  lemma {:induction false} ValuesOfSkipped(s: seq<Byte>)
    requires forall i :: 0 <= i < |s| ==> KindOf(s[i]).Skip?
    ensures Values(s) == []
  {
    if s != [] {
      ValuesOfSkipped(s[..|s| - 1]);
    }
  }

  lemma AcceptedAppend(a: seq<Byte>, b: seq<Byte>)
    ensures Accepted(a + b) <==> Accepted(a) && Accepted(b)
  {
    assert forall i :: 0 <= i < |a| ==> (a + b)[i] == a[i];
    assert forall i :: 0 <= i < |b| ==> (a + b)[|a| + i] == b[i];
  }

  lemma {:induction false} EncodedAccepted(b: seq<Byte>)
    ensures Accepted(Encoded(b))
    decreases |b|
  {
    if b != [] {
      var n := if |b| > 2 then 3 else |b|;
      EncodedAccepted(b[n..]);
      forall v | 0 <= v < 64 ensures KindOf(Character(v)) == Sextet(v) {
        CharacterReads(v);
      }
    }
  }

  lemma DecodeUndoesEncode(b: seq<Byte>)
    ensures Decoded(Encoded(b)) == Some(b)
  {
    EncodedAccepted(b);
    RoundTrip(b, Encoded(b));
  }

  // ---- The alphabet and the layout of section 4 of RFC 4648 ----

  /** The alphabet is the capitals, the small letters, the digits, plus and slash, in that order. */
  lemma AlphabetOrder(v: nat, b: Byte)
    requires v < 64
    ensures Character(v) == b <==>
      || (v < 26 && b == 0x41 + v) || (26 <= v < 52 && b == 0x61 + v - 26) || (52 <= v < 62 && b == 0x30 + v - 52)
      || (v == 62 && b == 0x2B) || (v == 63 && b == 0x2F)
  {
  }

  /** What is skipped is `=`, space, tab, line feed, form feed and carriage return; what is foreign is
      neither that nor in the alphabet. */
  lemma KindsExactly(b: Byte)
    ensures KindOf(b).Skip? <==> b in {0x3D, 0x20, 0x09, 0x0A, 0x0C, 0x0D}
    ensures forall v :: 0 <= v < 64 ==> (KindOf(b) == Sextet(v) <==> Character(v) == b)
  {
    forall v | 0 <= v < 64 ensures KindOf(b) == Sextet(v) <==> Character(v) == b {
      CharacterReads(v);
    }
  }

  /** A group's four values are its three bytes read as one big-endian number. */
  lemma GroupIsBigEndian(b0: Byte, b1: Byte, b2: Byte)
    ensures var g := Group(b0, b1, b2);
      0x4_0000 * g[0] + 0x1000 * g[1] + 64 * g[2] + g[3] == 0x1_0000 * b0 + 0x100 * b1 + b2
  {
  }

  lemma GroupPadding(b: seq<Byte>)
    requires 1 <= |b| <= 3
    ensures var e := EncodedGroup(b);
      |e| == 4 && (e[3] == PAD <==> |b| < 3) && (e[2] == PAD <==> |b| == 1) && e[1] != PAD && e[0] != PAD
  {
    forall v | 0 <= v < 64 ensures Character(v) != PAD {
      CharacterReads(v);
    }
    hide Character;
    var g := Group(b[0], if |b| > 1 then b[1] else 0, if |b| > 2 then b[2] else 0);
    assert g[0] < 64 && g[1] < 64 && g[2] < 64 && g[3] < 64;
    assert Character(g[0]) != PAD && Character(g[1]) != PAD && Character(g[2]) != PAD && Character(g[3]) != PAD;
  }

  /** An encoding has four characters for every three bytes begun, the last one or two of them padding
      exactly when the last group is short. */
  lemma {:induction false} EncodedLength(b: seq<Byte>)
    ensures var e := Encoded(b);
      && |e| == (|b| + 2) / 3 * 4
      && (b != [] ==> (e[|e| - 1] == PAD <==> |b| % 3 != 0) && (e[|e| - 2] == PAD <==> |b| % 3 == 1) && e[|e| - 3] != PAD)
    decreases |b|
  {
    hide EncodedGroup;
    if |b| > 3 {
      EncodedLength(b[3..]);
      GroupPadding(b[..3]);
      assert Encoded(b) == EncodedGroup(b[..3]) + Encoded(b[3..]);
    } else if b != [] {
      assert b[..|b|] == b && Encoded(b[|b|..]) == [];
      assert Encoded(b) == EncodedGroup(b);
      GroupPadding(b);
    }
  }
}
