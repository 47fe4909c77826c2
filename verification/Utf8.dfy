/** Well-formed UTF-8 (section 4 of RFC 3629), the condition under which octets are a string. */
module Utf8 {
  import opened Base

  predicate Continuation(b: Byte) {
    0x80 <= b < 0xC0
  }

  /** The length of the well-formed character that starts `s`, or 0 when there is none. */
  function CharLength(s: seq<Byte>): (n: nat)
    requires s != []
    ensures n <= |s|
  {
    var b := s[0];
    if b < 0x80 then 1
    else if 0xC2 <= b < 0xE0 then
      if |s| >= 2 && Continuation(s[1]) then 2 else 0
    else if 0xE0 <= b < 0xF0 then
      var low := if b == 0xE0 then 0xA0 else 0x80;
      var high := if b == 0xED then 0xA0 else 0xC0;
      if |s| >= 3 && low <= s[1] < high && Continuation(s[2]) then 3 else 0
    else if 0xF0 <= b < 0xF5 then
      var low := if b == 0xF0 then 0x90 else 0x80;
      var high := if b == 0xF4 then 0x90 else 0xC0;
      if |s| >= 4 && low <= s[1] < high && Continuation(s[2]) && Continuation(s[3]) then 4 else 0
    else 0
  }

  predicate Valid(s: seq<Byte>) {
    s == [] || (CharLength(s) > 0 && Valid(s[CharLength(s)..]))
  }

  lemma {:induction false} AsciiValid(s: seq<Byte>)
    requires forall i :: 0 <= i < |s| ==> s[i] < 0x80
    ensures Valid(s)
  {
    if s != [] {
      AsciiValid(s[1..]);
    }
  }

  // ---- Validity is being the encoding of some text ----

  /** A Unicode scalar value: a code point that is not a surrogate. */
  predicate Scalar(c: nat) {
    c < 0x11_0000 && !(0xD800 <= c < 0xE000)
  }

  /** The octets of one scalar value (section 3 of RFC 3629). */
  function EncodeScalar(c: nat): seq<Byte>
    requires Scalar(c)
  {
    if c < 0x80 then [c]
    else if c < 0x800 then [0xC0 + c / 64, 0x80 + c % 64]
    else if c < 0x1_0000 then [0xE0 + c / 4096, 0x80 + c / 64 % 64, 0x80 + c % 64]
    else [0xF0 + c / 0x4_0000, 0x80 + c / 4096 % 64, 0x80 + c / 64 % 64, 0x80 + c % 64]
  }

  predicate AllScalars(t: seq<nat>) {
    forall i :: 0 <= i < |t| ==> Scalar(t[i])
  }

  function EncodeText(t: seq<nat>): seq<Byte>
    requires AllScalars(t)
  {
    if t == [] then [] else EncodeScalar(t[0]) + EncodeText(t[1..])
  }

  lemma ScalarLength(c: nat, rest: seq<Byte>)
    requires Scalar(c)
    ensures CharLength(EncodeScalar(c) + rest) == |EncodeScalar(c)|
  {
  }

  /** The scalar value that a well-formed character stands for. */
  lemma CharIsScalar(s: seq<Byte>) returns (c: nat)
    requires s != [] && CharLength(s) > 0
    ensures Scalar(c) && EncodeScalar(c) == s[..CharLength(s)]
  {
    if s[0] < 0x80 {
      c := s[0];
    } else if s[0] < 0xE0 {
      c := ShortChar(s);
    } else if s[0] < 0xF0 {
      c := MiddleChar(s);
    } else {
      c := LongChar(s);
    }
  }

  lemma ShortChar(s: seq<Byte>) returns (c: nat)
    requires s != [] && CharLength(s) > 0 && 0x80 <= s[0] < 0xE0
    ensures Scalar(c) && EncodeScalar(c) == s[..CharLength(s)]
  {
    var a: nat, b: nat := s[0] - 0xC0, s[1] - 0x80;
    c := a * 64 + b;
  }

  lemma MiddleChar(s: seq<Byte>) returns (c: nat)
    requires s != [] && CharLength(s) > 0 && 0xE0 <= s[0] < 0xF0
    ensures Scalar(c) && EncodeScalar(c) == s[..CharLength(s)]
  {
    var a: nat, b: nat, d: nat := s[0] - 0xE0, s[1] - 0x80, s[2] - 0x80;
    c := a * 4096 + b * 64 + d;
    ThreeOctets(a, b, d);
  }

  lemma LongChar(s: seq<Byte>) returns (c: nat)
    requires s != [] && CharLength(s) > 0 && 0xF0 <= s[0]
    ensures Scalar(c) && EncodeScalar(c) == s[..CharLength(s)]
  {
    var a: nat, b: nat, d: nat, e: nat := s[0] - 0xF0, s[1] - 0x80, s[2] - 0x80, s[3] - 0x80;
    c := a * 0x4_0000 + b * 4096 + d * 64 + e;
    FourOctets(a, b, d, e);
  }

  lemma ThreeOctets(a: nat, b: nat, d: nat)
    requires b < 64 && d < 64
    ensures var c := a * 4096 + b * 64 + d; c / 4096 == a && c / 64 % 64 == b && c % 64 == d
  {
    assert a * 4096 + b * 64 + d == 64 * (64 * a + b) + d;
  }

  lemma FourOctets(a: nat, b: nat, d: nat, e: nat)
    requires b < 64 && d < 64 && e < 64
    ensures var c := a * 0x4_0000 + b * 4096 + d * 64 + e;
      c / 0x4_0000 == a && c / 4096 % 64 == b && c / 64 % 64 == d && c % 64 == e
  {
    ThreeOctets(64 * a + b, d, e);
  }

  lemma {:induction false} EncodedIsValid(t: seq<nat>)
    requires AllScalars(t)
    ensures Valid(EncodeText(t))
  {
    if t != [] {
      var first, rest := EncodeScalar(t[0]), EncodeText(t[1..]);
      EncodedIsValid(t[1..]);
      ScalarLength(t[0], rest);
      assert (first + rest)[|first|..] == rest;
    }
  }

  lemma {:induction false} ValidIsEncoded(s: seq<Byte>) returns (t: seq<nat>)
    requires Valid(s)
    ensures AllScalars(t) && EncodeText(t) == s
    decreases |s|
  {
    t := [];
    if s != [] {
      var n := CharLength(s);
      var c := CharIsScalar(s);
      var rest := ValidIsEncoded(s[n..]);
      t := [c] + rest;
      assert t[1..] == rest && s == s[..n] + s[n..];
    }
  }

  /** Octets are a valid string exactly when they encode some sequence of scalar values. */
  lemma ValidExactlyEncodings(s: seq<Byte>)
    ensures Valid(s) <==> exists t :: AllScalars(t) && EncodeText(t) == s
  {
    if Valid(s) {
      var t := ValidIsEncoded(s);
    }
    forall t | AllScalars(t) && EncodeText(t) == s ensures Valid(s) {
      EncodedIsValid(t);
    }
  }
}
