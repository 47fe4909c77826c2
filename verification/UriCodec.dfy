/** Percent-encoding as the SigV4 signer applies it to paths and query components, and the decoder
    that must undo it. */
module UriCodec {
  import opened Base
  import Utf8

  const PERCENT: Byte := '%' as int
  const SLASH: Byte := '/' as int

  /** The unreserved characters of section 2.3 of RFC 3986. */
  predicate Unreserved(b: Byte) {
    || 'A' as int <= b <= 'Z' as int
    || 'a' as int <= b <= 'z' as int
    || '0' as int <= b <= '9' as int
    || b in {'-' as int, '_' as int, '.' as int, '~' as int}
  }

  predicate Kept(b: Byte, path: bool) {
    Unreserved(b) || (path && b == SLASH)
  }

  function UpperHex(n: nat): Byte
    requires n < 16
  {
    if n < 10 then '0' as int + n else 'A' as int + n - 10
  }

  /** The value of a hexadecimal digit of either case. */
  function ToDigit(b: Byte): (d: Option<nat>)
    ensures d.Some? ==> d.value < 16
  {
    if '0' as int <= b <= '9' as int then Some(b - '0' as int)
    else if 'A' as int <= b <= 'F' as int then Some(b - 'A' as int + 10)
    else if 'a' as int <= b <= 'f' as int then Some(b - 'a' as int + 10)
    else None
  }

  function EncodedByte(b: Byte, path: bool): seq<Byte> {
    if Kept(b, path) then [b] else [PERCENT, UpperHex(b / 16), UpperHex(b % 16)]
  }

  function Encoded(s: seq<Byte>, path: bool): seq<Byte> {
    if s == [] then [] else EncodedByte(s[0], path) + Encoded(s[1..], path)
  }

  lemma {:induction false} EncodedSnoc(s: seq<Byte>, b: Byte, path: bool)
    ensures Encoded(s + [b], path) == Encoded(s, path) + EncodedByte(b, path)
  {
    if s != [] {
      assert (s + [b])[1..] == s[1..] + [b];
      EncodedSnoc(s[1..], b, path);
    }
  }

  method UriEncodePath(path: seq<Byte>) returns (out: seq<Byte>)
    ensures out == Encoded(path, true)
  {
    out := [];
    for i := 0 to |path|
      invariant out == Encoded(path[..i], true)
    {
      var b := path[i];
      assert path[..i + 1] == path[..i] + [b];
      EncodedSnoc(path[..i], b, true);
      if Unreserved(b) || b == SLASH {
        out := out + [b];
      } else {
        out := out + [PERCENT];
        out := out + [UpperHex(b / 16)];
        out := out + [UpperHex(b % 16)];
      }
    }
    assert path[..|path|] == path;
  }

  method UriEncodeQuery(s: seq<Byte>) returns (out: seq<Byte>)
    ensures out == Encoded(s, false)
  {
    out := [];
    for i := 0 to |s|
      invariant out == Encoded(s[..i], false)
    {
      var b := s[i];
      assert s[..i + 1] == s[..i] + [b];
      EncodedSnoc(s[..i], b, false);
      if Unreserved(b) {
        out := out + [b];
      } else {
        out := out + [PERCENT];
        out := out + [UpperHex(b / 16)];
        out := out + [UpperHex(b % 16)];
      }
    }
    assert s[..|s|] == s;
  }

  /** The octet that a leading `%XX` stands for, if the text starts with one. */
  function Escape(s: seq<Byte>): Option<Byte>
    requires s != []
  {
    if s[0] == PERCENT && 2 < |s| && ToDigit(s[1]).Some? && ToDigit(s[2]).Some?
    then Some(ToDigit(s[1]).value * 16 + ToDigit(s[2]).value)
    else None
  }

  function Decoded(s: seq<Byte>): seq<Byte> {
    if s == [] then []
    else if Escape(s).Some? then [Escape(s).value] + Decoded(s[3..])
    else [s[0]] + Decoded(s[1..])
  }

  /** Decode to octets, then to a string: `lossy` stands for the conversion that keeps well-formed
      UTF-8 and replaces the rest. */
  method PercentDecode(s: seq<Byte>, lossy: seq<Byte> -> seq<Byte>) returns (text: seq<Byte>)
    ensures text == lossy(Decoded(s))
  {
    hide ToDigit, Decoded;
    var out: seq<Byte> := [];
    var i := 0;
    assert s[0..] == s;
    while i < |s|
      invariant 0 <= i <= |s|
      invariant out + Decoded(s[i..]) == Decoded(s)
    {
      DecodedAt(s, i);
      if s[i] == PERCENT && i + 2 < |s| {
        var hi, lo := ToDigit(s[i + 1]), ToDigit(s[i + 2]);
        if hi.Some? && lo.Some? {
          out := out + [hi.value * 16 + lo.value];
          i := i + 3;
          continue;
        }
      }
      out := out + [s[i]];
      i := i + 1;
    }
    DecodedAt(s, |s|);
    assert out + [] == out;
    text := lossy(out);
  }

  /** One step of decoding, from any index. */
  lemma DecodedAt(s: seq<Byte>, i: nat)
    requires i <= |s|
    ensures Decoded(s[i..]) ==
      if i == |s| then []
      else if i + 2 < |s| && s[i] == PERCENT && ToDigit(s[i + 1]).Some? && ToDigit(s[i + 2]).Some?
      then [ToDigit(s[i + 1]).value * 16 + ToDigit(s[i + 2]).value] + Decoded(s[i + 3..])
      else [s[i]] + Decoded(s[i + 1..])
  {
    hide ToDigit;
    var t := s[i..];
    if i < |s| {
      assert t[1..] == s[i + 1..];
      if i + 2 < |s| {
        assert t[1] == s[i + 1] && t[2] == s[i + 2] && t[3..] == s[i + 3..];
      }
    }
  }

  lemma {:induction false} DecodedEncoded(s: seq<Byte>, path: bool)
    ensures Decoded(Encoded(s, path)) == s
  {
    if s != [] {
      var b, rest := s[0], Encoded(s[1..], path);
      var t := EncodedByte(b, path) + rest;
      if Kept(b, path) {
        assert Escape(t).None? && t[1..] == rest;
      } else {
        assert ToDigit(UpperHex(b / 16)) == Some(b / 16) && ToDigit(UpperHex(b % 16)) == Some(b % 16);
        assert Escape(t) == Some(b) && t[3..] == rest;
      }
      DecodedEncoded(s[1..], path);
    }
  }

  /** Decoding undoes both encoders on every string. */
  lemma DecodeUndoesEncode(s: seq<Byte>, path: bool, lossy: seq<Byte> -> seq<Byte>)
    requires Utf8.Valid(s) && forall x :: Utf8.Valid(x) ==> lossy(x) == x
    ensures lossy(Decoded(Encoded(s, path))) == s
  {
    DecodedEncoded(s, path);
  }

  lemma EncodersInjective(a: seq<Byte>, b: seq<Byte>, path: bool)
    ensures Encoded(a, path) == Encoded(b, path) <==> a == b
  {
    DecodedEncoded(a, path);
    DecodedEncoded(b, path);
  }

  predicate UpperHexDigit(b: Byte) {
    '0' as int <= b <= '9' as int || 'A' as int <= b <= 'F' as int
  }

  /** Unreserved characters, upper-case `%XX` triples and, in a path, slashes: nothing else. */
  predicate Canonical(t: seq<Byte>, path: bool) {
    || t == []
    || (Kept(t[0], path) && Canonical(t[1..], path))
    || (|t| >= 3 && t[0] == PERCENT && UpperHexDigit(t[1]) && UpperHexDigit(t[2]) && Canonical(t[3..], path))
  }

  lemma {:induction false} EncodedCanonical(s: seq<Byte>, path: bool)
    ensures Canonical(Encoded(s, path), path)
  {
    if s != [] {
      var rest := Encoded(s[1..], path);
      EncodedCanonical(s[1..], path);
      var t := EncodedByte(s[0], path) + rest;
      assert t[|EncodedByte(s[0], path)|..] == rest;
    }
  }

  /** Exactly the letters, digits, `-`, `.`, `_` and `~` stand for themselves, and in a path the slash;
      every other octet becomes `%` and its two hexadecimal digits. */
  lemma KeptOctets(b: Byte, path: bool)
    ensures Encoded([b], path) == [b] <==>
      || 0x41 <= b <= 0x5A || 0x61 <= b <= 0x7A || 0x30 <= b <= 0x39
      || b in {0x2D, 0x2E, 0x5F, 0x7E}
      || (path && b == 0x2F)
    ensures Encoded([b], path) != [b] ==>
      && |Encoded([b], path)| == 3 && Encoded([b], path)[0] == 0x25
      && ToDigit(Encoded([b], path)[1]) == Some(b / 16) && ToDigit(Encoded([b], path)[2]) == Some(b % 16)
  {
    assert [b][1..] == [];
    assert Encoded([b], path) == EncodedByte(b, path);
  }

  /** A hexadecimal digit of either case reads as its value, and nothing else is one. */
  lemma DigitValues(b: Byte, d: nat)
    ensures ToDigit(b) == Some(d) <==>
      d < 16 && if d < 10 then b == 0x30 + d else b == 0x41 + d - 10 || b == 0x61 + d - 10
  {
  }
}
