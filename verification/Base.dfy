/** Types shared by every component of the gateway model. */
module Base {
  datatype Option<+T> = None | Some(value: T)

  /** One octet. */
  type Byte = x: int | 0 <= x < 256

  const U32_MOD: nat := 0x1_0000_0000
  const U64_MOD: nat := 0x1_0000_0000_0000_0000
  const U128_MOD: nat := 0x1_0000_0000_0000_0000_0000_0000_0000_0000
  const I64_MAX: nat := 0x7FFF_FFFF_FFFF_FFFF

  /** The octets of an ASCII literal. */
  function Octets(s: string): (r: seq<Byte>)
    ensures |r| == |s|
  {
    seq(|s|, i requires 0 <= i < |s| => (s[i] as int) % 256)
  }

  function Flatten<T>(parts: seq<seq<T>>): seq<T> {
    if parts == [] then [] else parts[0] + Flatten(parts[1..])
  }

  lemma DivMod(k: int, q: int, r: int)
    requires 0 <= r < k
    ensures (k * q + r) / k == q && (k * q + r) % k == r
  {
    var a := k * q + r;
    var d := q - a / k;
    assert k * d == a % k - r;
    assert d >= 1 ==> k * d >= k;
    assert d <= -1 ==> k * d <= -k;
  }
}
