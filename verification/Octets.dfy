/** Octets, 32-bit words and the big-endian form in which the Citrus files store them. */
module Octets {
  type octet = x: int | 0 <= x < 0x100
  type uint32 = x: int | 0 <= x < 0x1_0000_0000

  /** Conversion of a wider unsigned value to `uint32_t`: the high part is dropped. */
  function Low32(x: nat): uint32 {
    x % 0x1_0000_0000
  }

  /** The four bytes `htonl` leaves in memory. */
  function Be32(v: uint32): (s: seq<octet>)
    ensures |s| == 4
  {
    var high := v / 0x100;
    var higher := high / 0x100;
    [higher / 0x100, higher % 0x100, high % 0x100, v % 0x100]
  }

  /** The value `be32toh` makes of four bytes in memory. */
  function FromBe32(s: seq<octet>): uint32
    requires |s| == 4
  {
    (((s[0] as int * 0x100) + s[1]) * 0x100 + s[2]) * 0x100 + s[3]
  }

  lemma {:induction false} Be32RoundTrip(v: uint32)
    ensures FromBe32(Be32(v)) == v
  {
  }

  function Zeros(n: nat): (s: seq<octet>)
    ensures |s| == n
    ensures forall k :: 0 <= k < n ==> s[k] == 0
  {
    seq(n, _ => 0)
  }

  /** The word stored big-endian at offset `o`. */
  function WordAt(s: seq<octet>, o: nat): uint32
    requires o + 4 <= |s|
  {
    FromBe32(s[o..o + 4])
  }

  /** The high-order byte comes first. */
  lemma {:induction false} WordAtIs(s: seq<octet>, o: nat)
    requires o + 4 <= |s|
    ensures WordAt(s, o) == 0x100_0000 * s[o] as int + 0x1_0000 * s[o + 1] as int + 0x100 * s[o + 2] as int + s[o + 3]
  {
    assert s[o..o + 4] == [s[o], s[o + 1], s[o + 2], s[o + 3]];
  }
}
