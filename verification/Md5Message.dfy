/** The message digest in bytes and numbers, as RFC 1321 words it: what is padded, the order of the bytes in a word, and
    where the digest comes from. */
module Md5Message {
  import opened Md5
  import opened Md5Words

  /** The number that bytes stand for, the low-order one first. */
  function Number(s: seq<bv8>): nat {
    if s == [] then 0 else s[0] as int + 256 * Number(s[1..])
  }

  lemma {:induction false} FourBytes(s: seq<bv8>)
    requires |s| == 4
    ensures Number(s) == s[0] as int + 0x100 * (s[1] as int) + 0x1_0000 * (s[2] as int) + 0x100_0000 * (s[3] as int)
    ensures Number(s) < 0x1_0000_0000
  {
    var t, u, v := s[1..], s[2..], s[3..];
    assert t[1..] == u && u[1..] == v && v[1..] == [];
    assert t[0] == s[1] && u[0] == s[2] && v[0] == s[3];
    assert Number(v) == s[3] as int + 256 * Number([]);
    assert Number(u) == s[2] as int + 256 * Number(v);
    assert Number(t) == s[1] as int + 256 * Number(u);
  }

  lemma {:induction false} FourMore(s: seq<bv8>)
    requires |s| == 8
    ensures Number(s) == Number(s[..4]) + 0x1_0000_0000 * Number(s[4..])
  {
    var t, u, v := s[1..], s[2..], s[3..];
    assert t[1..] == u && u[1..] == v && v[1..] == s[4..];
    assert t[0] == s[1] && u[0] == s[2] && v[0] == s[3];
    assert Number(v) == s[3] as int + 256 * Number(s[4..]);
    assert Number(u) == s[2] as int + 256 * Number(v);
    assert Number(t) == s[1] as int + 256 * Number(u);
    FourBytes(s[..4]);
  }

  lemma {:induction false} Packed(b0: bv8, b1: bv8, b2: bv8, b3: bv8)
    ensures Put(Put(Put(Put(0, 0, b0), 1, b1), 2, b2), 3, b3) as int
            == b0 as int + 0x100 * (b1 as int) + 0x1_0000 * (b2 as int) + 0x100_0000 * (b3 as int)
  {
    SideBySide(b0, b1, b2, b3);
    assert Put(Put(Put(Put(0, 0, b0), 1, b1), 2, b2), 3, b3)
           == (b0 as bv32) | ((b1 as bv32) << 8) | ((b2 as bv32) << 16) | ((b3 as bv32) << 24);
    hide *;
  }

  lemma {:induction false} SideBySide(b0: bv8, b1: bv8, b2: bv8, b3: bv8)
    ensures ((b0 as bv32) | ((b1 as bv32) << 8) | ((b2 as bv32) << 16) | ((b3 as bv32) << 24)) as int
            == b0 as int + 0x100 * (b1 as int) + 0x1_0000 * (b2 as int) + 0x100_0000 * (b3 as int)
  {
  }

  lemma {:induction false} Unpacked(l: bv32)
    ensures var s := L2C(l); Put(Put(Put(Put(0, 0, s[0]), 1, s[1]), 2, s[2]), 3, s[3]) == l
  {
  }

  /** A word is the number that its four bytes stand for. */
  lemma {:induction false} WordIsNumber(s: seq<bv8>, o: nat)
    requires o + 4 <= |s|
    ensures Part(s, o, 4) as int == Number(s[o..o + 4])
  {
    var t := s[o..o + 4];
    assert t[0] == s[o] && t[1] == s[o + 1] && t[2] == s[o + 2] && t[3] == s[o + 3];
    PartStep(s, o, 1);
    PartStep(s, o, 2);
    PartStep(s, o, 3);
    PartStep(s, o, 4);
    assert Part(s, o, 0) == 0;
    Packed(s[o], s[o + 1], s[o + 2], s[o + 3]);
    FourBytes(t);
    hide Put, Part, Number;
  }

  /** A word is written as the four bytes that stand for it. */
  lemma {:induction false} WrittenIsNumber(l: bv32)
    ensures |L2C(l)| == 4 && Number(L2C(l)) == l as int
  {
    var s := L2C(l);
    Unpacked(l);
    Packed(s[0], s[1], s[2], s[3]);
    FourBytes(s);
    hide Put, Number, L2C;
  }

  /** The message, a byte 0x80, fewer than 64 zeros, and eight bytes for the number of bits modulo 2 to the 64, so that
      the length becomes a multiple of 64 (sections 3.1 and 3.2). */
  predicate IsPadded(m: seq<bv8>, p: seq<bv8>) {
    && |p| % 64 == 0 && |m| + 9 <= |p| < |m| + 73
    && m <= p && p[|m|] == 0x80 && (forall i :: |m| < i < |p| - 8 ==> p[i] == 0)
    && Number(p[|p| - 8..]) == 8 * |m| % 0x1_0000_0000_0000_0000
  }

  function Byte(n: nat): bv8 {
    if n == 0 then 0 else Byte(n - 1) + 1
  }

  lemma {:induction false} NextByte(x: bv8)
    ensures x != 255 ==> (x + 1) as int == x as int + 1
  {
  }

  lemma {:induction false} ByteValue(n: nat)
    requires n < 256
    ensures Byte(n) as int == n
  {
    if n > 0 {
      ByteValue(n - 1);
      NextByte(Byte(n - 1));
    }
  }

  /** The k low-order bytes of a number. */
  function Bytes(n: nat, k: nat): (s: seq<bv8>)
    ensures |s| == k
  {
    if k == 0 then [] else [Byte(n % 256)] + Bytes(n / 256, k - 1)
  }

  function Limit(k: nat): nat {
    if k == 0 then 1 else 256 * Limit(k - 1)
  }

  lemma {:induction false} NumberOfBytes(n: nat, k: nat)
    requires n < Limit(k)
    ensures Number(Bytes(n, k)) == n
  {
    if k > 0 {
      NumberOfBytes(n / 256, k - 1);
      ByteValue(n % 256);
      hide Byte;
      assert Bytes(n, k)[1..] == Bytes(n / 256, k - 1);
    }
  }

  /** There is such a message for every message. */
  lemma {:induction false} CanBePadded(m: seq<bv8>) returns (p: seq<bv8>)
    ensures IsPadded(m, p)
  {
    hide Number, Bytes, Limit;
    var q, bits := Padded(m), 8 * |m| % 0x1_0000_0000_0000_0000;
    EightBytes();
    NumberOfBytes(bits, 8);
    p := q + Bytes(bits, 8);
    PaddedLength(m);
    assert p[|p| - 8..] == Bytes(bits, 8);
    assert p[|m|] == q[|m|] && forall i :: |m| < i < |q| ==> p[i] == q[i];
  }

  lemma {:induction false} EightBytes()
    ensures Limit(8) == 0x1_0000_0000_0000_0000
  {
    assert Limit(4) == 0x1_0000_0000;
  }

  lemma {:induction false} PaddedLength(m: seq<bv8>)
    ensures var q := Padded(m);
            && (|q| + 8) % 64 == 0 && |m| < |q| < |m| + 65
            && q[|m|] == 0x80 && forall i :: |m| < i < |q| ==> q[i] == 0
  {
    var k := |m| / 64;
    assert |Padded(m)| + 8 == 64 * (if |m| % 64 < 56 then k + 1 else k + 2);
  }

  lemma {:induction false} WordOf(x: bv32, n: nat)
    requires x as int == n
    ensures n < 0x1_0000_0000 && x == ToWord(n)
  {
  }

  /** The low and the high half of the number in eight bytes. */
  lemma {:induction false} LengthWords(p: seq<bv8>, o: nat, bits: nat)
    requires o + 8 == |p| && Number(p[o..]) == bits % 0x1_0000_0000_0000_0000
    ensures Part(p, o, 4) == ToWord(bits % 0x1_0000_0000)
    ensures Part(p, o + 4, 4) == ToWord(bits / 0x1_0000_0000 % 0x1_0000_0000)
  {
    var s := p[o..];
    assert s[..4] == p[o..o + 4] && s[4..] == p[o + 4..o + 4 + 4];
    FourMore(s);
    FourBytes(s[..4]);
    FourBytes(s[4..]);
    WordIsNumber(p, o);
    WordIsNumber(p, o + 4);
    hide Number, Part;
    Halves(bits, Number(s[..4]), Number(s[4..]), bits / 0x1_0000_0000_0000_0000);
    WordOf(Part(p, o, 4), Number(s[..4]));
    WordOf(Part(p, o + 4, 4), Number(s[4..]));
  }

  lemma {:induction false} PaddedPrefix(m: seq<bv8>, p: seq<bv8>)
    requires IsPadded(m, p)
    ensures |p| == |Padded(m)| + 8 && p[..|p| - 8] == Padded(m)
  {
    PaddedLength(m);
    hide Number, Padded;
    var q := Padded(m);
    assert |p| == |q| + 8;
    assert forall i :: 0 <= i < |m| ==> p[i] == m[i] == q[i];
  }

  lemma {:induction false} LastWords(a: nat, w: nat, n: nat)
    requires n == 64 * a && n < 4 * w + 12 && 4 * w + 4 <= n
    ensures 4 * w == n - 8 || 4 * w == n - 4
  {
  }

  /** The words of the padded message are the numbers of its bytes. */
  lemma {:induction false} WordsOfPadded(m: seq<bv8>, p: seq<bv8>, w: nat)
    requires IsPadded(m, p) && 4 * w + 4 <= |p|
    ensures PaddedWord(m, w) == Part(p, 4 * w, 4)
  {
    hide Part, Padded, Number, ToWord;
    PaddedPrefix(m, p);
    LengthWords(p, |p| - 8, 8 * |m|);
    assert |p| == 64 * (|p| / 64);
    hide IsPadded;
    var q := Padded(m);
    if 4 * w + 4 <= |q| {
      assert p[4 * w..4 * w + 4] == p[..|q|][4 * w..4 * w + 4];
      SamePart(p, 4 * w, q, 4 * w, 4);
    } else {
      LastWords(|p| / 64, w, |p|);
    }
  }

  /** The blocks that are compressed are those of the padded message. */
  lemma {:induction false} ChainOfPadded(f: Compression, m: seq<bv8>, p: seq<bv8>, n: nat)
    requires IsPadded(m, p) && 64 * n <= |p|
    ensures Chain(f, m, n) == After(f, p, n)
  {
    hide IsPadded, PaddedWord, Part;
    if n > 0 {
      ChainOfPadded(f, m, p, n - 1);
      forall i | 0 <= i < 16
        ensures PaddedWord(m, 16 * (n - 1) + i) == Part(p, 64 * (n - 1) + 4 * i, 4)
      {
        WordsOfPadded(m, p, 16 * (n - 1) + i);
      }
      assert PaddedBlock(m, n - 1) == Block(p, 64 * (n - 1));
    }
  }

  /** The digest: the words A, B, C and D after all blocks of the padded message, the low-order byte of A first. */
  lemma {:induction false} DigestIs(f: Compression, m: seq<bv8>, p: seq<bv8>)
    requires IsPadded(m, p)
    ensures var h, d := After(f, p, |p| / 64), Digest(f, m);
            && |d| == 16
            && Number(d[..4]) == h.A as int && Number(d[4..8]) == h.B as int
            && Number(d[8..12]) == h.C as int && Number(d[12..]) == h.D as int
  {
    hide After, Chain, Padded, IsPadded, Number, L2C;
    PaddedPrefix(m, p);
    ChainOfPadded(f, m, p, |p| / 64);
    var h := After(f, p, |p| / 64);
    WrittenIsNumber(h.A);
    WrittenIsNumber(h.B);
    WrittenIsNumber(h.C);
    WrittenIsNumber(h.D);
    var d := Digest(f, m);
    assert d == L2C(h.A) + L2C(h.B) + L2C(h.C) + L2C(h.D);
    assert d[..4] == L2C(h.A) && d[4..8] == L2C(h.B) && d[8..12] == L2C(h.C) && d[12..] == L2C(h.D);
  }

  /** What is compressed: 16 numbers of four bytes each, from the bytes in front to those at the end. */
  lemma {:induction false} BlockIs(p: seq<bv8>, n: nat, i: nat)
    requires 64 * n + 64 <= |p| && i < 16
    ensures Block(p, 64 * n)[i] as int == Number(p[64 * n + 4 * i..64 * n + 4 * i + 4])
  {
    WordIsNumber(p, 64 * n + 4 * i);
    hide Number, Part;
  }

  /** The chain begins with the words whose bytes are 01 23 ... ef and back again (section 3.3). */
  lemma {:induction false} BeginsWith(f: Compression, p: seq<bv8>)
    ensures var h := After(f, p, 0);
            L2C(h.A) + L2C(h.B) + L2C(h.C) + L2C(h.D)
            == [0x01, 0x23, 0x45, 0x67, 0x89, 0xab, 0xcd, 0xef, 0xfe, 0xdc, 0xba, 0x98, 0x76, 0x54, 0x32, 0x10]
  {
    assert L2C(0x67452301) == [0x01, 0x23, 0x45, 0x67];
    assert L2C(0xefcdab89) == [0x89, 0xab, 0xcd, 0xef];
    assert L2C(0x98badcfe) == [0xfe, 0xdc, 0xba, 0x98];
    assert L2C(0x10325476) == [0x76, 0x54, 0x32, 0x10];
  }
}
