/** The MD5 message digest of a message that comes in pieces (md5_dgst.c), for any compression
    function in the place of `md5_block`.  Words have 32 bits. */
module Md5 {
  import opened Md5Words

  datatype Chaining = Chaining(A: bv32, B: bv32, C: bv32, D: bv32)

  type Compression = (Chaining, seq<bv32>) -> Chaining

  const INIT := Chaining(0x67452301, 0xefcdab89, 0x98badcfe, 0x10325476)

  /** The 16 words at byte o. */
  function Block(s: seq<bv8>, o: nat): (b: seq<bv32>)
    requires o + 64 <= |s|
    ensures |b| == 16
  {
    seq(16, i requires 0 <= i < 16 => Part(s, o + 4 * i, 4))
  }

  /** The chaining value after the first n blocks of s. */
  function After(f: Compression, s: seq<bv8>, n: nat): Chaining
    requires 64 * n <= |s|
  {
    if n == 0 then INIT else f(After(f, s, n - 1), Block(s, 64 * (n - 1)))
  }

  lemma {:induction false} SameBlock(s: seq<bv8>, t: seq<bv8>, o: nat)
    requires o + 64 <= |s| && s <= t
    ensures Block(s, o) == Block(t, o)
  {
    hide Part;
    forall i | 0 <= i < 16
      ensures Part(s, o + 4 * i, 4) == Part(t, o + 4 * i, 4)
    {
      assert s[o + 4 * i..o + 4 * i + 4] == t[o + 4 * i..o + 4 * i + 4];
      SamePart(s, o + 4 * i, t, o + 4 * i, 4);
    }
  }

  /** Later bytes change nothing about earlier blocks. */
  lemma {:induction false} AfterMore(f: Compression, s: seq<bv8>, t: seq<bv8>, n: nat)
    requires 64 * n <= |s| && s <= t
    ensures After(f, s, n) == After(f, t, n)
  {
    hide Block;
    if n > 0 {
      AfterMore(f, s, t, n - 1);
      SameBlock(s, t, 64 * (n - 1));
    }
  }

  /** The words d hold the 4 * sw + sc bytes at o of s, and the last of them nothing more. */
  predicate Tail(d: seq<bv32>, s: seq<bv8>, o: nat, sw: nat, sc: nat) {
    && |d| == 16 && 4 * sw + sc <= 64 && sc < 4 && o + 4 * sw + sc <= |s|
    && (forall w :: 0 <= w < sw ==> d[w] == Part(s, o + 4 * w, 4))
    && (sc > 0 ==> d[sw] == Part(s, o + 4 * sw, sc))
  }

  lemma {:induction false} TailMore(d: seq<bv32>, s: seq<bv8>, t: seq<bv8>, o: nat, sw: nat, sc: nat)
    requires Tail(d, s, o, sw, sc) && s <= t
    ensures Tail(d, t, o, sw, sc)
  {
    hide Part;
    forall w | 0 <= w < sw
      ensures Part(s, o + 4 * w, 4) == Part(t, o + 4 * w, 4)
    {
      assert s[o + 4 * w..o + 4 * w + 4] == t[o + 4 * w..o + 4 * w + 4];
      SamePart(s, o + 4 * w, t, o + 4 * w, 4);
    }
    assert s[o + 4 * sw..o + 4 * sw + sc] == t[o + 4 * sw..o + 4 * sw + sc];
    SamePart(s, o + 4 * sw, t, o + 4 * sw, sc);
  }

  lemma {:induction false} FullBlock(d: seq<bv32>, s: seq<bv8>, o: nat)
    requires Tail(d, s, o, 16, 0)
    ensures d == Block(s, o)
  {
    hide Part;
  }

  lemma {:induction false} NothingYet(d: seq<bv32>, s: seq<bv8>, o: nat)
    requires |d| == 16 && o <= |s|
    ensures Tail(d, s, o, 0, 0)
  {
  }

  /** Bytes p.. of c are those at q of s. */
  predicate Copied(c: seq<bv8>, p: nat, s: seq<bv8>, q: nat) {
    p <= |c| && q <= |s| && c[p..] == s[q..]
  }

  lemma {:induction false} CopiedPart(c: seq<bv8>, p: nat, s: seq<bv8>, q: nat, i: nat, n: nat)
    requires Copied(c, p, s, q) && p + i + n <= |c|
    ensures q + i + n <= |s| && s[q + i..q + i + n] == c[p + i..p + i + n] && Copied(c, p + i, s, q + i)
  {
    assert |c[p..]| == |s[q..]|;
    assert c[p..][i..i + n] == c[p + i..p + i + n] && s[q..][i..i + n] == s[q + i..q + i + n];
    assert c[p..][i..] == c[p + i..] && s[q..][i..] == s[q + i..];
  }

  /** Fill up the word that is partly filled. */
  method FillUp(d: array<bv32>, sw: nat, sc: nat, c: seq<bv8>, p: nat, ghost s: seq<bv8>, ghost o: nat)
    requires Tail(d[..], s, o, sw, sc) && d.Length == 16 && sw < 16 && p + (4 - sc) <= |c| && Copied(c, p, s, o + 4 * sw + sc)
    modifies d
    ensures Tail(d[..], s, o, sw + 1, 0)
  {
    hide Part;
    CopiedPart(c, p, s, o + 4 * sw + sc, 0, 4 - sc);
    ghost var d0 := d[..];
    var l := PC2L(c, p, d[sw], sc, s, o + 4 * sw);
    d[sw] := l;
    assert d[..] == d0[sw := l];
  }

  /** Whole words. */
  method FillWords(d: array<bv32>, sw0: nat, sw1: nat, c: seq<bv8>, p0: nat, ghost s: seq<bv8>, ghost o: nat) returns (p: nat)
    requires Tail(d[..], s, o, sw0, 0) && d.Length == 16 && sw0 <= sw1 <= 16 && p0 + 4 * (sw1 - sw0) <= |c| && Copied(c, p0, s, o + 4 * sw0)
    modifies d
    ensures Tail(d[..], s, o, sw1, 0) && p == p0 + 4 * (sw1 - sw0)
  {
    hide Part, Copied;
    p := p0;
    for sw := sw0 to sw1
      invariant Tail(d[..], s, o, sw, 0) && p == p0 + 4 * (sw - sw0) && Copied(c, p, s, o + 4 * sw)
    {
      CopiedPart(c, p, s, o + 4 * sw, 0, 4);
      CopiedPart(c, p, s, o + 4 * sw, 4, 0);
      ghost var d0 := d[..];
      var l := C2L(c, p);
      SamePart(c, p, s, o + 4 * sw, 4);
      d[sw] := l;
      assert d[..] == d0[sw := l];
      p := p + 4;
    }
  }

  /** The last bytes, in a word of their own. */
  method FillLast(d: array<bv32>, sw: nat, sc: nat, c: seq<bv8>, p: nat, ghost s: seq<bv8>, ghost o: nat)
    requires Tail(d[..], s, o, sw, 0) && d.Length == 16 && sw < 16 && sc < 4 && p + sc <= |c| && Copied(c, p, s, o + 4 * sw)
    modifies d
    ensures Tail(d[..], s, o, sw, sc)
  {
    hide Part;
    CopiedPart(c, p, s, o + 4 * sw, 0, sc);
    ghost var d0 := d[..];
    var l := C2LP(c, p, sc);
    SamePart(c, p, s, o + 4 * sw, sc);
    d[sw] := l;
    assert d[..] == d0[sw := l];
  }

  /** nh and nl are the two halves of the number of bits in n bytes, modulo 2 to the 64. */
  predicate Counted(nl: nat, nh: nat, n: nat) {
    nl < 0x1_0000_0000 && nh < 0x1_0000_0000 && nl + 0x1_0000_0000 * nh == 8 * n % 0x1_0000_0000_0000_0000
  }

  /** Adding to the two halves with carry. */
  method CountBits(nl: nat, nh: nat, len: nat, ghost n: nat) returns (nl': nat, nh': nat)
    requires Counted(nl, nh, n) && len < 0x1_0000_0000
    ensures Counted(nl', nh', n + len)
  {
    var shifted := 8 * len % 0x1_0000_0000;
    var l := (nl + shifted) % 0x1_0000_0000;
    nh' := nh;
    if l < nl {
      nh' := (nh' + 1) % 0x1_0000_0000;
    }
    nh' := (nh' + len / 0x2000_0000) % 0x1_0000_0000;
    nl' := l;
    Carry(nl, nh, len, l, nh', n);
  }

  lemma {:induction false} Mod32(x: nat, k: nat, r: nat)
    requires x == 0x1_0000_0000 * k + r && r < 0x1_0000_0000
    ensures x % 0x1_0000_0000 == r
  {
  }

  lemma {:induction false} Mod64(x: nat, k: nat, r: nat)
    requires x == 0x1_0000_0000_0000_0000 * k + r && r < 0x1_0000_0000_0000_0000
    ensures x % 0x1_0000_0000_0000_0000 == r
  {
  }

  lemma {:induction false} Carry(nl: nat, nh: nat, len: nat, l: nat, nh': nat, n: nat)
    requires Counted(nl, nh, n) && len < 0x1_0000_0000 && l == (nl + 8 * len % 0x1_0000_0000) % 0x1_0000_0000
    requires nh' == ((if l < nl then (nh + 1) % 0x1_0000_0000 else nh) + len / 0x2000_0000) % 0x1_0000_0000
    ensures Counted(l, nh', n + len)
  {
    var q, r := len / 0x2000_0000, len % 0x2000_0000;
    Mod32(8 * len, q, 8 * r);
    var k := 8 * n / 0x1_0000_0000_0000_0000;
    var carry := if nl + 8 * r >= 0x1_0000_0000 then 1 else 0;
    Mod32(nl + 8 * r, carry, nl + 8 * r - 0x1_0000_0000 * carry);
    var high := nh + carry + q;
    var k' := high / 0x1_0000_0000;
    HighHalf(nh, carry, q, k', nh');
    Mod64(8 * (n + len), k + k', l + 0x1_0000_0000 * nh');
  }

  lemma {:induction false} HighHalf(nh: nat, carry: nat, q: nat, k': nat, nh': nat)
    requires nh < 0x1_0000_0000 && carry <= 1 && q < 8 && k' == (nh + carry + q) / 0x1_0000_0000
    requires nh' == ((if carry == 1 then (nh + 1) % 0x1_0000_0000 else nh) + q) % 0x1_0000_0000
    ensures nh + carry + q == 0x1_0000_0000 * k' + nh' && nh' < 0x1_0000_0000
  {
  }

  function ToWord(x: nat): bv32
    requires x < 0x1_0000_0000
  {
    x as bv32
  }

  function ZeroBytes(n: nat): (z: seq<bv8>)
    ensures |z| == n && forall i :: 0 <= i < n ==> z[i] == 0
  {
    seq(n, _ => 0)
  }

  /** The message with its padding bits (section 3.1 of RFC 1321): a length of 56 bytes modulo 64. */
  function Padded(m: seq<bv8>): (p: seq<bv8>)
    ensures |p| == 64 * (|m| / 64) + (if |m| % 64 < 56 then 56 else 120)
    ensures m <= p
  {
    m + [0x80] + ZeroBytes((if |m| % 64 < 56 then 55 else 119) - |m| % 64)
  }

  /** Word w of the padded message with its length appended (section 3.2). */
  function PaddedWord(m: seq<bv8>, w: nat): bv32 {
    var p := Padded(m);
    if 4 * w + 4 <= |p| then Part(p, 4 * w, 4)
    else if 4 * w == |p| then ToWord(8 * |m| % 0x1_0000_0000)
    else ToWord(8 * |m| / 0x1_0000_0000 % 0x1_0000_0000)
  }

  function PaddedBlock(m: seq<bv8>, n: nat): (b: seq<bv32>)
    ensures |b| == 16
  {
    seq(16, i requires 0 <= i < 16 => PaddedWord(m, 16 * n + i))
  }

  /** The chaining value after the first n blocks of the padded message. */
  function Chain(f: Compression, m: seq<bv8>, n: nat): Chaining {
    if n == 0 then INIT else f(Chain(f, m, n - 1), PaddedBlock(m, n - 1))
  }

  /** The message digest: the chaining value after all blocks, low-order bytes first. */
  function Digest(f: Compression, m: seq<bv8>): seq<bv8> {
    var h := Chain(f, m, (|Padded(m)| + 8) / 64);
    L2C(h.A) + L2C(h.B) + L2C(h.C) + L2C(h.D)
  }

  lemma {:induction false} ChainStep(f: Compression, m: seq<bv8>, n: nat)
    ensures Chain(f, m, n + 1) == f(Chain(f, m, n), PaddedBlock(m, n))
  {
  }

  /** Before the padding, the blocks are those of the message. */
  lemma {:induction false} ChainIsAfter(f: Compression, m: seq<bv8>, n: nat)
    requires 64 * n <= |m|
    ensures Chain(f, m, n) == After(f, m, n)
  {
    hide Block, PaddedBlock;
    if n > 0 {
      ChainIsAfter(f, m, n - 1);
      BlockIsPadded(m, n - 1);
    }
  }

  lemma {:induction false} BlockIsPadded(m: seq<bv8>, n: nat)
    requires 64 * n + 64 <= |m|
    ensures Block(m, 64 * n) == PaddedBlock(m, n)
  {
    hide Part, Padded;
    var p := Padded(m);
    SameBlock(m, p, 64 * n);
    forall i | 0 <= i < 16
      ensures PaddedWord(m, 16 * n + i) == Block(p, 64 * n)[i]
    {
      assert 4 * (16 * n + i) == 64 * n + 4 * i;
    }
  }

  lemma {:induction false} HalvesAre(nl: nat, nh: nat, n: nat)
    requires Counted(nl, nh, n)
    ensures nl == 8 * n % 0x1_0000_0000 && nh == 8 * n / 0x1_0000_0000 % 0x1_0000_0000
  {
    var k := 8 * n / 0x1_0000_0000_0000_0000;
    Halves(8 * n, nl, nh, k);
  }

  lemma {:induction false} Halves(x: nat, nl: nat, nh: nat, k: nat)
    requires x == 0x1_0000_0000_0000_0000 * k + 0x1_0000_0000 * nh + nl && nl < 0x1_0000_0000 && nh < 0x1_0000_0000
    ensures x % 0x1_0000_0000 == nl && x / 0x1_0000_0000 % 0x1_0000_0000 == nh
  {
    Mod32(x, 0x1_0000_0000 * k + nh, nl);
    assert x / 0x1_0000_0000 == 0x1_0000_0000 * k + nh;
    Mod32(x / 0x1_0000_0000, k, nh);
  }

  lemma {:induction false} ZeroPart(s: seq<bv8>, o: nat, k: nat)
    requires o + k <= |s| && k <= 4 && forall i :: o <= i < o + k ==> s[i] == 0
    ensures Part(s, o, k) == 0
  {
    if k > 0 {
      ZeroPart(s, o, k - 1);
      ZeroByte(k - 1);
    }
  }

  lemma {:induction false} ZeroByte(k: nat)
    ensures Put(0, k, 0) == 0
  {
  }

  /** The first padding byte and zeros behind it. */
  const END: seq<bv8> := [0x80, 0, 0, 0]

  /** A word of the padded message that is not behind the message. */
  lemma {:induction false} WordWithEnd(m: seq<bv8>, o: nat)
    requires o <= |m| && o + 4 <= |Padded(m)|
    ensures o + 4 <= |m + END| && Part(Padded(m), o, 4) == Part(m + END, o, 4)
  {
    hide Part;
    var p, s := Padded(m), m + END;
    forall i | o <= i < o + 4
      ensures p[i] == s[i]
    {
    }
    assert p[o..o + 4] == s[o..o + 4];
    SamePart(p, o, s, o, 4);
  }

  /** A word behind the message and the first padding byte. */
  lemma {:induction false} WordOfZeros(m: seq<bv8>, o: nat)
    requires o > |m| && o + 4 <= |Padded(m)|
    ensures Part(Padded(m), o, 4) == 0
  {
    ZeroPart(Padded(m), o, 4);
  }

  /** The last block is full of message and padding, without the length. */
  lemma {:induction false} LongTail(m: seq<bv8>, d0: seq<bv32>, d: seq<bv32>, n: nat, i: nat)
    requires n == |m| / 64 && |m| % 64 >= 56 && i == |m| % 64 / 4 + 1 && Tail(d0, m + END, 64 * n, i, 0) && |d| == 16
    requires forall w :: 0 <= w < 16 ==> d[w] == if i <= w then 0 else d0[w]
    ensures d == PaddedBlock(m, n)
  {
    hide Part, Padded, ToWord;
    forall w | 0 <= w < 16
      ensures d[w] == PaddedWord(m, 16 * n + w)
    {
      if w < i {
        WordWithEnd(m, 64 * n + 4 * w);
      } else {
        WordOfZeros(m, 64 * n + 4 * w);
      }
    }
  }

  /** The last block, with message, padding and length. */
  lemma {:induction false} ShortTail(m: seq<bv8>, d0: seq<bv32>, d: seq<bv32>, n: nat, i: nat)
    requires n == |m| / 64 && |m| % 64 < 56 && i == |m| % 64 / 4 + 1 && Tail(d0, m + END, 64 * n, i, 0) && |d| == 16
    requires forall w :: 0 <= w < 14 ==> d[w] == if i <= w then 0 else d0[w]
    requires d[14] == ToWord(8 * |m| % 0x1_0000_0000) && d[15] == ToWord(8 * |m| / 0x1_0000_0000 % 0x1_0000_0000)
    ensures d == PaddedBlock(m, n)
  {
    hide Part, Padded, ToWord;
    forall w | 0 <= w < 16
      ensures d[w] == PaddedWord(m, 16 * n + w)
    {
      if w < i {
        WordWithEnd(m, 64 * n + 4 * w);
      } else if w < 14 {
        WordOfZeros(m, 64 * n + 4 * w);
      }
    }
  }

  /** The last block, with padding and length only. */
  lemma {:induction false} LengthOnly(m: seq<bv8>, d: seq<bv32>, n: nat)
    requires n == |m| / 64 + 1 && |m| % 64 >= 56 && |d| == 16
    requires forall w :: 0 <= w < 14 ==> d[w] == 0
    requires d[14] == ToWord(8 * |m| % 0x1_0000_0000) && d[15] == ToWord(8 * |m| / 0x1_0000_0000 % 0x1_0000_0000)
    ensures d == PaddedBlock(m, n)
  {
    hide Part, Padded, ToWord;
    forall w | 0 <= w < 16
      ensures d[w] == PaddedWord(m, 16 * n + w)
    {
      if w < 14 {
        WordOfZeros(m, 64 * n + 4 * w);
      }
    }
  }

  /** `MD5_CTX`, which was fed the bytes of a message so far. */
  class Context {
    const f: Compression
    var h: Chaining
    var nl: nat
    var nh: nat
    const data: array<bv32>
    var num: nat
    ghost var fed: seq<bv8>
    ghost var done: nat  // the blocks that were compressed

    ghost predicate Valid()
      reads this, data
    {
      && num < 64 && |fed| == 64 * done + num && h == After(f, fed, done)
      && data.Length == 16 && Tail(data[..], fed, 64 * done, num / 4, num % 4)
      && Counted(nl, nh, |fed|)
    }

    /** `MD5_Init` */
    constructor (f: Compression)
      ensures Valid() && fed == [] && this.f == f && fresh(data)
    {
      this.f := f;
      h, nl, nh, num, fed, done := INIT, 0, 0, 0, [], 0;
      data := new bv32[16];
    }

    /** Compress the block that is filled. */
    method Compress(ghost s: seq<bv8>)
      requires data.Length == 16 && 64 * done + 64 <= |s| && h == After(f, s, done) && Tail(data[..], s, 64 * done, 16, 0)
      modifies this`h, this`done
      ensures done == old(done) + 1 && h == After(f, s, done)
    {
      FullBlock(data[..], s, 64 * done);
      h := f(h, data[..]);
      done := done + 1;
    }

    /** The bytes c complete the block that is partly filled. */
    method TopUp(c: seq<bv8>, ghost s: seq<bv8>) returns (p: nat)
      requires data.Length == 16 && num < 64 && num + |c| >= 64 && |s| == 64 * done + num + |c| && Copied(c, 0, s, 64 * done + num)
      requires h == After(f, s, done) && Tail(data[..], s, 64 * done, num / 4, num % 4)
      modifies this`h, this`done, this`num, data
      ensures done == old(done) + 1 && h == After(f, s, done) && num == 0
      ensures p == 64 - old(num) && Copied(c, p, s, 64 * done)
    {
      hide After, Tail, Block;
      var sw, sc := num / 4, num % 4;
      FillUp(data, sw, sc, c, 0, s, 64 * done);
      CopiedPart(c, 0, s, 64 * done + num, 4 - sc, 0);
      p := FillWords(data, sw + 1, 16, c, 4 - sc, s, 64 * done);
      CopiedPart(c, 0, s, 64 * done + num, 64 - num, 0);
      Compress(s);
      num := 0;
    }

    /** The bytes c go into the word that is partly filled and do not complete it. */
    method AddToWord(sw: nat, sc: nat, c: seq<bv8>, ghost s: seq<bv8>, ghost o: nat)
      requires data.Length == 16 && Tail(data[..], s, o, sw, sc) && sc + |c| < 4 && c != [] && sw < 16
      requires |s| == o + 4 * sw + sc + |c| && Copied(c, 0, s, o + 4 * sw + sc)
      modifies data
      ensures Tail(data[..], s, o, sw, sc + |c|)
    {
      hide Part;
      CopiedPart(c, 0, s, o + 4 * sw + sc, 0, |c|);
      ghost var d0 := data[..];
      assert c[..|c|] == c[0..0 + |c|];
      var l := PC2LP(c, data[sw], sc, |c|, s, o + 4 * sw);
      data[sw] := l;
      assert data[..] == d0[sw := l];
    }

    /** The bytes c go into the block that is partly filled and do not complete it. */
    method AddShort(c: seq<bv8>, ghost s: seq<bv8>)
      requires data.Length == 16 && 0 < num && num + |c| < 64 && c != [] && |s| == 64 * done + num + |c| && Copied(c, 0, s, 64 * done + num)
      requires Tail(data[..], s, 64 * done, num / 4, num % 4)
      modifies this`num, data
      ensures num == old(num) + |c| && Tail(data[..], s, 64 * done, num / 4, num % 4)
    {
      hide Tail, Copied;
      ghost var o := 64 * done;
      var sw, sc := num / 4, num % 4;
      num := num + |c|;
      if sc + |c| < 4 {
        AddToWord(sw, sc, c, s, o);
      } else {
        var ew, ec := num / 4, num % 4;
        FillUp(data, sw, sc, c, 0, s, o);
        CopiedPart(c, 0, s, o + 4 * sw + sc, 4 - sc, 0);
        var p := FillWords(data, sw + 1, ew, c, 4 - sc, s, o);
        CopiedPart(c, 0, s, o + 4 * sw + sc, p, 0);
        if ec > 0 {
          FillLast(data, ew, ec, c, p, s, o);
        }
      }
    }

    /** The bytes of c from p on, in whole blocks and what is left. */
    method AddBlocks(c: seq<bv8>, p0: nat, ghost s: seq<bv8>)
      requires data.Length == 16 && Copied(c, p0, s, 64 * done) && h == After(f, s, done) && 64 * done <= |s|
      modifies this`h, this`done, this`num, data
      ensures num < 64 && |s| == 64 * done + num && h == After(f, s, done) && Tail(data[..], s, 64 * done, num / 4, num % 4)
    {
      hide Tail, After, Block;
      var p := p0;
      CopiedPart(c, p0, s, 64 * done, |c| - p0, 0);
      while |c| - p >= 64
        invariant p <= |c| && Copied(c, p, s, 64 * done) && h == After(f, s, done) && |c| - p == |s| - 64 * done
      {
        CopiedPart(c, p, s, 64 * done, 64, 0);
        NothingYet(data[..], s, 64 * done);
        p := FillWords(data, 0, 16, c, p, s, 64 * done);
        Compress(s);
      }
      num := |c| - p;
      NothingYet(data[..], s, 64 * done);
      if num > 0 {
        CopiedPart(c, p, s, 64 * done, 4 * (num / 4), 0);
        p := FillWords(data, 0, num / 4, c, p, s, 64 * done);
        FillLast(data, num / 4, num % 4, c, p, s, 64 * done);
      }
    }

    /** The bytes c go into the block that is partly filled, because the sum, in a word, says that they do not
        complete it. For a piece that is nearly as long as a word can say the sum has wrapped around. */
    method AddPart(c: seq<bv8>, ghost s: seq<bv8>)
      requires data.Length == 16 && 0 < num < 64 && c != [] && (num + |c|) % 0x1_0000_0000 < 64
      requires |s| == 64 * done + num + |c| && Copied(c, 0, s, 64 * done + num)
      requires Tail(data[..], s, 64 * done, num / 4, num % 4)
      modifies this`num, data
      ensures num == (old(num) + |c|) % 0x1_0000_0000
      ensures old(num) + |c| < 0x1_0000_0000 ==> Tail(data[..], s, 64 * done, num / 4, num % 4)
    {
      if |c| < 64 {
        AddShort(c, s);
      } else {
        num := (num + |c|) % 0x1_0000_0000;
      }
    }

    /** The part of `MD5_Update` behind the counting. */
    method Take(c: seq<bv8>, ghost s: seq<bv8>)
      requires data.Length == 16 && num < 64 && c != [] && |c| < 0x1_0000_0000
      requires |s| == 64 * done + num + |c| && Copied(c, 0, s, 64 * done + num)
      requires h == After(f, s, done) && Tail(data[..], s, 64 * done, num / 4, num % 4)
      modifies this`h, this`done, this`num, data
      ensures |s| == 64 * done + num <==> old(num) == 0 || old(num) + |c| < 0x1_0000_0000
      ensures |s| == 64 * done + num ==>
                num < 64 && h == After(f, s, done) && Tail(data[..], s, 64 * done, num / 4, num % 4)
    {
      hide After, Block, Tail, Copied;
      var p := 0;
      if num != 0 {
        if (num + |c|) % 0x1_0000_0000 >= 64 {
          p := TopUp(c, s);
        } else {
          AddPart(c, s);
          return;
        }
      }
      AddBlocks(c, p, s);
    }

    /** `MD5_Update`: the context stands for the message with the new piece exactly when the sum of the length and of
        what is left in the buffer does not wrap around, or nothing is left. */
    method Update(c: seq<bv8>)
      requires Valid() && |c| < 0x1_0000_0000
      modifies this, data
      ensures fed == old(fed) + c
      ensures Valid() <==> old(num) == 0 || old(num) + |c| < 0x1_0000_0000
    {
      if |c| == 0 {
        assert fed + c == fed;
        return;
      }
      hide After, Block, Tail, Counted, Copied;
      FedMore(c);
      nl, nh := CountBits(nl, nh, |c|, |fed|);
      fed := fed + c;
      Take(c, fed);
    }

    lemma {:induction false} NumIs()
      requires Valid()
      ensures num == |fed| % 64
    {
      hide After, Tail, Counted;
    }

    /** The context before a new piece, as seen from the longer message. */
    lemma {:induction false} FedMore(c: seq<bv8>)
      requires Valid()
      ensures var s := fed + c;
              && |s| == 64 * done + num + |c| && Copied(c, 0, s, 64 * done + num)
              && h == After(f, s, done) && Tail(data[..], s, 64 * done, num / 4, num % 4)
    {
      hide After, Tail, Counted;
      var s := fed + c;
      AfterMore(f, fed, s, done);
      TailMore(data[..], fed, s, 64 * done, num / 4, num % 4);
      assert c[0..] == s[64 * done + num..];
    }

    /** Zeros in some words. */
    method ClearWords(from: nat, to: nat)
      requires data.Length == 16 && from <= to <= 16
      modifies data
      ensures forall w :: 0 <= w < 16 ==> data[w] == if from <= w < to then 0 else old(data[w])
    {
      var i := from;
      while i < to
        invariant from <= i <= to
        invariant forall w :: 0 <= w < 16 ==> data[w] == if from <= w < i then 0 else old(data[w])
      {
        data[i] := 0;
        i := i + 1;
      }
    }

    /** Compress a block of the padded message. */
    method CompressPadded()
      requires data.Length == 16 && h == Chain(f, fed, done) && data[..] == PaddedBlock(fed, done)
      modifies this`h, this`done
      ensures done == old(done) + 1 && h == Chain(f, fed, done)
    {
      hide Chain, PaddedBlock;
      ChainStep(f, fed, done);
      h := f(h, data[..]);
      done := done + 1;
    }

    /** The first padding byte, and a block of its own for it and the message if there is no room for
        the length. */
    method PadMessage() returns (i: nat)
      requires Valid()
      modifies this`h, this`done, data
      ensures h == Chain(f, fed, done)
      ensures if num >= 56 then done == |fed| / 64 + 1 && i == 0
        else done == |fed| / 64 && i == num / 4 + 1 && Tail(data[..], fed + END, 64 * done, i, 0)
    {
      hide After, Tail, PaddedBlock, Chain;
      ghost var s, o := fed + END, 64 * done;
      TailMore(data[..], fed, s, o, num / 4, num % 4);
      assert END[0..] == s[|fed|..];
      FillUp(data, num / 4, num % 4, END, 0, s, o);
      ChainIsAfter(f, fed, done);
      i := num / 4 + 1;
      if num >= 56 {
        ghost var d0 := data[..];
        ClearWords(i, 16);
        LongTail(fed, d0, data[..], done, i);
        CompressPadded();
        i := 0;
      }
    }

    /** Zeros up to the length, and the length. */
    method PadLength(i: nat)
      requires data.Length == 16 && num < 64 && num == |fed| % 64 && Counted(nl, nh, |fed|) && i <= 14 && h == Chain(f, fed, done)
      requires if num >= 56 then done == |fed| / 64 + 1 && i == 0
        else done == |fed| / 64 && i == num / 4 + 1 && Tail(data[..], fed + END, 64 * done, i, 0)
      modifies this`h, this`done, data
      ensures done == |fed| / 64 + (if num >= 56 then 2 else 1) && h == Chain(f, fed, done)
    {
      hide Tail, PaddedBlock, Chain, Counted, ToWord;
      HalvesAre(nl, nh, |fed|);
      ghost var d0 := data[..];
      ClearWords(i, 14);
      data[14] := ToWord(nl);
      data[15] := ToWord(nh);
      if num >= 56 {
        LengthOnly(fed, data[..], done);
      } else {
        ShortTail(fed, d0, data[..], done, i);
      }
      CompressPadded();
    }

    /** `MD5_Final`: the digest of what was fed. */
    method Final() returns (md: seq<bv8>)
      requires Valid()
      modifies this, data
      ensures md == Digest(f, fed) && num == 0 && fed == old(fed)
    {
      hide After, Tail, Chain, Counted;
      var i := PadMessage();
      PadLength(i);
      md := L2C(h.A) + L2C(h.B) + L2C(h.C) + L2C(h.D);
      num := 0;
    }
  }

  function Joined(pieces: seq<seq<bv8>>): seq<bv8> {
    if pieces == [] then [] else pieces[0] + Joined(pieces[1..])
  }

  /** No piece makes the sum of its length and of what is left of the n bytes before it wrap around. */
  predicate Smooth(pieces: seq<seq<bv8>>, n: nat) {
    pieces == [] ||
    (|pieces[0]| < 0x1_0000_0000 && (n % 64 == 0 || n % 64 + |pieces[0]| < 0x1_0000_0000)
     && Smooth(pieces[1..], n + |pieces[0]|))
  }

  /** The digest of a message does not depend on the pieces in which it comes. */
  method DigestOf(f: Compression, pieces: seq<seq<bv8>>) returns (md: seq<bv8>)
    requires Smooth(pieces, 0)
    ensures md == Digest(f, Joined(pieces))
  {
    hide Digest, Context.Valid;
    var c := new Context(f);
    ghost var all := Joined(pieces);
    assert pieces[0..] == pieces;
    for i := 0 to |pieces|
      invariant c.Valid() && c.f == f && c.fed + Joined(pieces[i..]) == all && fresh(c) && fresh(c.data)
      invariant Smooth(pieces[i..], |c.fed|)
    {
      c.NumIs();
      c.Update(pieces[i]);
      assert pieces[i..][1..] == pieces[i + 1..];
    }
    assert c.fed == all;
    md := c.Final();
  }
}
