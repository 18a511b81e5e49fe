/** Bytes and words of the MD5 message digest: the packing macros (md5_locl.h). */
module Md5Words {

  function Shifted(k: nat, b: bv8): bv32 {
    if k == 0 then b as bv32 else if k == 1 then (b as bv32) << 8 else if k == 2 then (b as bv32) << 16 else (b as bv32) << 24
  }

  /** The word l with byte number k, which was 0, set to b. */
  function Put(l: bv32, k: nat, b: bv8): bv32 {
    l | Shifted(k, b)
  }

  /** The word whose first k bytes are those at o, the first one lowest, and whose other bytes are 0. */
  function Part(s: seq<bv8>, o: nat, k: nat): bv32
    requires o + k <= |s| && k <= 4
  {
    if k == 0 then 0 else Put(Part(s, o, k - 1), k - 1, s[o + k - 1])
  }

  lemma {:induction false} FirstByte(b: bv8)
    ensures Put(0, 0, b) == b as bv32
  {
  }

  lemma {:induction false} PartStep(s: seq<bv8>, o: nat, k: nat)
    requires o + k <= |s| && 0 < k <= 4
    ensures Part(s, o, k) == Put(Part(s, o, k - 1), k - 1, s[o + k - 1])
    ensures k == 1 ==> Part(s, o, k) == s[o] as bv32
  {
    FirstByte(s[o]);
    hide Put;
    if k == 1 {
      assert Part(s, o, 0) == 0;
    }
  }

  /** What a word holds depends on its bytes only. */
  lemma {:induction false} SamePart(s: seq<bv8>, o: nat, t: seq<bv8>, p: nat, k: nat)
    requires o + k <= |s| && p + k <= |t| && k <= 4 && s[o..o + k] == t[p..p + k]
    ensures Part(s, o, k) == Part(t, p, k)
  {
    hide Put;
    if k > 0 {
      assert s[o + k - 1] == s[o..o + k][k - 1];
      assert t[p + k - 1] == t[p..p + k][k - 1];
      assert s[o..o + k - 1] == s[o..o + k][..k - 1] == t[p..p + k][..k - 1] == t[p..p + k - 1];
      SamePart(s, o, t, p, k - 1);
    }
  }

  /** `c2l` */
  method C2L(c: seq<bv8>, p: nat) returns (l: bv32)
    requires p + 4 <= |c|
    ensures l == Part(c, p, 4)
  {
    PartStep(c, p, 1);
    PartStep(c, p, 2);
    PartStep(c, p, 3);
    PartStep(c, p, 4);
    hide Part;
    l := c[p] as bv32;
    l := Put(l, 1, c[p + 1]);
    l := Put(l, 2, c[p + 2]);
    l := Put(l, 3, c[p + 3]);
  }

  /** `p_c2l`: fill up a word that holds the n bytes at o of s with those that follow, at p of c. */
  method PC2L(c: seq<bv8>, p: nat, l0: bv32, n: nat, ghost s: seq<bv8>, ghost o: nat) returns (l: bv32)
    requires n < 4 && p + (4 - n) <= |c| && o + 4 <= |s| && s[o + n..o + 4] == c[p..p + 4 - n]
    requires n > 0 ==> l0 == Part(s, o, n)
    ensures l == Part(s, o, 4)
  {
    PartStep(s, o, 1);
    PartStep(s, o, 2);
    PartStep(s, o, 3);
    PartStep(s, o, 4);
    assert forall j :: p <= j < p + 4 - n ==> c[j] == c[p..p + 4 - n][j - p] == s[o + n..o + 4][j - p] == s[o + n + j - p];
    hide Part, Put;
    l := l0;
    var q := p;
    if n == 0 {
      l := c[q] as bv32;
      q := q + 1;
    }
    if n <= 1 {
      l := Put(l, 1, c[q]);
      q := q + 1;
    }
    if n <= 2 {
      l := Put(l, 2, c[q]);
      q := q + 1;
    }
    l := Put(l, 3, c[q]);
  }

  /** `c2l_p`: a word of n bytes, taken from the last one on. */
  method C2LP(c: seq<bv8>, p: nat, n: nat) returns (l: bv32)
    requires n < 4 && p + n <= |c|
    ensures l == Part(c, p, n)
  {
    PartIsOr(c, p, n);
    hide Part, Shifted;
    l := 0;
    var q := p + n;
    if n == 3 {
      q := q - 1;
      l := Shifted(2, c[q]);
    }
    if n >= 2 {
      q := q - 1;
      l := l | Shifted(1, c[q]);
    }
    if n >= 1 {
      q := q - 1;
      l := l | Shifted(0, c[q]);
    }
  }

  /** The order in which bytes are put into a word makes no difference. */
  lemma {:induction false} PartIsOr(c: seq<bv8>, p: nat, n: nat)
    requires n < 4 && p + n <= |c|
    ensures n == 0 ==> Part(c, p, n) == 0
    ensures n == 1 ==> Part(c, p, n) == 0 | Shifted(0, c[p])
    ensures n == 2 ==> Part(c, p, n) == (0 | Shifted(1, c[p + 1])) | Shifted(0, c[p])
    ensures n == 3 ==> Part(c, p, n) == (Shifted(2, c[p + 2]) | Shifted(1, c[p + 1])) | Shifted(0, c[p])
  {
    if n == 2 {
      TwoBytes(c, p);
    }
    if n == 3 {
      TwoBytes(c, p);
      ThreeBytes(c, p);
    }
    hide Shifted;
  }

  lemma {:induction false} TwoBytes(c: seq<bv8>, p: nat)
    requires p + 2 <= |c|
    ensures Part(c, p, 2) == (0 | Shifted(1, c[p + 1])) | Shifted(0, c[p])
    ensures Part(c, p, 2) == (0 | Shifted(0, c[p])) | Shifted(1, c[p + 1])
  {
    hide Shifted;
    OrSwap(Shifted(0, c[p]), Shifted(1, c[p + 1]), 0);
    assert Part(c, p, 1) == Put(Part(c, p, 0), 0, c[p]);
  }

  lemma {:induction false} ThreeBytes(c: seq<bv8>, p: nat)
    requires p + 3 <= |c| && Part(c, p, 2) == (0 | Shifted(0, c[p])) | Shifted(1, c[p + 1])
    ensures Part(c, p, 3) == (Shifted(2, c[p + 2]) | Shifted(1, c[p + 1])) | Shifted(0, c[p])
  {
    hide Shifted;
    OrSwap(Shifted(0, c[p]), Shifted(1, c[p + 1]), Shifted(2, c[p + 2]));
  }

  lemma {:induction false} OrSwap(x: bv32, y: bv32, z: bv32)
    ensures ((0 | x) | y) | z == (z | y) | x
    ensures (0 | y) | x == (0 | x) | y
  {
  }

  /** `p_c2l_p`: more bytes for a word that holds sc bytes at o of s and does not get full. */
  method PC2LP(c: seq<bv8>, l0: bv32, sc: nat, len: nat, ghost s: seq<bv8>, ghost o: nat) returns (l: bv32)
    requires 0 < len <= |c| && sc + len < 4 && o + sc + len <= |s| && s[o + sc..o + sc + len] == c[..len]
    requires sc > 0 ==> l0 == Part(s, o, sc)
    ensures l == Part(s, o, sc + len)
  {
    PartStep(s, o, 1);
    if sc + len >= 2 {
      PartStep(s, o, 2);
    }
    if sc + len >= 3 {
      PartStep(s, o, 3);
    }
    assert forall i :: 0 <= i < len ==> s[o + sc + i] == s[o + sc..o + sc + len][i] == c[..len][i] == c[i];
    hide Part, Put;
    l := l0;
    var q, left := 0, len;
    if sc == 0 {
      l := c[q] as bv32;
      q := q + 1;
      left := left - 1;
      if left == 0 {
        return;
      }
    }
    if sc <= 1 {
      l := Put(l, 1, c[q]);
      q := q + 1;
      left := left - 1;
      if left == 0 {
        return;
      }
    }
    l := Put(l, 2, c[q]);
  }

  /** `l2c` */
  function L2C(l: bv32): seq<bv8> {
    [(l & 0xff) as bv8, ((l >> 8) & 0xff) as bv8, ((l >> 16) & 0xff) as bv8, ((l >> 24) & 0xff) as bv8]
  }

  /** Writing a word takes back packing its bytes. */
  lemma {:induction false} L2CRoundTrip(b0: bv8, b1: bv8, b2: bv8, b3: bv8)
    ensures L2C(Put(Put(Put(Put(0, 0, b0), 1, b1), 2, b2), 3, b3)) == [b0, b1, b2, b3]
  {
  }
}
