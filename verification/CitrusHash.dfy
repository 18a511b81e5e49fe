/** Hash values of keys: any hash function, and the standard one (citrus_db_hash.c). */
module CitrusHash {
  import opened Octets
  import opened CitrusBcs

  type HashFunction = seq<octet> -> uint32

  /** The home slot of a hash value in a table of n slots. */
  function Residue(v: uint32, n: nat): (r: nat)
    requires n > 0
    ensures r < n && r <= v
  {
    assert v % n <= v by {
      assert v % n == v - v / n * n && v / n * n >= 0;
    }
    v % n
  }

  /** Fold the four top bits of a sum back into it. */
  function Fold(sum: bv32): (r: bv32)
    ensures r < 0x1000_0000
  {
    var top := sum & 0xF000_0000;
    (sum ^ top) ^ (top >> 24)
  }

  function Added(hash: bv32, c: octet): bv32 {
    (hash << 4) + (c as bv32)
  }

  /** The hash value after the first m bytes of a key. */
  function HashBits(key: seq<octet>, m: nat): bv32
    requires m <= |key|
  {
    if m == 0 then 0 else Fold(Added(HashBits(key, m - 1), ToLower(key[m - 1])))
  }

  /** The four top bits are added, without carry, to the bits 4 to 7, and are dropped. */
  lemma {:induction false} FoldIs(sum: bv32)
    ensures Fold(sum) == (sum & 0x0FFF_FFFF) ^ ((sum >> 24) & 0xF0)
  {
  }

  /** The bits are shifted by four before a character is added. */
  lemma {:induction false} AddedIs(h: bv32, c: octet)
    ensures Added(h, c) == h * 16 + (c as bv32)
  {
  }

  function HashStd(key: seq<octet>): uint32 {
    HashBits(key, |key|) as int
  }

  /** The key GB18030. */
  const GB: seq<octet> := [71, 66, 49, 56, 48, 51, 48]

  lemma {:induction false} HashOfFour()
    ensures HashBits(GB, 4) == 0x6d548
  {
    assert HashBits(GB, 1) == 0x67;
    assert HashBits(GB, 2) == 0x6d2;
    assert HashBits(GB, 3) == 0x6d51;
  }

  /** Its hash value, by way of the values of its beginnings. */
  lemma {:induction false} HashOfGb()
    ensures HashBits(GB, 7) == 0xd54b300
  {
    HashOfFour();
    assert HashBits(GB, 5) == 0x6d54b0;
    assert HashBits(GB, 6) == 0x6d54b33;
  }

  /** Keys that differ only in case have the same hash value. */
  lemma {:induction false} HashIgnoresCase(a: seq<octet>, b: seq<octet>, m: nat)
    requires |a| == |b| && Lower(a) == Lower(b) && m <= |a|
    ensures HashBits(a, m) == HashBits(b, m)
  {
    if m > 0 {
      HashIgnoresCase(a, b, m - 1);
      assert ToLower(a[m - 1]) == Lower(a)[m - 1] == Lower(b)[m - 1] == ToLower(b[m - 1]);
    }
  }

  /** The round of the loop in `_citrus_db_hash_std`. */
  method Round(hash0: bv32, c: octet) returns (hash: bv32)
    ensures hash == Fold(Added(hash0, c))
  {
    hash := Added(hash0, c);
    var tmp := hash & 0xF000_0000;
    if tmp != 0 {
      hash := hash ^ tmp;
      hash := hash ^ (tmp >> 24);
    }
  }

  /** `_citrus_db_hash_std`: the fold of all characters in lower case, a value of at most 28 bits. */
  method Std(key: seq<octet>) returns (hash: bv32)
    ensures hash as int == HashStd(key) && hash < 0x1000_0000
  {
    hash := 0;
    var p := 0;
    for i := |key| downto 0
      invariant p == |key| - i
      invariant hash == HashBits(key, p) && hash < 0x1000_0000
    {
      hash := Round(hash, ToLower(key[p]));
      p := p + 1;
    }
  }
}
