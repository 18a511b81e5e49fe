/** The bytes of a Citrus database file: a header of 16 bytes, which begins with 8 bytes of magic, a
    directory of entries of 24 bytes each, a key table and a data table, the last three aligned to
    16 bytes (_CITRUS_DB_HEADER_SIZE, _CITRUS_DB_MAGIC_SIZE, _CITRUS_DB_ENTRY_SIZE, DB_ALIGN). */
module CitrusImage {
  import opened Octets
  import opened Scan
  import opened Permutation
  import opened CitrusSlots

  /** One key with the data added under it. */
  datatype Pair = Pair(key: seq<octet>, data: seq<octet>)

  /** x is a multiple of 16. */
  predicate Aligned(x: nat) {
    x == 0 || (x >= 16 && Aligned(x - 16))
  }

  /** The least multiple of 16 that is not below n. */
  function CeilTo(n: nat): (c: nat)
    ensures n <= c < n + 16
    ensures Aligned(c)
  {
    if n == 0 then 0 else if n <= 16 then 16 else 16 + CeilTo(n - 16)
  }

  /** The formula of `ceilto`: add 16 - 1 and clear the low bits. */
  lemma {:induction false} CeilToFormula(n: nat)
    ensures CeilTo(n) == (n + 15) / 16 * 16
  {
    if n > 16 {
      CeilToFormula(n - 16);
    }
  }

  lemma {:induction false} AlignedFormula(x: nat)
    ensures Aligned(x) <==> x % 16 == 0
  {
    if x >= 16 {
      AlignedFormula(x - 16);
    }
  }

  lemma {:induction false} AlignedSum(a: nat, b: nat)
    requires Aligned(a) && Aligned(b)
    ensures Aligned(a + b)
  {
    if b > 0 {
      AlignedSum(a, b - 16);
    }
  }

  function Pad(n: nat): seq<octet> {
    Zeros(CeilTo(n) - n)
  }

  function Padded(s: seq<octet>): (p: seq<octet>)
    ensures |p| == CeilTo(|s|)
    ensures p[..|s|] == s
  {
    s + Pad(|s|)
  }

  /** Padding a position that lies x bytes behind an aligned one. */
  lemma {:induction false} CeilShift(base: nat, x: nat)
    requires Aligned(base)
    ensures CeilTo(base + x) == base + CeilTo(x)
    ensures Pad(base + x) == Pad(x)
  {
    if base > 0 {
      CeilShift(base - 16, x);
      if base + x <= 16 {
        assert base == 16 && x == 0;
      }
    }
  }

  /** The first m keys of the key table. */
  function KeyBytes(ps: seq<Pair>, m: nat): seq<octet>
    requires m <= |ps|
  {
    if m == 0 then [] else KeyBytes(ps, m - 1) + ps[m - 1].key
  }

  /** The first m data of the data table. */
  function DataBytes(ps: seq<Pair>, m: nat): seq<octet>
    requires m <= |ps|
  {
    if m == 0 then [] else DataBytes(ps, m - 1) + Padded(ps[m - 1].data)
  }

  function KeySizes(ps: seq<Pair>): (r: seq<nat>)
    ensures |r| == |ps| && forall k :: 0 <= k < |ps| ==> r[k] == |ps[k].key|
  {
    seq(|ps|, k requires 0 <= k < |ps| => |ps[k].key|)
  }

  /** What each datum takes up in the data table. */
  function DataSizes(ps: seq<Pair>): (r: seq<nat>)
    ensures |r| == |ps| && forall k :: 0 <= k < |ps| ==> r[k] == CeilTo(|ps[k].data|)
  {
    seq(|ps|, k requires 0 <= k < |ps| => CeilTo(|ps[k].data|) as nat)
  }

  /** `_citrus_db_factory_calc_size` for n entries with the given table sizes. */
  function TotalSize(n: nat, keys: nat, data: nat): nat {
    CeilTo(16) + CeilTo(24 * n) + CeilTo(keys) + data
  }

  lemma {:induction false} TableSizes(ps: seq<Pair>, m: nat)
    requires m <= |ps|
    ensures |KeyBytes(ps, m)| == Sum(KeySizes(ps), m)
    ensures |DataBytes(ps, m)| == Sum(DataSizes(ps), m)
  {
    if m > 0 {
      TableSizes(ps, m - 1);
    }
  }

  /** Where the key of entry s lies among the first m keys. */
  lemma {:induction false} KeyInTable(ps: seq<Pair>, m: nat, s: nat)
    requires s < m <= |ps|
    ensures |KeyBytes(ps, s)| + |ps[s].key| <= |KeyBytes(ps, m)|
    ensures KeyBytes(ps, m)[|KeyBytes(ps, s)|..|KeyBytes(ps, s)| + |ps[s].key|] == ps[s].key
  {
    if s < m - 1 {
      KeyInTable(ps, m - 1, s);
    }
  }

  /** Where the data of entry s lie among the first m data. */
  lemma {:induction false} DataInTable(ps: seq<Pair>, m: nat, s: nat)
    requires s < m <= |ps|
    ensures |DataBytes(ps, s)| + CeilTo(|ps[s].data|) <= |DataBytes(ps, m)|
    ensures DataBytes(ps, m)[|DataBytes(ps, s)|..|DataBytes(ps, s)| + |ps[s].data|] == ps[s].data
  {
    hide CeilTo, Padded;
    var front, last := DataBytes(ps, m - 1), Padded(ps[m - 1].data);
    assert DataBytes(ps, m) == front + last;
    if s < m - 1 {
      DataInTable(ps, m - 1, s);
      hide DataBytes;
      var i, j := |DataBytes(ps, s)|, |DataBytes(ps, s)| + |ps[s].data|;
      assert (front + last)[i..j] == front[i..j];
    } else {
      hide DataBytes;
      assert (front + last)[|front|..|front| + |ps[s].data|] == last[..|ps[s].data|];
    }
  }

  lemma {:induction false} DataAligned(ps: seq<Pair>, m: nat)
    requires m <= |ps|
    ensures Aligned(|DataBytes(ps, m)|)
  {
    if m > 0 {
      DataAligned(ps, m - 1);
      AlignedSum(|DataBytes(ps, m - 1)|, CeilTo(|ps[m - 1].data|));
    }
  }

  /** What a directory entry says about the hash table: a residue and the offset of the next
      entry of the chain (0 at its end). */
  datatype Link = Link(hash: nat, next: nat)

  function KeyBase(n: nat): nat {
    16 + CeilTo(n * 24)
  }

  function DataBase(ps: seq<Pair>): nat {
    KeyBase(|ps|) + CeilTo(|KeyBytes(ps, |ps|)|)
  }

  function KeyOffset(ps: seq<Pair>, s: nat): nat
    requires s <= |ps|
  {
    KeyBase(|ps|) + |KeyBytes(ps, s)|
  }

  function DataOffset(ps: seq<Pair>, s: nat): nat
    requires s <= |ps|
  {
    DataBase(ps) + |DataBytes(ps, s)|
  }

  /** The first m words of ws as `put32` writes them. */
  function Words(ws: seq<nat>, m: nat): (b: seq<octet>)
    requires m <= |ws|
    ensures |b| == 4 * m
  {
    if m == 0 then [] else Words(ws, m - 1) + Be32(Low32(ws[m - 1]))
  }

  lemma {:induction false} WordIn(ws: seq<nat>, m: nat, k: nat)
    requires k < m <= |ws|
    ensures WordAt(Words(ws, m), 4 * k) == Low32(ws[k])
  {
    if k < m - 1 {
      WordIn(ws, m - 1, k);
      assert Words(ws, m)[4 * k..4 * k + 4] == Words(ws, m - 1)[4 * k..4 * k + 4];
    } else {
      assert Words(ws, m)[4 * k..4 * k + 4] == Be32(Low32(ws[k]));
      Be32RoundTrip(Low32(ws[k]));
    }
  }

  /** The six words of the directory entry in slot s. */
  function EntryWords(ps: seq<Pair>, links: seq<Link>, s: nat): (ws: seq<nat>)
    requires s < |ps| == |links|
    ensures |ws| == 6
  {
    [links[s].hash, links[s].next, KeyOffset(ps, s), |ps[s].key|, DataOffset(ps, s), |ps[s].data|]
  }

  /** The directory entry in slot s. */
  function EntryBytes(ps: seq<Pair>, links: seq<Link>, s: nat): (b: seq<octet>)
    requires s < |ps| == |links|
    ensures |b| == 24
  {
    Words(EntryWords(ps, links, s), 6)
  }

  /** Magic, number of entries and offset of the directory. */
  function Header(magic: seq<octet>, n: nat): (b: seq<octet>)
    requires |magic| >= 8
    ensures |b| == 16
  {
    magic[..8] + Be32(Low32(n)) + Be32(16)
  }

  /** Header and first m directory entries. */
  function Head(magic: seq<octet>, ps: seq<Pair>, links: seq<Link>, m: nat): (b: seq<octet>)
    requires |magic| >= 8 && m <= |ps| == |links|
    ensures |b| == 16 + m * 24
  {
    if m == 0 then Header(magic, |ps|) else Head(magic, ps, links, m - 1) + EntryBytes(ps, links, m - 1)
  }

  /** The whole file, for pairs in the order of their slots. */
  function Image(magic: seq<octet>, ps: seq<Pair>, links: seq<Link>): (b: seq<octet>)
    requires |magic| >= 8 && |ps| == |links|
  {
    (Head(magic, ps, links, |ps|) + Pad(|ps| * 24)) + Padded(KeyBytes(ps, |ps|)) + DataBytes(ps, |ps|)
  }

  function FileSize(ps: seq<Pair>): nat {
    DataBase(ps) + |DataBytes(ps, |ps|)|
  }

  lemma {:induction false} Parts(a: seq<octet>, b: seq<octet>, c: seq<octet>)
    ensures (a + b + c)[..|a|] == a
    ensures (a + b + c)[|a|..|a| + |b|] == b
    ensures (a + b + c)[|a| + |b|..] == c
  {
  }

  /** The parts tile the file. */
  lemma {:induction false} Tiling(magic: seq<octet>, ps: seq<Pair>, links: seq<Link>)
    requires |magic| >= 8 && |ps| == |links|
    ensures |Image(magic, ps, links)| == FileSize(ps)
    ensures 16 + |ps| * 24 <= KeyBase(|ps|) <= DataBase(ps) <= FileSize(ps)
    ensures Image(magic, ps, links)[..KeyBase(|ps|)] == Head(magic, ps, links, |ps|) + Pad(|ps| * 24)
    ensures Image(magic, ps, links)[KeyBase(|ps|)..DataBase(ps)] == Padded(KeyBytes(ps, |ps|))
    ensures Image(magic, ps, links)[DataBase(ps)..] == DataBytes(ps, |ps|)
  {
    var a := Head(magic, ps, links, |ps|) + Pad(|ps| * 24);
    var b, c := Padded(KeyBytes(ps, |ps|)), DataBytes(ps, |ps|);
    assert |a| == KeyBase(|ps|);
    assert |a| + |b| == DataBase(ps);
    Parts(a, b, c);
  }

  /** The size of the file is the one computed from the sizes of the tables. */
  lemma {:induction false} FileSizeIsTotal(ps: seq<Pair>)
    ensures FileSize(ps) == TotalSize(|ps|, Sum(KeySizes(ps), |ps|), Sum(DataSizes(ps), |ps|))
  {
    TableSizes(ps, |ps|);
  }

  /** The key table and every datum start on an alignment boundary. */
  lemma {:induction false} Alignment(ps: seq<Pair>, s: nat)
    requires s <= |ps|
    ensures Aligned(KeyBase(|ps|)) && Aligned(DataBase(ps)) && Aligned(DataOffset(ps, s))
  {
    AlignedSum(16, CeilTo(|ps| * 24));
    AlignedSum(KeyBase(|ps|), CeilTo(|KeyBytes(ps, |ps|)|));
    DataAligned(ps, s);
    AlignedSum(DataBase(ps), |DataBytes(ps, s)|);
  }

  lemma {:induction false} EntryInHead(magic: seq<octet>, ps: seq<Pair>, links: seq<Link>, m: nat, s: nat)
    requires |magic| >= 8 && s < m <= |ps| == |links|
    ensures Head(magic, ps, links, m)[16 + s * 24..16 + (s + 1) * 24] == EntryBytes(ps, links, s)
  {
    if s < m - 1 {
      EntryInHead(magic, ps, links, m - 1, s);
    }
  }

  lemma {:induction false} HeaderInHead(magic: seq<octet>, ps: seq<Pair>, links: seq<Link>, m: nat)
    requires |magic| >= 8 && m <= |ps| == |links|
    ensures Head(magic, ps, links, m)[..16] == Header(magic, |ps|)
  {
    if m > 0 {
      HeaderInHead(magic, ps, links, m - 1);
    }
  }
}
