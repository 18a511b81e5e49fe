/** The writer of Citrus databases (citrus_db_factory.c): entries are collected in a list and
    then serialized into one memory region. */
module CitrusDbFactory {
  import opened Octets
  import opened Scan
  import opened Permutation
  import opened CitrusSlots
  import opened CitrusHash
  import opened CitrusImage

  function HashesOf(hash: HashFunction, pairs: seq<Pair>): (hs: seq<uint32>)
    ensures |hs| == |pairs|
    ensures forall i :: 0 <= i < |hs| ==> hs[i] == hash(pairs[i].key)
  {
    var hs := seq(|pairs|, i requires 0 <= i < |pairs| => hash(pairs[i].key));
    assert forall i :: 0 <= i < |hs| ==> hs[i] == hash(pairs[i].key);
    hs
  }

  lemma {:induction false} HashesGrow(hash: HashFunction, pairs: seq<Pair>, p: Pair)
    ensures HashesOf(hash, pairs + [p]) == HashesOf(hash, pairs) + [hash(p.key)]
  {
  }

  function ResiduesOf(hs: seq<uint32>): (h: seq<nat>)
    ensures |h| == |hs| && Residues(h)
    ensures forall i :: 0 <= i < |h| ==> h[i] == Residue(hs[i], |hs|)
  {
    var h := seq(|hs|, i requires 0 <= i < |hs| => Residue(hs[i], |hs|));
    assert forall i :: 0 <= i < |h| ==> h[i] == Residue(hs[i], |hs|);
    h
  }

  /** The pairs in the order of their slots. */
  ghost function Slotted(pairs: seq<Pair>, h: seq<nat>, at: seq<nat>): (ps: seq<Pair>)
    requires |pairs| == |h| && Residues(h) && Assigned(h, at)
    ensures |ps| == |pairs| && forall s :: 0 <= s < |ps| ==> ps[s] == pairs[at[s]]
  {
    seq(|at|, s requires 0 <= s < |at| => pairs[at[s]])
  }

  ghost function EntryOffset(h: seq<nat>, at: seq<nat>, i: nat): nat
    requires Residues(h) && Assigned(h, at) && i < |h|
  {
    EverySlotUsed(h, at, i);
    16 + SlotOf(at, i) * 24
  }

  /** Offset of the entry chained behind entry i, 0 at the end of its chain. */
  ghost function NextOffset(h: seq<nat>, at: seq<nat>, i: nat): nat
    requires Residues(h) && Assigned(h, at) && i < |h|
  {
    var j := Next(h, i, |h|);
    if j < |h| then EntryOffset(h, at, j) else 0
  }

  ghost function Links(h: seq<nat>, at: seq<nat>): (ls: seq<Link>)
    requires Residues(h) && Assigned(h, at)
    ensures |ls| == |h|
    ensures forall s :: 0 <= s < |ls| ==> ls[s] == Link(h[at[s]], NextOffset(h, at, at[s]))
  {
    seq(|at|, s requires 0 <= s < |at| => Link(h[at[s]], NextOffset(h, at, at[s])))
  }

  /** Slot order is a permutation of the order of adding, so the table sizes are the same. */
  lemma {:induction false} SlottedSizes(pairs: seq<Pair>, h: seq<nat>, at: seq<nat>)
    requires |pairs| == |h| && Residues(h) && Assigned(h, at)
    ensures multiset(Slotted(pairs, h, at)) == multiset(pairs)
    ensures Sum(KeySizes(Slotted(pairs, h, at)), |Slotted(pairs, h, at)|) == Sum(KeySizes(pairs), |pairs|)
    ensures Sum(DataSizes(Slotted(pairs, h, at)), |Slotted(pairs, h, at)|) == Sum(DataSizes(pairs), |pairs|)
  {
    var ps := Slotted(pairs, h, at);
    PickPermuted(pairs, at, ps);
    PickPermuted(KeySizes(pairs), at, KeySizes(ps));
    PickPermuted(DataSizes(pairs), at, DataSizes(ps));
    SumPermuted(KeySizes(ps), KeySizes(pairs));
    SumPermuted(DataSizes(ps), DataSizes(pairs));
  }

  /** `after` is `before` with the bytes b written at offset o. */
  ghost predicate Wrote(before: seq<octet>, after: seq<octet>, o: nat, b: seq<octet>) {
    && |after| == |before|
    && o + |b| <= |after|
    && after[o..o + |b|] == b
    && (forall k :: 0 <= k < o ==> after[k] == before[k])
    && (forall k :: o + |b| <= k < |after| ==> after[k] == before[k])
  }

  lemma {:induction false} WroteBoth(s0: seq<octet>, s1: seq<octet>, s2: seq<octet>, o: nat, a: seq<octet>, b: seq<octet>)
    requires Wrote(s0, s1, o, a) && Wrote(s1, s2, o + |a|, b)
    ensures Wrote(s0, s2, o, a + b)
  {
    assert s2[o..o + |a|] == s1[o..o + |a|];
    assert s2[o..o + |a| + |b|] == s2[o..o + |a|] + s2[o + |a|..o + |a| + |b|];
  }

  method Put8(r: array<octet>, ofs: nat, val: octet) returns (next: nat)
    requires ofs < r.Length
    modifies r
    ensures next == ofs + 1 && Wrote(old(r[..]), r[..], ofs, [val])
  {
    r[ofs] := val;
    next := ofs + 1;
  }

  method Memcpy(r: array<octet>, ofs: nat, s: seq<octet>)
    requires ofs + |s| <= r.Length
    modifies r
    ensures Wrote(old(r[..]), r[..], ofs, s)
  {
    forall k | 0 <= k < |s| {
      r[ofs + k] := s[k];
    }
  }

  method Put32(r: array<octet>, ofs: nat, val: nat) returns (next: nat)
    requires ofs + 4 <= r.Length
    modifies r
    ensures next == ofs + 4 && Wrote(old(r[..]), r[..], ofs, Be32(Low32(val)))
  {
    Memcpy(r, ofs, Be32(Low32(val)));
    next := ofs + 4;
  }

  method PutPad(r: array<octet>, ofs: nat) returns (next: nat)
    requires CeilTo(ofs) <= r.Length
    modifies r
    ensures next == CeilTo(ofs) && Wrote(old(r[..]), r[..], ofs, Pad(ofs))
  {
    next := ofs;
    var i := CeilTo(ofs) - ofs;
    while i > 0
      invariant 0 <= i && ofs <= next && next + i == CeilTo(ofs)
      invariant Wrote(old(r[..]), r[..], ofs, Zeros(next - ofs))
    {
      ghost var before, done := r[..], next - ofs;
      next := Put8(r, next, 0);
      WroteBoth(old(r[..]), before, r[..], ofs, Zeros(done), [0]);
      assert Zeros(done) + [0] == Zeros(done + 1);
      i := i - 1;
    }
  }

  method PutPadded(r: array<octet>, ofs: nat, s: seq<octet>) returns (next: nat)
    requires Aligned(ofs) && ofs + CeilTo(|s|) <= r.Length
    modifies r
    ensures next == ofs + CeilTo(|s|) && Wrote(old(r[..]), r[..], ofs, Padded(s))
  {
    CeilShift(ofs, |s|);
    Memcpy(r, ofs, s);
    ghost var s1 := r[..];
    next := PutPad(r, ofs + |s|);
    WroteBoth(old(r[..]), s1, r[..], ofs, s, Pad(|s|));
  }

  method DumpHeader(r: array<octet>, magic: seq<octet>, ofs: nat, numEntries: nat) returns (next: nat)
    requires ofs == 0 && |magic| >= 8 && r.Length >= 16
    modifies r
    ensures next == 16 && Wrote(old(r[..]), r[..], 0, Header(magic, numEntries))
  {
    next := ofs;
    while next < 8
      invariant 0 <= next <= 8
      invariant Wrote(old(r[..]), r[..], 0, magic[..next])
    {
      ghost var before, done := r[..], next;
      next := Put8(r, next, magic[next]);
      WroteBoth(old(r[..]), before, r[..], 0, magic[..done], [magic[done]]);
      assert magic[..done] + [magic[done]] == magic[..next];
    }
    ghost var s1 := r[..];
    next := Put32(r, next, numEntries);
    ghost var s2 := r[..];
    WroteBoth(old(r[..]), s1, s2, 0, magic[..8], Be32(Low32(numEntries)));
    next := Put32(r, next, 16);
    WroteBoth(old(r[..]), s2, r[..], 0, magic[..8] + Be32(Low32(numEntries)), Be32(16));
  }

  /** Three areas of b, at 0, x2 and x3, begin with the given bytes. */
  ghost predicate Holds(b: seq<octet>, head: seq<octet>, x2: nat, keys: seq<octet>, x3: nat, data: seq<octet>, size: nat) {
    && |head| <= x2 && x2 + |keys| <= x3 && x3 + |data| <= size <= |b|
    && b[..|head|] == head && b[x2..x2 + |keys|] == keys && b[x3..x3 + |data|] == data
  }

  lemma {:induction false} WroteKeeps(before: seq<octet>, after: seq<octet>, o: nat, b: seq<octet>, x: nat, y: nat)
    requires Wrote(before, after, o, b) && x <= y <= |before|
    requires y <= o || o + |b| <= x
    ensures |after| == |before| && after[x..y] == before[x..y]
  {
  }

  lemma {:induction false} WroteExtends(before: seq<octet>, after: seq<octet>, o: nat, b: seq<octet>, x: nat)
    requires Wrote(before, after, o, b) && x <= o
    ensures |after| == |before| >= o + |b| && after[x..o + |b|] == before[x..o] + b
  {
    assert after[x..o + |b|] == after[x..o] + after[o..o + |b|];
  }

  /** Writing at the ends of the three areas. */
  lemma {:induction false} ThreeWrites(b0: seq<octet>, s1: seq<octet>, s2: seq<octet>, b1: seq<octet>,
                    head: seq<octet>, e1: seq<octet>, x2: nat, keys: seq<octet>, e2: seq<octet>,
                    x3: nat, data: seq<octet>, e3: seq<octet>, size: nat)
    requires Holds(b0, head, x2, keys, x3, data, size)
    requires |head| + |e1| <= x2 && x2 + |keys| + |e2| <= x3 && x3 + |data| + |e3| <= size
    requires Wrote(b0, s1, |head|, e1) && Wrote(s1, s2, x2 + |keys|, e2) && Wrote(s2, b1, x3 + |data|, e3)
    ensures Holds(b1, head + e1, x2, keys + e2, x3, data + e3, size)
    ensures b1[size..] == b0[size..]
  {
    var o1, o2, o3 := |head|, x2 + |keys|, x3 + |data|;
    hide Wrote;
    WroteExtends(b0, s1, o1, e1, 0);
    WroteExtends(s1, s2, o2, e2, x2);
    WroteExtends(s2, b1, o3, e3, x3);

    WroteKeeps(s1, s2, o2, e2, 0, o1 + |e1|);
    WroteKeeps(s2, b1, o3, e3, 0, o1 + |e1|);

    WroteKeeps(b0, s1, o1, e1, x2, o2);
    WroteKeeps(s2, b1, o3, e3, x2, o2 + |e2|);

    WroteKeeps(b0, s1, o1, e1, x3, o3);
    WroteKeeps(s1, s2, o2, e2, x3, o3);

    WroteKeeps(b0, s1, o1, e1, size, |b0|);
    WroteKeeps(s1, s2, o2, e2, size, |b0|);
    WroteKeeps(s2, b1, o3, e3, size, |b0|);
  }

  /** The region b is filled up to slot i. */
  ghost predicate Dumped(b: seq<octet>, magic: seq<octet>, ps: seq<Pair>, links: seq<Link>, i: nat)
    requires |magic| >= 8 && i <= |ps| == |links|
  {
    Holds(b, Head(magic, ps, links, i), KeyBase(|ps|), KeyBytes(ps, i), DataBase(ps), DataBytes(ps, i), FileSize(ps))
  }

  lemma {:induction false} TablesGrow(ps: seq<Pair>, i: nat)
    requires i < |ps|
    ensures 16 + (i + 1) * 24 <= KeyBase(|ps|)
    ensures KeyBase(|ps|) + |KeyBytes(ps, i)| + |ps[i].key| <= DataBase(ps)
    ensures DataBase(ps) + |DataBytes(ps, i)| + CeilTo(|ps[i].data|) <= FileSize(ps)
  {
    KeyInTable(ps, |ps|, i);
    DataInTable(ps, |ps|, i);
  }

  /** Writing entry, key and datum of slot i makes progress by one slot. */
  lemma {:induction false} DumpStep(b0: seq<octet>, s1: seq<octet>, s2: seq<octet>, b1: seq<octet>,
                 magic: seq<octet>, ps: seq<Pair>, links: seq<Link>, i: nat,
                                    ofs: nat, e: seq<octet>, keyofs: nat, key: seq<octet>, dataofs: nat, d: seq<octet>)
    requires |magic| >= 8 && i < |ps| == |links| && Dumped(b0, magic, ps, links, i)
    requires ofs == 16 + i * 24 && keyofs == KeyOffset(ps, i) && dataofs == DataOffset(ps, i)
    requires e == EntryBytes(ps, links, i) && key == ps[i].key && d == Padded(ps[i].data)
    requires Wrote(b0, s1, ofs, e) && Wrote(s1, s2, keyofs, key) && Wrote(s2, b1, dataofs, d)
    ensures Dumped(b1, magic, ps, links, i + 1)
    ensures b1[FileSize(ps)..] == b0[FileSize(ps)..]
  {
    TablesGrow(ps, i);
    ThreeWrites(b0, s1, s2, b1, Head(magic, ps, links, i), e, KeyBase(|ps|), KeyBytes(ps, i), key,
                DataBase(ps), DataBytes(ps, i), d, FileSize(ps));
  }

  /** Once every slot is written, the two remaining paddings complete the image. */
  lemma {:induction false} DumpDone(b0: seq<octet>, s1: seq<octet>, b1: seq<octet>, magic: seq<octet>, ps: seq<Pair>, links: seq<Link>)
    requires |magic| >= 8 && |ps| == |links| && Dumped(b0, magic, ps, links, |ps|)
    requires Wrote(b0, s1, 16 + |ps| * 24, Pad(|ps| * 24))
    requires Wrote(s1, b1, KeyOffset(ps, |ps|), Pad(|KeyBytes(ps, |ps|)|))
    ensures |b1| == |b0| >= FileSize(ps)
    ensures b1[..FileSize(ps)] == Image(magic, ps, links) && b1[FileSize(ps)..] == b0[FileSize(ps)..]
  {
    var pad1, pad2 := Pad(|ps| * 24), Pad(|KeyBytes(ps, |ps|)|);
    var head := Head(magic, ps, links, |ps|);
    assert |head| + |pad1| == KeyBase(|ps|) && |KeyBytes(ps, |ps|)| + |pad2| + KeyBase(|ps|) == DataBase(ps);
    assert DataBase(ps) + |DataBytes(ps, |ps|)| == FileSize(ps);
    assert |b1| == |s1| == |b0| && Wrote(b1, b1, FileSize(ps), []);
    hide Wrote, Pad, Head, KeyBytes, DataBytes;
    ThreeWrites(b0, s1, b1, b1, head, pad1, KeyBase(|ps|), KeyBytes(ps, |ps|), pad2,
                DataBase(ps), DataBytes(ps, |ps|), [], FileSize(ps));
    Glue(b1, head + pad1, KeyBytes(ps, |ps|) + pad2, DataBytes(ps, |ps|), KeyBase(|ps|), DataBase(ps), FileSize(ps));
  }

  lemma {:induction false} Glue(s: seq<octet>, a: seq<octet>, b: seq<octet>, c: seq<octet>, x: nat, y: nat, size: nat)
    requires Holds(s, a, x, b, y, c, size) && |a| == x && x + |b| == y && y + |c| == size
    ensures s[..size] == a + b + c
  {
    assert s[..size] == s[..x] + s[x..y] + s[y..size];
  }

  /** An entry waiting to be serialized.  `hashvalue` is the hash of the key until the entry is
      serialized and its residue from then on. */
  class Entry {
    const key: seq<octet>
    const data: seq<octet>
    ghost const number: nat  // position in the list of entries
    var hashvalue: uint32
    var idx: int
    var next: Entry?

    constructor (key: seq<octet>, data: seq<octet>, hashvalue: uint32, ghost number: nat)
      ensures this.key == key && this.data == data && this.hashvalue == hashvalue
      ensures this.number == number && idx == -1 && next == null
    {
      this.key, this.data, this.hashvalue := key, data, hashvalue;
      this.number := number;
      idx, next := -1, null;
    }

    /** Reduce the hash value to the residue; the entry has no slot and no successor yet. */
    method Reduce(numEntries: nat)
      requires numEntries > 0
      modifies this
      ensures hashvalue == Residue(old(hashvalue), numEntries) && idx == -1 && next == null
    {
      hashvalue := Residue(hashvalue, numEntries);
      idx := -1;
      next := null;
    }
  }

  lemma {:induction false} KeySizesGrow(ps: seq<Pair>, p: Pair)
    ensures Sum(KeySizes(ps + [p]), |ps| + 1) == Sum(KeySizes(ps), |ps|) + |p.key|
  {
    SumPrefix(KeySizes(ps + [p]), KeySizes(ps), |ps|);
  }

  lemma {:induction false} DataSizesGrow(ps: seq<Pair>, p: Pair)
    ensures Sum(DataSizes(ps + [p]), |ps| + 1) == Sum(DataSizes(ps), |ps|) + CeilTo(|p.data|)
  {
    SumPrefix(DataSizes(ps + [p]), DataSizes(ps), |ps|);
  }

  class Factory {
    const hash: HashFunction
    var entries: seq<Entry>
    var numEntries: nat
    var totalKeySize: nat
    var totalDataSize: nat
    ghost var added: seq<Pair>  // what was added, in the order of adding
    ghost var hashes: seq<uint32>  // the hashes of the keys

    ghost predicate Valid()
      reads this
    {
      && Listed()
      && totalKeySize == Sum(KeySizes(added), |added|)
      && totalDataSize == Sum(DataSizes(added), |added|)
    }

    ghost predicate Listed()
      reads this
    {
      && numEntries == |entries| == |added|
      && hashes == HashesOf(hash, added)
      && (forall i :: 0 <= i < |entries| ==> entries[i].number == i && added[i] == Pair(entries[i].key, entries[i].data))
    }

    ghost predicate Hashed()
      reads this, entries
    {
      && |hashes| == |entries|
      && forall i :: 0 <= i < |entries| ==> entries[i].hashvalue == hashes[i]
    }

    constructor (hash: HashFunction)
      ensures Valid() && Hashed() && this.hash == hash && added == [] && entries == []
    {
      this.hash := hash;
      entries, numEntries := [], 0;
      totalKeySize, totalDataSize := 0, 0;
      added, hashes := [], [];
    }

    /** Insert the entry at the tail of the list. */
    method Append(de: Entry)
      requires Listed() && de.number == numEntries && de.hashvalue == hash(de.key)
      modifies this`entries, this`numEntries, this`added, this`hashes
      ensures Listed() && entries == old(entries) + [de]
      ensures added == old(added) + [Pair(de.key, de.data)]
      ensures old(Hashed()) ==> Hashed()
    {
      HashesGrow(hash, added, Pair(de.key, de.data));
      entries, numEntries := entries + [de], numEntries + 1;
      added, hashes := added + [Pair(de.key, de.data)], hashes + [de.hashvalue];
    }

    method Add(key: seq<octet>, data: seq<octet>)
      requires Valid()
      modifies this
      ensures Valid()
      ensures added == old(added) + [Pair(key, data)]
      ensures HashValues() == old(HashValues()) + [hash(key)]
      ensures |entries| == |old(entries)| + 1 && entries[..|old(entries)|] == old(entries)
      ensures fresh(entries[|old(entries)|])
      ensures old(Hashed()) ==> Hashed()
    {
      KeySizesGrow(added, Pair(key, data));
      DataSizesGrow(added, Pair(key, data));
      hide Sum, KeySizes, DataSizes;
      var de := new Entry(key, data, hash(key), numEntries);
      Append(de);
      totalKeySize := totalKeySize + |key|;
      totalDataSize := totalDataSize + CeilTo(|data|);
    }

    function CalcSize(): nat
      reads this
    {
      TotalSize(numEntries, totalKeySize, totalDataSize)
    }

    /** depp is the table that has entry number at[s] in slot s, and nothing where at[s] is -1. */
    ghost predicate Filled(depp: array<Entry?>, at: seq<int>)
      reads this, depp
    {
      && |at| == depp.Length == |entries|
      && (forall s :: 0 <= s < |at| ==> -1 <= at[s] < |entries|)
      && (forall s :: 0 <= s < |at| ==> depp[s] == if at[s] == -1 then null else entries[at[s]])
    }

    /** The first k entries have the residues h, the slots idx and the successors nx. */
    ghost predicate Marked(h: seq<nat>, idx: seq<int>, nx: seq<int>, k: nat)
      requires |h| == |idx| == |nx| == |entries| && k <= |h|
      reads this, entries
    {
      && (forall i :: 0 <= i < |nx| ==> -1 <= nx[i] < |entries|)
      && (forall i :: 0 <= i < k ==> entries[i].hashvalue == h[i] && entries[i].idx == idx[i])
      && (forall i :: 0 <= i < k ==> entries[i].next == if nx[i] == -1 then null else entries[nx[i]])
    }

    /** Step 1 for one entry: it goes to its home slot if that is free. */
    method PlaceHome(depp: array<Entry?>, de: Entry, ghost h: seq<nat>, ghost home: seq<nat>,
                     ghost at0: seq<int>, ghost idx0: seq<int>, ghost k: nat)
      returns (ghost at: seq<int>, ghost idx: seq<int>)
      requires Listed() && |h| == |entries| && Residues(h) && HomesOf(h, home)
      requires k < |h| && de == entries[k] && Residue(de.hashvalue, |h|) == h[k]
      requires Filled(depp, at0) && HomesPlaced(h, home, at0, idx0, k)
      modifies depp, de
      ensures Filled(depp, at) && HomesPlaced(h, home, at, idx, k + 1)
      ensures idx == idx0[k := idx[k]]
      ensures de.hashvalue == h[k] && de.idx == idx[k] && de.next == null
    {
      HomeStep(h, home, at0, idx0, k);
      de.Reduce(numEntries);
      at, idx := at0, idx0[k := -1];
      if depp[de.hashvalue] == null {
        depp[de.hashvalue] := de;
        de.idx := de.hashvalue;
        at, idx := at[h[k] := k], idx0[k := h[k]];
      }
    }

    /** Step 1: the first entry of every residue goes to its home slot. */
    method PlaceHomes(depp: array<Entry?>, ghost hv: seq<uint32>, ghost h: seq<nat>, ghost home: seq<nat>)
      returns (ghost at: seq<int>, ghost idx: seq<int>)
      requires Listed() && |h| == |entries| > 0 && Residues(h) && HomesOf(h, home)
      requires |hv| == |h| && forall i :: 0 <= i < |h| ==> entries[i].hashvalue == hv[i]
      requires forall i {:trigger Residue(hv[i], |h|)} :: 0 <= i < |h| ==> Residue(hv[i], |h|) == h[i]
      requires depp.Length == numEntries && forall s :: 0 <= s < depp.Length ==> depp[s] == null
      modifies depp, entries
      ensures Filled(depp, at)
      ensures HomesPlaced(h, home, at, idx, |h|)
      ensures Marked(h, idx, seq(|h|, _ => -1), |h|)
    {
      var k := 0;
      at := seq(|entries|, _ => -1);
      idx := at;
      while k < numEntries
        invariant 0 <= k <= |h|
        invariant Filled(depp, at)
        invariant HomesPlaced(h, home, at, idx, k)
        invariant forall i :: 0 <= i < k ==> entries[i].hashvalue == h[i] && entries[i].idx == idx[i] && entries[i].next == null
        invariant forall i :: k <= i < |h| ==> entries[i].hashvalue == hv[i]
      {
        assert Residue(hv[k], |h|) == h[k];
        at, idx := PlaceHome(depp, entries[k], h, home, at, idx, k);
        k := k + 1;
      }
    }

    /** The end of the chain that entry number d0 is on. */
    method ChainEnd(first: Entry, ghost h: seq<nat>, ghost idx: seq<int>, ghost nx: seq<int>, ghost k: nat, ghost d0: nat)
      returns (det: Entry, ghost d: nat)
      requires |h| == |idx| == |nx| == |entries| && Marked(h, idx, nx, |h|)
      requires d0 < k <= |h| && first == entries[d0]
      requires forall i :: 0 <= i < |h| && nx[i] != -1 ==> i < nx[i] < k && h[nx[i]] == h[i]
      ensures d < k && det == entries[d] && h[d] == h[d0] && nx[d] == -1
    {
      det, d := first, d0;
      while det.next != null
        invariant d < k && det == entries[d] && h[d] == h[d0]
        decreases k - d
      {
        det := det.next;
        d := nx[d];
      }
    }

    /** The first free slot from slot i on, when there is one at f. */
    method FirstFree(depp: array<Entry?>, i: nat, ghost at: seq<int>, ghost f: nat) returns (slot: nat)
      requires Filled(depp, at) && i <= f < |at| && at[f] == -1
      ensures i <= slot < |at| && at[slot] == -1 && forall s :: i <= s < slot ==> at[s] != -1
    {
      slot := i;
      while depp[slot] != null
        invariant i <= slot <= f
        invariant forall s :: i <= s < slot ==> at[s] != -1
        decreases f - slot
      {
        slot := slot + 1;
      }
    }

    /** Step 2 for one entry without a slot: it is appended to the chain of its residue, on which
        entry d0 is, and goes to the first free slot from slot i on. */
    method ResolveConflict(depp: array<Entry?>, de: Entry, i: nat, ghost h: seq<nat>, ghost k: nat, ghost d0: nat,
                           ghost at: seq<int>, ghost idx: seq<int>, ghost nx: seq<int>, ghost f: nat)
      returns (slot: nat, ghost d: nat)
      requires Listed() && |h| == |idx| == |nx| == |entries|
      requires Filled(depp, at) && Marked(h, idx, nx, |h|)
      requires d0 < k < |h| && h[k] < |at| && at[h[k]] == d0 && h[d0] == h[k] && de == entries[k]
      requires forall i :: 0 <= i < |h| && nx[i] != -1 ==> i < nx[i] < k && h[nx[i]] == h[i]
      requires i <= f < |at| && at[f] == -1
      modifies depp, entries
      ensures i <= slot < |h| && at[slot] == -1 && forall s :: i <= s < slot ==> at[s] != -1
      ensures d < k && h[d] == h[k] && nx[d] == -1
      ensures Filled(depp, at[slot := k]) && Marked(h, idx[k := slot], nx[d := k], |h|)
    {
      var det := depp[de.hashvalue];
      det, d := ChainEnd(det, h, idx, nx, k, d0);
      det.next := de;
      slot := FirstFree(depp, i, at, f);
      depp[slot] := de;
      de.idx := slot;
    }

    /** Step 2: the other entries go to the left-over slots, chained behind the home entry. */
    method ResolveConflicts(depp: array<Entry?>, ghost h: seq<nat>, ghost home: seq<nat>,
                            ghost at0: seq<int>, ghost idx0: seq<int>, ghost nx0: seq<int>)
      returns (ghost at: seq<int>, ghost idx: seq<int>, ghost nx: seq<int>, ghost cur: nat)
      requires Listed() && |h| == |nx0| == |entries| > 0 && Residues(h) && HomesOf(h, home)
      requires Placed(h, home, at0, idx0, 0, 0) && Chained(h, nx0, 0)
      requires Filled(depp, at0) && Marked(h, idx0, nx0, |h|)
      modifies depp, entries
      ensures Placed(h, home, at, idx, |h|, cur) && Chained(h, nx, |h|)
      ensures Filled(depp, at) && Marked(h, idx, nx, |h|)
    {
      var i, k := 0, 0;
      at, idx, nx := at0, idx0, nx0;
      while k < numEntries
        invariant 0 <= k <= |h| && 0 <= i
        invariant Placed(h, home, at, idx, k, i) && Chained(h, nx, k)
        invariant Filled(depp, at) && Marked(h, idx, nx, |h|)
      {
        var de := entries[k];
        if de.idx == -1 {
          ghost var i0, d := i, home[h[k]];
          assert idx[d] == h[k];
          ghost var f := FreeSlot(h, home, at, idx, k, i);
          i, d := ResolveConflict(depp, de, i, h, k, d, at, idx, nx, f);
          PlaceStep(h, home, at, idx, k, i0, i);
          ChainStep(h, nx, k, d);
          at, idx, nx := at[i := k], idx[k := i], nx[d := k];
        } else {
          SkipStep(h, home, at, idx, k, i);
          ChainStart(h, home, nx, k);
        }
        k := k + 1;
      }
      cur := i;
    }

    ghost function HashValues(): (hv: seq<uint32>)
      reads this, entries
      ensures |hv| == |entries| && forall i :: 0 <= i < |hv| ==> hv[i] == entries[i].hashvalue
    {
      seq(|entries|, i requires 0 <= i < |entries| reads this, entries => entries[i].hashvalue)
    }

    /** Both steps. */
    method RunPasses(depp: array<Entry?>, ghost h: seq<nat>, ghost home: seq<nat>)
      returns (ghost at: seq<int>, ghost idx: seq<int>, ghost nx: seq<int>, ghost cur: nat)
      requires Listed() && |h| == |entries| > 0 && Residues(h) && HomesOf(h, home)
      requires forall i :: 0 <= i < |h| ==> Residue(entries[i].hashvalue, |h|) == h[i]
      requires depp.Length == numEntries && forall s :: 0 <= s < depp.Length ==> depp[s] == null
      modifies depp, entries
      ensures Placed(h, home, at, idx, |h|, cur) && Chained(h, nx, |h|)
      ensures Filled(depp, at) && Marked(h, idx, nx, |h|)
    {
      var at0, idx0 := PlaceHomes(depp, HashValues(), h, home);
      PassesMeet(h, home, at0, idx0);
      at, idx, nx, cur := ResolveConflicts(depp, h, home, at0, idx0, seq(|h|, _ => -1));
    }

    /** Both steps: afterwards every slot holds an entry, arranged as `at` says. */
    method AssignSlots(depp: array<Entry?>, ghost h: seq<nat>) returns (ghost at: seq<nat>)
      requires Listed() && |h| == |entries| > 0 && Residues(h)
      requires forall i :: 0 <= i < |h| ==> Residue(entries[i].hashvalue, |h|) == h[i]
      requires depp.Length == numEntries && forall s :: 0 <= s < depp.Length ==> depp[s] == null
      modifies depp, entries
      ensures Assigned(h, at) && forall i :: 0 <= i < |h| ==> entries[i].hashvalue == h[i]
      ensures forall s :: 0 <= s < |h| ==> depp[s] != null && SlotMatches(depp[s], Slotted(added, h, at)[s], Links(h, at)[s])
    {
      ghost var home := Homes(h);
      ghost var at1, idx, nx, cur := RunPasses(depp, h, home);
      AllPlaced(h, home, at1, idx, cur);
      at := at1;
      forall s | 0 <= s < |h|
        ensures depp[s] != null && SlotMatches(depp[s], Slotted(added, h, at)[s], Links(h, at)[s])
      {
        ChainIsNext(h, nx, at[s]);
        SlotIsRight(h, at, idx, nx, depp, s);
      }
    }

    /** Write one directory entry with its key and its data. */
    method DumpEntry(r: array<octet>, de: Entry, ofs: nat, keyofs: nat, dataofs: nat, ghost ws: seq<nat>)
      returns (ofs': nat, keyofs': nat, dataofs': nat, ghost s1: seq<octet>, ghost s2: seq<octet>)
      requires ofs + 24 <= r.Length && keyofs + |de.key| <= r.Length && dataofs + CeilTo(|de.data|) <= r.Length
      requires Aligned(dataofs)
      requires de.next != null ==> de.next.idx >= 0
      requires ws == [de.hashvalue, if de.next == null then 0 else 16 + de.next.idx * 24, keyofs, |de.key|, dataofs, |de.data|]
      modifies r
      ensures ofs' == ofs + 24 && keyofs' == keyofs + |de.key| && dataofs' == dataofs + CeilTo(|de.data|)
      ensures Wrote(old(r[..]), s1, ofs, Words(ws, 6))
      ensures Wrote(s1, s2, keyofs, de.key)
      ensures Wrote(s2, r[..], dataofs, Padded(de.data))
    {
      var nextofs := 0;
      if de.next != null {
        nextofs := 16 + de.next.idx * 24;
      }
      ofs' := PutSixWords(r, ofs, de.hashvalue, nextofs, keyofs, |de.key|, dataofs, |de.data|);
      s1 := r[..];
      Memcpy(r, keyofs, de.key);
      keyofs' := keyofs + |de.key|;
      s2 := r[..];
      dataofs' := PutPadded(r, dataofs, de.data);
    }

    /** Write what belongs to slot i. */
    method DumpSlot(r: array<octet>, de: Entry, ofs: nat, keyofs: nat, dataofs: nat,
                    ghost i: nat, ghost magic: seq<octet>, ghost ps: seq<Pair>, ghost links: seq<Link>)
      returns (ofs': nat, keyofs': nat, dataofs': nat)
      requires |magic| >= 8 && i < |ps| == |links| && Dumped(r[..], magic, ps, links, i)
      requires ofs == 16 + i * 24 && keyofs == KeyOffset(ps, i) && dataofs == DataOffset(ps, i)
      requires SlotMatches(de, ps[i], links[i])
      modifies r
      ensures Dumped(r[..], magic, ps, links, i + 1)
      ensures ofs' == ofs + 24 && keyofs' == KeyOffset(ps, i + 1) && dataofs' == DataOffset(ps, i + 1)
      ensures r[FileSize(ps)..] == old(r[FileSize(ps)..])
    {
      TablesGrow(ps, i);
      Alignment(ps, i);
      ghost var b0, s1, s2, ws := r[..], [], [], EntryWords(ps, links, i);
      ofs', keyofs', dataofs', s1, s2 := DumpEntry(r, de, ofs, keyofs, dataofs, ws);
      DumpStep(b0, s1, s2, r[..], magic, ps, links, i, ofs, Words(ws, 6), keyofs, de.key, dataofs, Padded(de.data));
    }

    lemma {:induction false} TablesStart(ps: seq<Pair>)
      ensures KeyOffset(ps, 0) == KeyBase(|ps|) && DataOffset(ps, 0) == DataBase(ps)
    {
    }

    /** Write the directory and the two tables in the order of the slots. */
    method DumpEntries(r: array<octet>, depp: array<Entry?>, keybase: nat, database: nat,
                       ghost magic: seq<octet>, ghost ps: seq<Pair>, ghost links: seq<Link>)
      returns (ofs: nat, keyofs: nat)
      requires |magic| >= 8 && |ps| == |links| == numEntries == depp.Length && FileSize(ps) <= r.Length
      requires Dumped(r[..], magic, ps, links, 0)
      requires keybase == KeyBase(|ps|) && database == DataBase(ps)
      requires forall s :: 0 <= s < |ps| ==> depp[s] != null && SlotMatches(depp[s], ps[s], links[s])
      modifies r
      ensures Dumped(r[..], magic, ps, links, |ps|) && ofs == 16 + |ps| * 24 && keyofs == KeyOffset(ps, |ps|)
      ensures r[FileSize(ps)..] == old(r[FileSize(ps)..])
    {
      TablesStart(ps);
      hide *;
      ofs, keyofs := 16, keybase;
      var i, dataofs := 0, database;
      while i < numEntries
        invariant 0 <= i <= numEntries == |ps| && Dumped(r[..], magic, ps, links, i)
        invariant ofs == 16 + i * 24 && keyofs == KeyOffset(ps, i) && dataofs == DataOffset(ps, i)
        invariant r[FileSize(ps)..] == old(r[FileSize(ps)..])
      {
        ofs, keyofs, dataofs := DumpSlot(r, depp[i], ofs, keyofs, dataofs, i, magic, ps, links);
        i := i + 1;
      }
    }

    /** What the arrangement of the entries means for the pointers in slot s. */
    lemma {:induction false} SlotIsRight(h: seq<nat>, at: seq<nat>, idx: seq<int>, nx: seq<int>, depp: array<Entry?>, s: nat)
      requires Listed() && |h| == |entries| && Residues(h) && Assigned(h, at) && s < |h|
      requires Filled(depp, at) && |idx| == |nx| == |h| && Marked(h, idx, nx, |h|)
      requires forall t :: 0 <= t < |h| ==> idx[at[t]] == t
      requires nx[at[s]] == if Next(h, at[s], |h|) < |h| then Next(h, at[s], |h|) else -1
      ensures depp[s] != null && SlotMatches(depp[s], Slotted(added, h, at)[s], Links(h, at)[s])
    {
      var i := at[s];
      var j := Next(h, i, |h|);
      if j < |h| {
        EverySlotUsed(h, at, j);
        assert idx[at[SlotOf(at, j)]] == SlotOf(at, j);
      }
    }

    /** Write the whole file for a table whose slots are assigned. */
    method DumpTable(magic: seq<octet>, r: array<octet>, depp: array<Entry?>, ghost ps: seq<Pair>, ghost links: seq<Link>)
      requires |magic| >= 8 && |ps| == |links| == numEntries == depp.Length && r.Length >= FileSize(ps)
      requires totalKeySize == |KeyBytes(ps, |ps|)|
      requires forall s :: 0 <= s < |ps| ==> depp[s] != null && SlotMatches(depp[s], ps[s], links[s])
      modifies r
      ensures r[..FileSize(ps)] == Image(magic, ps, links)
      ensures r[FileSize(ps)..] == old(r[FileSize(ps)..])
    {
      var keyofs := 16 + CeilTo(numEntries * 24);
      var dataofs := keyofs + CeilTo(totalKeySize);
      ghost var b0 := r[..];
      var ofs := DumpHeader(r, magic, 0, numEntries);
      WroteKeeps(b0, r[..], 0, Header(magic, numEntries), FileSize(ps), r.Length);
      ofs, keyofs := DumpEntries(r, depp, keyofs, dataofs, magic, ps, links);
      FinalPads(r, ofs, keyofs, magic, ps, links);
    }

    /** Arrange the entries and write them. */
    method Dump(magic: seq<octet>, r: array<octet>, ghost h: seq<nat>) returns (ghost at: seq<nat>)
      requires Valid() && |h| == |entries| > 0 && Residues(h)
      requires forall i :: 0 <= i < |h| ==> Residue(entries[i].hashvalue, |h|) == h[i]
      requires |magic| >= 8 && r.Length >= CalcSize()
      modifies r, entries
      ensures Assigned(h, at) && r[..CalcSize()] == Image(magic, Slotted(added, h, at), Links(h, at))
      ensures r[CalcSize()..] == old(r[CalcSize()..])
      ensures forall i :: 0 <= i < |h| ==> entries[i].hashvalue == h[i]
    {
      hide FileSize, TotalSize, Slotted, Links, Image, KeyBytes, KeySizes, DataSizes, Sum, Assigned, Residues, Residue, SlotMatches;
      var depp := new Entry?[numEntries](_ => null);
      at := AssignSlots(depp, h);
      SlottedFileSize(added, h, at);
      DumpTable(magic, r, depp, Slotted(added, h, at), Links(h, at));
    }

    /** `_citrus_db_factory_serialize`: the region holds the image of some arrangement of the
        entries, `at`, by their hash values, and nothing behind the computed size is touched. The hash
        values are replaced by their residues. */
    method Serialize(magic: seq<octet>, r: array<octet>) returns (ghost at: seq<nat>)
      requires Valid()
      requires |magic| >= 8 && r.Length >= CalcSize()
      modifies r, entries
      ensures Valid()
      ensures r[CalcSize()..] == old(r[CalcSize()..])
      ensures added == [] ==> CalcSize() == 16 && r[..16] == Header(magic, 0)
      ensures added != [] ==> IsImage(r[..CalcSize()], magic, added, old(HashValues()), at)
      ensures added != [] ==> HashValues() == ResiduesOf(old(HashValues()))
    {
      if numEntries == 0 {
        at := [];
        DumpNothing(magic, r);
      } else {
        ghost var h := ResiduesOf(HashValues());
        hide Slotted, Links, Image, Sum, Assigned, Residues, Residue;
        at := Dump(magic, r, h);
      }
    }

    /** As long as only entries were added, the hash values are those of the keys. */
    lemma {:induction false} HashedValues()
      requires Valid() && Hashed()
      ensures HashValues() == HashesOf(hash, added)
    {
    }
  }

  method DumpNothing(magic: seq<octet>, r: array<octet>)
    requires |magic| >= 8 && r.Length >= 16
    modifies r
    ensures r[..16] == Header(magic, 0) && r[16..] == old(r[16..])
  {
    ghost var before := r[..];
    var ofs := DumpHeader(r, magic, 0, 0);
    WroteKeeps(before, r[..], 0, Header(magic, 0), 16, r.Length);
  }

  lemma {:induction false} SmallResidue(v: nat, n: nat)
    requires v < n && v < 0x1_0000_0000
    ensures Residue(v, n) == v
  {
  }

  lemma {:induction false} SlottedFileSize(pairs: seq<Pair>, h: seq<nat>, at: seq<nat>)
    requires |pairs| == |h| && Residues(h) && Assigned(h, at)
    ensures FileSize(Slotted(pairs, h, at)) == TotalSize(|pairs|, Sum(KeySizes(pairs), |pairs|), Sum(DataSizes(pairs), |pairs|))
    ensures |KeyBytes(Slotted(pairs, h, at), |pairs|)| == Sum(KeySizes(pairs), |pairs|)
  {
    var ps := Slotted(pairs, h, at);
    SlottedSizes(pairs, h, at);
    FileSizeIsTotal(ps);
    TableSizes(ps, |ps|);
  }

  /** b is the image of the added pairs in the arrangement `at`. */
  ghost predicate IsImage(b: seq<octet>, magic: seq<octet>, added: seq<Pair>, hashes: seq<uint32>, at: seq<nat>)
    requires |magic| >= 8 && |hashes| == |added|
  {
    var h := ResiduesOf(hashes);
    Assigned(h, at) && b == Image(magic, Slotted(added, h, at), Links(h, at))
  }

  method FinalPads(r: array<octet>, ofs: nat, keyofs: nat, ghost magic: seq<octet>, ghost ps: seq<Pair>, ghost links: seq<Link>)
    requires |magic| >= 8 && |ps| == |links|
    requires ofs == 16 + |ps| * 24 && keyofs == KeyOffset(ps, |ps|)
    requires FileSize(ps) <= r.Length && Dumped(r[..], magic, ps, links, |ps|)
    modifies r
    ensures r[..FileSize(ps)] == Image(magic, ps, links)
    ensures r[FileSize(ps)..] == old(r[FileSize(ps)..])
  {
    hide *;
    PadsFit(ps);
    ghost var b0 := r[..];
    var ofs' := PutPad(r, ofs);
    ghost var s1 := r[..];
    var keyofs' := PutPad(r, keyofs);
    DumpDone(b0, s1, r[..], magic, ps, links);
  }

  lemma {:induction false} PadsFit(ps: seq<Pair>)
    ensures CeilTo(16 + |ps| * 24) == KeyBase(|ps|) <= FileSize(ps)
    ensures Pad(16 + |ps| * 24) == Pad(|ps| * 24)
    ensures CeilTo(KeyOffset(ps, |ps|)) == DataBase(ps) <= FileSize(ps)
    ensures Pad(KeyOffset(ps, |ps|)) == Pad(|KeyBytes(ps, |ps|)|)
  {
    CeilShift(16, |ps| * 24);
    Alignment(ps, 0);
    CeilShift(KeyBase(|ps|), |KeyBytes(ps, |ps|)|);
  }

  /** What slot s of the filled table is like, read through the entry's pointers. */
  ghost predicate SlotMatches(de: Entry, p: Pair, link: Link)
    reads de, de.next
  {
    && p == Pair(de.key, de.data)
    && link.hash == de.hashvalue
    && (de.next != null ==> de.next.idx >= 0)
    && link.next == if de.next == null then 0 else 16 + de.next.idx * 24
  }

  method PutWord(r: array<octet>, ofs: nat, val: nat, ghost b0: seq<octet>, ghost ws: seq<nat>, ghost k: nat)
    returns (next: nat)
    requires k < |ws| && ws[k] == val && ofs + 4 <= r.Length
    requires 4 * k <= ofs && Wrote(b0, r[..], ofs - 4 * k, Words(ws, k))
    modifies r
    ensures next == ofs + 4
    ensures Wrote(b0, r[..], ofs - 4 * k, Words(ws, k + 1))
  {
    ghost var b1 := r[..];
    next := Put32(r, ofs, val);
    WroteBoth(b0, b1, r[..], ofs - 4 * k, Words(ws, k), Be32(Low32(val)));
  }

  method PutSixWords(r: array<octet>, ofs: nat, hash: nat, next: nat, keyofs: nat, keysize: nat, dataofs: nat, datasize: nat)
    returns (ofs': nat)
    requires ofs + 24 <= r.Length
    modifies r
    ensures ofs' == ofs + 24
    ensures Wrote(old(r[..]), r[..], ofs, Words([hash, next, keyofs, keysize, dataofs, datasize], 6))
  {
    ghost var b0, ws := r[..], [hash, next, keyofs, keysize, dataofs, datasize];
    ofs' := PutWord(r, ofs, hash, b0, ws, 0);
    ofs' := PutWord(r, ofs', next, b0, ws, 1);
    ofs' := PutWord(r, ofs', keyofs, b0, ws, 2);
    ofs' := PutWord(r, ofs', keysize, b0, ws, 3);
    ofs' := PutWord(r, ofs', dataofs, b0, ws, 4);
    ofs' := PutWord(r, ofs', datasize, b0, ws, 5);
  }
}
