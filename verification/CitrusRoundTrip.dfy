/** What the reader finds in the files the writer makes. */
module CitrusRoundTrip {
  import opened Octets
  import opened Options
  import opened Scan
  import opened CitrusHash
  import opened CitrusSlots
  import opened CitrusImage
  import opened CitrusDbFactory
  import opened CitrusDb
  import opened CitrusChain

  function Keys(pairs: seq<Pair>): (ks: seq<seq<octet>>)
    ensures |ks| == |pairs| && forall i :: 0 <= i < |ks| ==> ks[i] == pairs[i].key
  {
    seq(|pairs|, i requires 0 <= i < |pairs| => pairs[i].key)
  }

  lemma {:induction false} HeadStored(magic: seq<octet>, ps: seq<Pair>, links: seq<Link>, r: seq<octet>)
    requires |magic| >= 8 && |ps| == |links| && r == Image(magic, ps, links)
    ensures |r| == FileSize(ps) && 16 + |ps| * 24 <= |r|
    ensures r[..16 + |ps| * 24] == Head(magic, ps, links, |ps|)
  {
    Tiling(magic, ps, links);
    var head := Head(magic, ps, links, |ps|);
    assert r[..KeyBase(|ps|)][..|head|] == head;
  }

  lemma {:induction false} HeaderWords(header: seq<octet>, magic: seq<octet>, n: nat)
    requires |magic| >= 8 && header == Header(magic, n)
    ensures header[..8] == magic[..8] && WordAt(header, 8) == Low32(n) && WordAt(header, 12) == 16
  {
    assert header[8..12] == Be32(Low32(n));
    assert header[12..16] == Be32(16);
    Be32RoundTrip(Low32(n));
    Be32RoundTrip(16);
  }

  lemma {:induction false} HeaderStored(magic: seq<octet>, ps: seq<Pair>, links: seq<Link>, r: seq<octet>)
    requires |magic| >= 8 && |ps| == |links| && r == Image(magic, ps, links)
    ensures 16 + |ps| * 24 <= |r| == FileSize(ps)
    ensures r[..8] == magic[..8] && WordAt(r, 8) == Low32(|ps|) && WordAt(r, 12) == 16
  {
    HeadStored(magic, ps, links, r);
    HeaderInHead(magic, ps, links, |ps|);
    var header := Header(magic, |ps|);
    HeaderWords(header, magic, |ps|);
    assert r[..16 + |ps| * 24][..16] == r[..16];
    assert r[..8] == header[..8];
    assert r[8..8 + 4] == header[8..8 + 4];
    assert r[12..12 + 4] == header[12..12 + 4];
  }

  lemma {:induction false} EntryBytesStored(magic: seq<octet>, ps: seq<Pair>, links: seq<Link>, r: seq<octet>, s: nat)
    requires |magic| >= 8 && s < |ps| == |links| && r == Image(magic, ps, links)
    ensures 16 + s * 24 + 24 <= |r| && r[16 + s * 24..16 + s * 24 + 24] == EntryBytes(ps, links, s)
  {
    HeadStored(magic, ps, links, r);
    EntryInHead(magic, ps, links, |ps|, s);
    var n, o := 16 + |ps| * 24, 16 + s * 24;
    assert r[..n][o..o + 24] == r[o..o + 24];
  }

  lemma {:induction false} EntryWordStored(r: seq<octet>, o: nat, ws: seq<nat>, k: nat)
    requires |ws| == 6 && k < 6 && o + 24 <= |r| && r[o..o + 24] == Words(ws, 6)
    ensures WordAt(r, o + 4 * k) == Low32(ws[k])
  {
    SubSlice(r, o, 24, 4 * k, 4 * k + 4);
    WordIn(ws, 6, k);
  }

  /** The directory entry at offset o has the given words. */
  predicate EntryIs(r: seq<octet>, o: nat, hash: nat, next: nat, keyofs: nat, keysize: nat, dataofs: nat, datasize: nat) {
    && HasEntry(r, o)
    && WordAt(r, o) == hash && WordAt(r, o + 4) == next
    && WordAt(r, o + 8) == keyofs && WordAt(r, o + 12) == keysize
    && WordAt(r, o + 16) == dataofs && WordAt(r, o + 20) == datasize
  }

  lemma {:induction false} Low32Small(v: nat)
    requires v < 0x1_0000_0000
    ensures Low32(v) == v
  {
  }

  lemma {:induction false} SixWords(r: seq<octet>, o: nat, a: nat, b: nat, c: nat, d: nat, e: nat, f: nat)
    requires o + 24 <= |r| && r[o..o + 24] == Words([a, b, c, d, e, f], 6)
    requires a < 0x1_0000_0000 && b < 0x1_0000_0000 && c < 0x1_0000_0000
    requires d < 0x1_0000_0000 && e < 0x1_0000_0000 && f < 0x1_0000_0000
    ensures EntryIs(r, o, a, b, c, d, e, f)
  {
    var ws := [a, b, c, d, e, f];
    forall k | 0 <= k < 6
      ensures WordAt(r, o + 4 * k) == ws[k]
    {
      EntryWordStored(r, o, ws, k);
      Low32Small(ws[k]);
    }
    assert WordAt(r, o + 4 * 0) == ws[0] && WordAt(r, o + 4 * 1) == ws[1] && WordAt(r, o + 4 * 2) == ws[2];
    assert WordAt(r, o + 4 * 3) == ws[3] && WordAt(r, o + 4 * 4) == ws[4] && WordAt(r, o + 4 * 5) == ws[5];
  }

  /** The key of slot s lies where the directory says. */
  lemma {:induction false} KeyStored(magic: seq<octet>, ps: seq<Pair>, links: seq<Link>, r: seq<octet>, s: nat)
    requires |magic| >= 8 && s < |ps| == |links| && r == Image(magic, ps, links)
    ensures KeyOffset(ps, s) + |ps[s].key| <= DataBase(ps) <= |r|
    ensures r[KeyOffset(ps, s)..KeyOffset(ps, s) + |ps[s].key|] == ps[s].key
  {
    hide CeilTo, Head, Image, DataBytes, KeyBytes;
    Tiling(magic, ps, links);
    KeyInTable(ps, |ps|, s);
    var n, o := |KeyBytes(ps, |ps|)|, |KeyBytes(ps, s)|;
    var keys := r[KeyBase(|ps|)..DataBase(ps)];
    assert keys[..n] == KeyBytes(ps, |ps|);
    assert keys[o..o + |ps[s].key|] == KeyBytes(ps, |ps|)[o..o + |ps[s].key|];
    SubSlice(r, KeyBase(|ps|), CeilTo(n), o, o + |ps[s].key|);
  }

  /** So do its data. */
  lemma {:induction false} DataStored(magic: seq<octet>, ps: seq<Pair>, links: seq<Link>, r: seq<octet>, s: nat)
    requires |magic| >= 8 && s < |ps| == |links| && r == Image(magic, ps, links)
    ensures DataOffset(ps, s) + |ps[s].data| <= |r|
    ensures r[DataOffset(ps, s)..DataOffset(ps, s) + |ps[s].data|] == ps[s].data
  {
    hide CeilTo, Padded, Head, Image, DataBytes, KeyBytes;
    Tiling(magic, ps, links);
    DataInTable(ps, |ps|, s);
    var n, o := |DataBytes(ps, |ps|)|, |DataBytes(ps, s)|;
    assert r[DataBase(ps)..] == r[DataBase(ps)..DataBase(ps) + n];
    SubSlice(r, DataBase(ps), n, o, o + |ps[s].data|);
  }

  /** Slot s of the file r is exactly as the tables say. */
  predicate SlotSeen(r: seq<octet>, ps: seq<Pair>, links: seq<Link>, s: nat)
    requires s < |ps| == |links|
  {
    && EntryIs(r, 16 + s * 24, links[s].hash, links[s].next, KeyOffset(ps, s), |ps[s].key|, DataOffset(ps, s), |ps[s].data|)
    && KeyOffset(ps, s) <= DataOffset(ps, s)
    && KeyOffset(ps, s) + |ps[s].key| <= |r| && DataOffset(ps, s) + |ps[s].data| <= |r|
    && r[KeyOffset(ps, s)..KeyOffset(ps, s) + |ps[s].key|] == ps[s].key
    && r[DataOffset(ps, s)..DataOffset(ps, s) + |ps[s].data|] == ps[s].data
  }

  lemma {:induction false} SlotStored(magic: seq<octet>, ps: seq<Pair>, links: seq<Link>, r: seq<octet>, s: nat)
    requires |magic| >= 8 && s < |ps| == |links| && r == Image(magic, ps, links) && |r| < 0x1_0000_0000
    requires links[s].hash <= |r| && links[s].next <= |r|
    ensures SlotSeen(r, ps, links, s)
  {
    hide Image, DataBytes, KeyBytes, CeilTo, EntryIs, Words;
    EntryBytesStored(magic, ps, links, r, s);
    KeyStored(magic, ps, links, r, s);
    DataStored(magic, ps, links, r, s);
    SixWords(r, 16 + s * 24, links[s].hash, links[s].next, KeyOffset(ps, s), |ps[s].key|, DataOffset(ps, s), |ps[s].data|);
  }

  /** The verdict on an entry with the key looked for.  The reader cannot seek to the end of the
      file, so data there, which can only be empty, are taken for a malformed file. */
  function Fetched(r: seq<octet>, ps: seq<Pair>, s: nat): Result<seq<octet>>
    requires s < |ps|
  {
    if DataOffset(ps, s) < |r| then Ok(ps[s].data) else Err(EFTYPE)
  }

  /** One round of the lookup loop at slot s. */
  lemma {:induction false} LookAtSlot(r: seq<octet>, ps: seq<Pair>, links: seq<Link>, s: nat, key: seq<octet>, hashval: uint32)
    requires s < |ps| == |links| && SlotSeen(r, ps, links, s)
    ensures LookAt(r, key, hashval, 16 + s * 24) ==
      if links[s].hash != hashval then Verdict(Err(ENOENT))
      else if ps[s].key == key then Verdict(Fetched(r, ps, s))
      else Onward(links[s].next)
    ensures Resume(r, 16 + s * 24) == if links[s].next == 0 then |r| else links[s].next
  {
    if |ps[s].key| == |key| && ps[s].key != key {
      assert |key| > 0;
    }
  }

  /** r is a file that the writer made for the pairs with the hash values hv, with at least one entry and a
      size that the 32-bit offsets of the format can express. */
  ghost predicate Stored(r: seq<octet>, magic: seq<octet>, pairs: seq<Pair>, hv: seq<uint32>, at: seq<nat>) {
    |magic| >= 8 && |r| < 0x1_0000_0000 && Arranged(pairs, hv, at) && IsImage(r, magic, pairs, hv, at)
  }

  /** There is at least one entry, and at is the arrangement by the residues of the hash values. */
  ghost predicate Arranged(pairs: seq<Pair>, hv: seq<uint32>, at: seq<nat>) {
    pairs != [] && |hv| == |pairs| && Assigned(ResiduesOf(hv), at)
  }

  lemma {:induction false} EntrySeen(r: seq<octet>, magic: seq<octet>, pairs: seq<Pair>, h: seq<nat>, at: seq<nat>, s: nat)
    requires |magic| >= 8 && |pairs| == |h| && Residues(h) && Assigned(h, at)
    requires r == Image(magic, Slotted(pairs, h, at), Links(h, at)) && |r| < 0x1_0000_0000 && s < |h|
    ensures SlotSeen(r, Slotted(pairs, h, at), Links(h, at), s)
  {
    var ps, links := Slotted(pairs, h, at), Links(h, at);
    HeadStored(magic, ps, links, r);
    assert links[s].hash < |h|;
    assert links[s].next <= 16 + |h| * 24;
    SlotStored(magic, ps, links, r, s);
  }

  ghost function Offsets(h: seq<nat>, at: seq<nat>): (off: seq<nat>)
    requires Residues(h) && Assigned(h, at)
    ensures |off| == |h| && forall i :: 0 <= i < |off| ==> off[i] == EntryOffset(h, at, i)
  {
    seq(|h|, i requires 0 <= i < |h| => EntryOffset(h, at, i))
  }

  ghost function FetchedAll(r: seq<octet>, ps: seq<Pair>, h: seq<nat>, at: seq<nat>): (fs: seq<Result<seq<octet>>>)
    requires |ps| == |h| && Residues(h) && Assigned(h, at)
    ensures |fs| == |h| && forall i :: 0 <= i < |fs| ==> i in at && fs[i] == Fetched(r, ps, SlotOf(at, i))
  {
    assert forall i: nat {:trigger i in at} :: i < |h| ==> i in at by {
      forall i: nat | i < |h|
        ensures i in at
      {
        EverySlotUsed(h, at, i);
      }
    }
    seq(|h|, i requires 0 <= i < |h| => Fetched(r, ps, SlotOf(at, i)))
  }

  ghost function ViewOf(r: seq<octet>, pairs: seq<Pair>, h: seq<nat>, at: seq<nat>): View
    requires |pairs| == |h| && Residues(h) && Assigned(h, at)
  {
    View(r, Keys(pairs), h, Offsets(h, at), FetchedAll(r, Slotted(pairs, h, at), h, at))
  }

  /** Entry i of the view v is in slot s of the tables. */
  predicate InSlot(v: View, i: nat, ps: seq<Pair>, links: seq<Link>, s: nat)
    requires i < |v.h| == |v.off| == |v.keys| == |v.fetched| && s < |ps| == |links|
  {
    && v.off[i] == 16 + s * 24 && v.keys[i] == ps[s].key && v.fetched[i] == Fetched(v.r, ps, s)
    && links[s] == Link(v.h[i], v.NextOffset(i))
  }

  lemma {:induction false} SlotViewed(v: View, i: nat, ps: seq<Pair>, links: seq<Link>, s: nat, key: seq<octet>, hashval: uint32)
    requires i < |v.h| == |v.off| == |v.keys| == |v.fetched| && s < |ps| == |links|
    requires InSlot(v, i, ps, links, s) && SlotSeen(v.r, ps, links, s)
    ensures v.off[i] < |v.r| && HasEntry(v.r, v.off[i]) && Resume(v.r, v.off[i]) == v.After(i)
    ensures LookAt(v.r, key, hashval, v.off[i]) == v.Look(i, key, hashval)
  {
    LookAtSlot(v.r, ps, links, s, key, hashval);
  }

  lemma {:induction false} EntryInSlot(r: seq<octet>, pairs: seq<Pair>, h: seq<nat>, at: seq<nat>, i: nat) returns (s: nat)
    requires |pairs| == |h| && Residues(h) && Assigned(h, at) && i < |h|
    ensures s < |h| && InSlot(ViewOf(r, pairs, h, at), i, Slotted(pairs, h, at), Links(h, at), s)
  {
    EverySlotUsed(h, at, i);
    s := SlotOf(at, i);
    var v := ViewOf(r, pairs, h, at);
    assert v.NextOffset(i) == NextOffset(h, at, i);
  }

  /** v is the view of the image r of the pairs. */
  ghost predicate Shows(v: View, magic: seq<octet>, pairs: seq<Pair>, at: seq<nat>) {
    && |magic| >= 8 && |pairs| == |v.h| && Residues(v.h) && Assigned(v.h, at)
    && v == ViewOf(v.r, pairs, v.h, at)
    && v.r == Image(magic, Slotted(pairs, v.h, at), Links(v.h, at)) && |v.r| < 0x1_0000_0000
  }

  lemma {:induction false} EntryViewed(v: View, magic: seq<octet>, pairs: seq<Pair>, at: seq<nat>, i: nat, key: seq<octet>, hashval: uint32)
    requires Shows(v, magic, pairs, at) && i < |v.h|
    ensures |v.keys| == |v.h| == |v.off| == |v.fetched|
    ensures 0 < v.off[i] < |v.r| && HasEntry(v.r, v.off[i]) && Resume(v.r, v.off[i]) == v.After(i)
    ensures LookAt(v.r, key, hashval, v.off[i]) == v.Look(i, key, hashval)
  {
    var s := EntryInSlot(v.r, pairs, v.h, at, i);
    EntrySeen(v.r, magic, pairs, v.h, at, s);
    SlotViewed(v, i, Slotted(pairs, v.h, at), Links(v.h, at), s, key, hashval);
  }

  /** The image of a table reads as the view of the table. */
  lemma {:induction false} ViewValid(v: View, magic: seq<octet>, pairs: seq<Pair>, at: seq<nat>)
    requires Shows(v, magic, pairs, at)
    ensures v.Valid()
  {
    assert |v.keys| == |v.h| == |v.off| == |v.fetched|;
    forall i, key, hashval | 0 <= i < |v.h|
      ensures LookAt(v.r, key, hashval, v.off[i]) == v.Look(i, key, hashval)
    {
      EntryViewed(v, magic, pairs, at, i, key, hashval);
    }
    forall i | 0 <= i < |v.h|
      ensures 0 < v.off[i] < |v.r| && HasEntry(v.r, v.off[i]) && Resume(v.r, v.off[i]) == v.After(i)
    {
      EntryViewed(v, magic, pairs, at, i, [], 0);
    }
  }

  ghost function StoreOf(r: seq<octet>, hash: HashFunction, pairs: seq<Pair>, hv: seq<uint32>, at: seq<nat>): Store
    requires Arranged(pairs, hv, at)
  {
    Store(Db(r, hash), ViewOf(r, pairs, ResiduesOf(hv), at), at)
  }

  /** An entry's offset is that of the slot it is in. */
  lemma {:induction false} OffsetInSlot(h: seq<nat>, at: seq<nat>, s: nat)
    requires Residues(h) && Assigned(h, at) && s < |h|
    ensures EntryOffset(h, at, at[s]) == 16 + s * 24
  {
    EverySlotUsed(h, at, at[s]);
    assert SlotOf(at, at[s]) == s;
  }

  lemma {:induction false} SlotsViewed(v: View, h: seq<nat>, at: seq<nat>)
    requires Residues(h) && Assigned(h, at) && v.off == Offsets(h, at)
    ensures forall s {:trigger at[s]} :: 0 <= s < |h| ==> at[s] < |h| && v.off[at[s]] == 16 + s * 24
    ensures forall s {:trigger at[s]} :: 0 <= s < |h| ==> (h[at[s]] == s <==> First(h, s, 0, |h|) < |h|)
    ensures forall s {:trigger at[s]} :: 0 <= s < |h| ==> (h[at[s]] == s ==> at[s] == First(h, s, 0, |h|))
  {
    forall s | 0 <= s < |h|
      ensures at[s] < |h| && v.off[at[s]] == 16 + s * 24
      ensures h[at[s]] == s <==> First(h, s, 0, |h|) < |h|
      ensures h[at[s]] == s ==> at[s] == First(h, s, 0, |h|)
    {
      OffsetInSlot(h, at, s);
      HomeSlot(h, at, s);
    }
  }

  /** A store is valid if its view and its slots are, and its header says how many entries there are. */
  lemma {:induction false} StoreParts(st: Store)
    requires st.v.Valid() && st.db.region == st.v.r && |st.at| == |st.v.h| > 0
    requires 16 + |st.v.h| * 24 <= |st.v.r| < 0x1_0000_0000 && WordAt(st.v.r, 8) == |st.v.h| && WordAt(st.v.r, 12) == 16
    requires Residues(st.v.h) && Assigned(st.v.h, st.at) && st.v.off == Offsets(st.v.h, st.at)
    ensures st.Valid()
  {
    hide View.Valid, WordAt, First, Assigned, Offsets;
    SlotsViewed(st.v, st.v.h, st.at);
  }

  lemma {:induction false} StoreValid(r: seq<octet>, magic: seq<octet>, hash: HashFunction, pairs: seq<Pair>, hv: seq<uint32>, at: seq<nat>)
    requires Stored(r, magic, pairs, hv, at)
    ensures StoreOf(r, hash, pairs, hv, at).Valid()
  {
    hide View.Valid, Store.Valid, WordAt, Offsets, FetchedAll, Slotted, Links, Image, FileSize;
    var h := ResiduesOf(hv);
    HeaderStored(magic, Slotted(pairs, h, at), Links(h, at), r);
    Low32Small(|pairs|);
    ViewValid(ViewOf(r, pairs, h, at), magic, pairs, at);
    StoreParts(StoreOf(r, hash, pairs, hv, at));
  }

  /** The data added under the key from entry i on, in the order of adding. */
  function DataUnder(pairs: seq<Pair>, key: seq<octet>, i: nat): seq<seq<octet>>
    requires i <= |pairs|
    decreases |pairs| - i
  {
    if i == |pairs| then []
    else (if pairs[i].key == key then [pairs[i].data] else []) + DataUnder(pairs, key, i + 1)
  }

  lemma {:induction false} DataGrow(ps: seq<Pair>, s: nat, m: nat)
    requires s <= m <= |ps|
    ensures |DataBytes(ps, s)| <= |DataBytes(ps, m)|
    ensures s < m && ps[m - 1].data != [] ==> |DataBytes(ps, s)| < |DataBytes(ps, m)|
  {
    if s < m {
      DataGrow(ps, s, m - 1);
      assert DataBytes(ps, m) == DataBytes(ps, m - 1) + Padded(ps[m - 1].data);
      hide DataBytes, Padded;
    }
  }

  /** A datum from slot s on is not empty. */
  ghost predicate DataBehind(ps: seq<Pair>, s: nat) {
    exists t :: s <= t < |ps| && ps[t].data != []
  }

  /** A datum begins before the end of the file exactly when it or one behind it is not empty. */
  lemma {:induction false} ReadableIff(ps: seq<Pair>, s: nat)
    requires s < |ps|
    ensures DataOffset(ps, s) < FileSize(ps) <==> DataBehind(ps, s)
  {
    if t :| s <= t < |ps| && ps[t].data != [] {
      DataGrow(ps, s, t + 1);
      DataGrow(ps, t + 1, |ps|);
    } else {
      NoData(ps, s, |ps|);
    }
  }

  lemma {:induction false} NoData(ps: seq<Pair>, s: nat, m: nat)
    requires s <= m <= |ps| && forall t :: s <= t < m ==> ps[t].data == []
    ensures DataBytes(ps, m) == DataBytes(ps, s)
    decreases m - s
  {
    if s < m {
      NoData(ps, s, m - 1);
    }
  }

  /** Every datum can be read exactly when the one in the last slot is not empty. */
  lemma {:induction false} AllReadable(ps: seq<Pair>)
    requires ps != []
    ensures (forall s :: 0 <= s < |ps| ==> DataOffset(ps, s) < FileSize(ps)) <==> ps[|ps| - 1].data != []
  {
    var last := |ps| - 1;
    ReadableIff(ps, last);
    if ps[last].data != [] {
      forall s | 0 <= s < |ps|
        ensures DataOffset(ps, s) < FileSize(ps)
      {
        ReadableIff(ps, s);
      }
    }
  }

  /** The view fetches, for every entry, the data of the pair or nothing. */
  ghost predicate FetchesPairs(st: Store, pairs: seq<Pair>) {
    && st.Valid() && |pairs| == |st.v.h| && st.v.keys == Keys(pairs)
    && forall i :: 0 <= i < |pairs| ==> st.v.fetched[i] == Ok(pairs[i].data) || st.v.fetched[i] == Err(EFTYPE)
  }

  /** A lookup of its key comes to entry j, and can read its datum. */
  ghost predicate Seen(st: Store, key: seq<octet>, j: nat)
    requires st.Valid() && j < |st.v.h|
  {
    st.v.h[j] == st.Hash(key) && st.v.fetched[j].Ok?
  }

  ghost predicate AllSeen(st: Store, key: seq<octet>, i: nat)
    requires st.Valid()
  {
    forall j :: i <= j < |st.v.h| && st.v.keys[j] == key ==> Seen(st, key, j)
  }

  /** No more is fetched than was added, and all that was added exactly when every entry with the key is seen. */
  lemma {:induction false} FetchableIff(st: Store, pairs: seq<Pair>, key: seq<octet>, i: nat)
    requires FetchesPairs(st, pairs) && i <= |pairs|
    ensures |st.Fetchable(key, i)| <= |DataUnder(pairs, key, i)|
    ensures st.Fetchable(key, i) == DataUnder(pairs, key, i) <==> AllSeen(st, key, i)
    decreases |pairs| - i
  {
    if i < |pairs| {
      FetchableIff(st, pairs, key, i + 1);
      FetchableNext(st, key, i);
      AllSeenNext(st, key, i);
      var f, d := st.Fetchable(key, i + 1), DataUnder(pairs, key, i + 1);
      hide Store.Fetchable, Store.Valid, AllSeen, DataUnder;
      if pairs[i].key == key && Seen(st, key, i) {
        assert ([pairs[i].data] + f)[1..] == f && ([pairs[i].data] + d)[1..] == d;
      }
      DataUnderNext(pairs, key, i);
    }
  }

  lemma {:induction false} DataUnderNext(pairs: seq<Pair>, key: seq<octet>, i: nat)
    requires i < |pairs|
    ensures DataUnder(pairs, key, i) == (if pairs[i].key == key then [pairs[i].data] else []) + DataUnder(pairs, key, i + 1)
  {
  }

  lemma {:induction false} AllSeenNext(st: Store, key: seq<octet>, i: nat)
    requires st.Valid() && i < |st.v.h|
    ensures AllSeen(st, key, i) <==> (st.v.keys[i] == key ==> Seen(st, key, i)) && AllSeen(st, key, i + 1)
  {
  }

  lemma {:induction false} FetchableNext(st: Store, key: seq<octet>, i: nat)
    requires st.Valid() && i < |st.v.h|
    ensures st.Fetchable(key, i) ==
              if st.v.keys[i] != key || st.v.h[i] != st.Hash(key) then st.Fetchable(key, i + 1)
              else if st.v.fetched[i].Err? then [] else [st.v.fetched[i].value] + st.Fetchable(key, i + 1)
  {
    assert st.v.Tagged()[i] == st.TagOf(key) <==> st.v.keys[i] == key && st.v.h[i] == st.Hash(key);
    if st.v.Tagged()[i] != st.TagOf(key) {
      FirstSkips(st.v.Tagged(), st.TagOf(key), i, i + 1, |st.v.h|);
      st.FetchableSkips(key, i, i + 1);
    }
  }

  lemma {:induction false} StoreFetches(r: seq<octet>, magic: seq<octet>, hash: HashFunction, pairs: seq<Pair>, hv: seq<uint32>, at: seq<nat>)
    requires Stored(r, magic, pairs, hv, at)
    ensures FetchesPairs(StoreOf(r, hash, pairs, hv, at), pairs)
  {
    hide IsImage, Store.Valid, View.Valid, Assigned;
    StoreValid(r, magic, hash, pairs, hv, at);
  }

  /** The file opens. */
  lemma {:induction false} ImageOpens(r: seq<octet>, magic: seq<octet>, pairs: seq<Pair>, hv: seq<uint32>, at: seq<nat>)
    requires Stored(r, magic, pairs, hv, at)
    ensures Opens(r, magic)
  {
    var h := ResiduesOf(hv);
    HeaderStored(magic, Slotted(pairs, h, at), Links(h, at), r);
    Low32Small(|pairs|);
    Low32Small(|pairs| * 24);
    SameMagic(r[..16], magic, 8);
  }

  lemma {:induction false} SameMagic(a: seq<octet>, b: seq<octet>, n: nat)
    requires n <= |a| && n <= |b| && a[..n] == b[..n]
    ensures StrnEqual(a, b, n)
    decreases n
  {
    if n > 0 {
      assert a[0] == a[..n][0] == b[0];
      assert a[1..][..n - 1] == a[..n][1..] == b[1..][..n - 1];
      SameMagic(a[1..], b[1..], n - 1);
    }
  }

  /** The file of a factory without entries, on the other hand, does not: the directory would start
      at the end of the file, which is no position to seek to. */
  lemma {:induction false} EmptyDoesNotOpen(magic: seq<octet>)
    requires |magic| >= 8
    ensures !Opens(Header(magic, 0), magic)
  {
    HeaderWords(Header(magic, 0), magic, 0);
  }

  /** What looking up the key over and over with one new locator fetches from the file. */
  ghost function FetchAll(r: seq<octet>, hash: HashFunction, pairs: seq<Pair>, hv: seq<uint32>, at: seq<nat>, key: seq<octet>): seq<seq<octet>>
    requires Arranged(pairs, hv, at)
  {
    Collect(StoreOf(r, hash, pairs, hv, at).Step(key), Place(0, 0), |pairs| + 1)
  }

  lemma {:induction false} FetchAllIs(r: seq<octet>, magic: seq<octet>, hash: HashFunction, pairs: seq<Pair>, hv: seq<uint32>, at: seq<nat>, key: seq<octet>)
    requires Stored(r, magic, pairs, hv, at)
    ensures var st := StoreOf(r, hash, pairs, hv, at);
      FetchesPairs(st, pairs) && FetchAll(r, hash, pairs, hv, at, key) == st.Fetchable(key, 0)
  {
    var st := StoreOf(r, hash, pairs, hv, at);
    StoreFetches(r, magic, hash, pairs, hv, at);
    st.CollectAll(key, Place(0, 0), |pairs| + 1);
  }

  /** Entry j is stored under the residue of its key. */
  predicate Filed(hash: HashFunction, pairs: seq<Pair>, hv: seq<uint32>, j: nat)
    requires j < |pairs| == |hv|
  {
    Residue(hv[j], |pairs|) == Residue(hash(pairs[j].key), |pairs|)
  }

  /** Its datum, or one in a later slot, is not empty. */
  ghost predicate Readable(pairs: seq<Pair>, at: seq<nat>, j: nat)
    requires |at| == |pairs| && j in at && forall s :: 0 <= s < |at| ==> at[s] < |pairs|
  {
    exists t :: SlotOf(at, j) <= t < |at| && pairs[at[t]].data != []
  }

  /** Both hold of every entry with the key. */
  ghost predicate Kept(hash: HashFunction, pairs: seq<Pair>, hv: seq<uint32>, at: seq<nat>, key: seq<octet>)
    requires Arranged(pairs, hv, at)
  {
    forall j :: 0 <= j < |pairs| && pairs[j].key == key ==> Filed(hash, pairs, hv, j) && j in at && Readable(pairs, at, j)
  }

  /** Entry j as the view has it. */
  lemma {:induction false} ViewedEntry(r: seq<octet>, hash: HashFunction, pairs: seq<Pair>, hv: seq<uint32>, at: seq<nat>, j: nat)
    requires Arranged(pairs, hv, at) && j < |pairs|
    ensures var st, h := StoreOf(r, hash, pairs, hv, at), ResiduesOf(hv);
      && |st.v.h| == |st.v.fetched| == |pairs| && st.v.h == h && j in at && st.Hash(pairs[j].key) == Residue(hash(pairs[j].key), |pairs|)
      && (st.v.fetched[j].Ok? <==> DataOffset(Slotted(pairs, h, at), SlotOf(at, j)) < |r|)
  {
    EverySlotUsed(ResiduesOf(hv), at, j);
  }

  lemma {:induction false} ReadableSlot(pairs: seq<Pair>, h: seq<nat>, at: seq<nat>, j: nat)
    requires |pairs| == |h| && Residues(h) && Assigned(h, at) && j < |pairs| && j in at
    ensures var ps := Slotted(pairs, h, at); DataOffset(ps, SlotOf(at, j)) < FileSize(ps) <==> Readable(pairs, at, j)
  {
    var ps := Slotted(pairs, h, at);
    ReadableIff(ps, SlotOf(at, j));
    hide DataOffset, FileSize, SlotOf, Assigned;
  }

  lemma {:induction false} SeenIff(r: seq<octet>, magic: seq<octet>, hash: HashFunction, pairs: seq<Pair>, hv: seq<uint32>, at: seq<nat>, j: nat)
    requires Stored(r, magic, pairs, hv, at) && j < |pairs|
    ensures var st := StoreOf(r, hash, pairs, hv, at);
      st.Valid() && |st.v.h| == |st.v.fetched| == |pairs| && j in at && (Seen(st, pairs[j].key, j) <==> Filed(hash, pairs, hv, j) && Readable(pairs, at, j))
      && (st.v.fetched[j].Ok? <==> Readable(pairs, at, j))
  {
    var h := ResiduesOf(hv);
    StoreValid(r, magic, hash, pairs, hv, at);
    HeadStored(magic, Slotted(pairs, h, at), Links(h, at), r);
    ViewedEntry(r, hash, pairs, hv, at, j);
    hide StoreOf, Store.Valid, Readable, Slotted, DataOffset, FileSize;
    ReadableSlot(pairs, h, at, j);
  }

  /** Looking up a key with one locator until it fails fetches exactly what was added under the key, in the order of
      adding, if and only if its entries are stored under its residue and none of its data is empty at the end of
      the file. */
  lemma {:induction false} KeyRoundTrip(r: seq<octet>, magic: seq<octet>, hash: HashFunction, pairs: seq<Pair>, hv: seq<uint32>, at: seq<nat>, key: seq<octet>)
    requires Stored(r, magic, pairs, hv, at) && Arranged(pairs, hv, at)
    ensures FetchAll(r, hash, pairs, hv, at, key) == DataUnder(pairs, key, 0) <==> Kept(hash, pairs, hv, at, key)
  {
    hide *;
    var st := StoreOf(r, hash, pairs, hv, at);
    FetchAllIs(r, magic, hash, pairs, hv, at, key);
    FetchableIff(st, pairs, key, 0);
    StoreValid(r, magic, hash, pairs, hv, at);
    SeenKept(r, magic, hash, pairs, hv, at, key);
  }

  lemma {:induction false} SeenKept(r: seq<octet>, magic: seq<octet>, hash: HashFunction, pairs: seq<Pair>, hv: seq<uint32>, at: seq<nat>, key: seq<octet>)
    requires Stored(r, magic, pairs, hv, at) && Arranged(pairs, hv, at)
    requires FetchesPairs(StoreOf(r, hash, pairs, hv, at), pairs) && StoreOf(r, hash, pairs, hv, at).Valid()
    ensures AllSeen(StoreOf(r, hash, pairs, hv, at), key, 0) <==> Kept(hash, pairs, hv, at, key)
  {
    hide Readable, Filed, Seen, Stored, Arranged, StoreOf, Store.Valid, Store.Hash, ResiduesOf, SlotOf, Keys, FetchesPairs, IsImage, Assigned;
    ArrangedSizes(pairs, hv, at);
    var st := StoreOf(r, hash, pairs, hv, at);
    KeysSeen(st, pairs);
    if AllSeen(st, key, 0) {
      forall j | 0 <= j < |pairs| && pairs[j].key == key
        ensures Filed(hash, pairs, hv, j) && j in at && Readable(pairs, at, j)
      {
        SeenIff(r, magic, hash, pairs, hv, at, j);
        assert st.v.keys[j] == key;
      }
    }
    if Kept(hash, pairs, hv, at, key) {
      forall j | 0 <= j < |st.v.h| && st.v.keys[j] == key
        ensures Seen(st, key, j)
      {
        SeenIff(r, magic, hash, pairs, hv, at, j);
      }
    }
  }

  lemma {:induction false} ArrangedSizes(pairs: seq<Pair>, hv: seq<uint32>, at: seq<nat>)
    requires Arranged(pairs, hv, at)
    ensures |hv| == |pairs| == |at| && forall s :: 0 <= s < |at| ==> at[s] < |pairs|
  {
  }

  lemma {:induction false} KeysSeen(st: Store, pairs: seq<Pair>)
    requires FetchesPairs(st, pairs)
    ensures |st.v.h| == |pairs| == |st.v.keys| && forall j :: 0 <= j < |pairs| ==> st.v.keys[j] == pairs[j].key
  {
  }

  /** All data can be read if the one in the last slot is not empty. */
  lemma {:induction false} LastDecides(pairs: seq<Pair>, h: seq<nat>, at: seq<nat>)
    requires pairs != [] && |h| == |pairs| && Residues(h) && Assigned(h, at)
    ensures pairs[LastEntry(h)].data != [] <==> forall j :: 0 <= j < |pairs| ==> j in at && Readable(pairs, at, j)
  {
    LastSlot(h, at);
    forall j | 0 <= j < |pairs|
      ensures j in at
    {
      EverySlotUsed(h, at, j);
    }
    if pairs[LastEntry(h)].data == [] {
      assert SlotOf(at, at[|h| - 1]) == |h| - 1;
      assert !Readable(pairs, at, at[|h| - 1]);
    }
  }

  /** The round trip: every key fetches what was added under it if and only if all entries are stored under the
      residues of their keys and the datum in the last slot of the table is not empty. */
  lemma {:induction false} RoundTripFor(r: seq<octet>, magic: seq<octet>, hash: HashFunction, pairs: seq<Pair>, hv: seq<uint32>, at: seq<nat>)
    requires Stored(r, magic, pairs, hv, at) && Arranged(pairs, hv, at) && |hv| == |pairs| > 0
    ensures (forall key :: FetchAll(r, hash, pairs, hv, at, key) == DataUnder(pairs, key, 0)) <==>
              (forall j :: 0 <= j < |pairs| ==> Filed(hash, pairs, hv, j)) && pairs[LastEntry(ResiduesOf(hv))].data != []
  {
    hide *;
    forall key
      ensures FetchAll(r, hash, pairs, hv, at, key) == DataUnder(pairs, key, 0) <==> Kept(hash, pairs, hv, at, key)
    {
      KeyRoundTrip(r, magic, hash, pairs, hv, at, key);
    }
    AllKept(hash, pairs, hv, at);
  }

  lemma {:induction false} AllKept(hash: HashFunction, pairs: seq<Pair>, hv: seq<uint32>, at: seq<nat>)
    requires Arranged(pairs, hv, at)
    ensures (forall key :: Kept(hash, pairs, hv, at, key)) <==>
              (forall j :: 0 <= j < |pairs| ==> Filed(hash, pairs, hv, j)) && pairs[LastEntry(ResiduesOf(hv))].data != []
  {
    LastDecides(pairs, ResiduesOf(hv), at);
    hide Readable, Filed, LastEntry, Arranged;
    if forall key :: Kept(hash, pairs, hv, at, key) {
      forall j | 0 <= j < |pairs|
        ensures Filed(hash, pairs, hv, j) && j in at && Readable(pairs, at, j)
      {
        assert Kept(hash, pairs, hv, at, pairs[j].key);
      }
    }
  }

  /** For the file of a factory to which entries were only added this depends on the last datum alone. */
  lemma {:induction false} RoundTrip(r: seq<octet>, magic: seq<octet>, hash: HashFunction, pairs: seq<Pair>, at: seq<nat>)
    requires var hv := HashesOf(hash, pairs); Stored(r, magic, pairs, hv, at) && Arranged(pairs, hv, at)
    ensures var hv := HashesOf(hash, pairs);
            (forall key :: FetchAll(r, hash, pairs, hv, at, key) == DataUnder(pairs, key, 0)) <==>
              pairs[LastEntry(ResiduesOf(hv))].data != []
  {
    assert |pairs| > 0 && |HashesOf(hash, pairs)| == |pairs|;
    AsAdded(hash, pairs);
    hide *;
    RoundTripFor(r, magic, hash, pairs, HashesOf(hash, pairs), at);
  }

  lemma {:induction false} AsAdded(hash: HashFunction, pairs: seq<Pair>)
    ensures |HashesOf(hash, pairs)| == |pairs| && forall j :: 0 <= j < |pairs| ==> Filed(hash, pairs, HashesOf(hash, pairs), j)
  {
  }

  /** A program that opens the file, and looks up the key with one locator until it fails. */
  method LookupAll(r: seq<octet>, magic: seq<octet>, hash: HashFunction, key: seq<octet>,
                   ghost pairs: seq<Pair>, ghost hv: seq<uint32>, ghost at: seq<nat>)
    returns (found: seq<seq<octet>>, error: Errno)
    requires Stored(r, magic, pairs, hv, at)
    ensures found == FetchAll(r, hash, pairs, hv, at, key)
    ensures found == DataUnder(pairs, key, 0) <==> Kept(hash, pairs, hv, at, key)
    ensures found == DataUnder(pairs, key, 0) ==> error == ENOENT
  {
    ghost var st := StoreOf(r, hash, pairs, hv, at);
    KeyRoundTrip(r, magic, hash, pairs, hv, at, key);
    FetchAllIs(r, magic, hash, pairs, hv, at, key);
    FetchableIff(st, pairs, key, 0);
    ImageOpens(r, magic, pairs, hv, at);
    var db := Open(r, magic, hash);
    var dl := new Locator();
    assert PlaceOf(dl).offset == 0 && st.db == Db(r, hash) && st.Valid();
    hide *;
    found, error := LookupRest(db.value, key, dl, st);
  }

  /** The loop of that program. */
  method LookupRest(db: Db, key: seq<octet>, dl: Locator, ghost st: Store)
    returns (found: seq<seq<octet>>, error: Errno)
    requires st.Valid() && db == st.db && PlaceOf(dl).offset == 0
    modifies dl
    ensures found == st.Fetchable(key, 0) && (AllSeen(st, key, 0) ==> error == ENOENT)
  {
    hide *;
    found := [];
    ghost var k := 0;
    while true
      invariant k <= |st.v.h| && (if k == 0 then PlaceOf(dl).offset == 0 && found == [] else st.StandsAt(PlaceOf(dl), key, k))
      invariant found + st.Fetchable(key, k) == st.Fetchable(key, 0)
      decreases |st.v.h| - k
    {
      Resumes(st, key, PlaceOf(dl), k);
      var data := Lookup(db, key, dl, |st.v.h|);
      if data.Err? {
        Unseen(st, key, k);
        return found, data.error;
      }
      ghost var k' := st.FetchableStep(key, k);
      found := found + [data.value];
      k := k';
    }
  }

  lemma {:induction false} EntryReads(r: seq<octet>, idx: nat, o: nat, hash: nat, next: nat, ko: nat, ks: nat, do: nat, ds: nat)
    requires 16 <= |r| && idx < WordAt(r, 8) && o == Low32(WordAt(r, 12) + idx * 24) && EntryIs(r, o, hash, next, ko, ks, do, ds)
    requires ko < |r| && ko + ks <= |r| && do < |r| && do + ds <= |r|
    ensures EntryAt(r, idx) == Ok((r[ko..ko + ks], r[do..do + ds]))
  {
  }

  lemma {:induction false} SlotRead(r: seq<octet>, ps: seq<Pair>, links: seq<Link>, s: nat)
    requires s < |ps| == |links| && SlotSeen(r, ps, links, s) && 16 <= |r| < 0x1_0000_0000
    requires WordAt(r, 8) == |ps| && WordAt(r, 12) == 16 && DataOffset(ps, s) < |r|
    ensures EntryAt(r, s) == Ok((ps[s].key, ps[s].data))
  {
    hide EntryAt, WordAt, KeyOffset, DataOffset;
    Low32Small(16 + s * 24);
    EntryReads(r, s, 16 + s * 24, links[s].hash, links[s].next, KeyOffset(ps, s), |ps[s].key|, DataOffset(ps, s), |ps[s].data|);
  }

  /** A lookup that starts anew, or goes on at entry k, ends. */
  lemma {:induction false} Resumes(st: Store, key: seq<octet>, p: Place, k: nat)
    requires st.Valid() && k <= |st.v.h| && if k == 0 then p.offset == 0 else st.StandsAt(p, key, k)
    ensures 16 <= |st.db.region| && |st.v.h| > 0
    ensures LookupEnds(st.db, key, p, |st.v.h|) && LookupResult(st.db, key, p, |st.v.h|) == st.v.Answer(st.TagOf(key), k)
    ensures LookupResult(st.db, key, p, |st.v.h|).Ok? ==>
              LookupPlace(st.db, key, p, |st.v.h|) == Place(st.Hash(key), st.v.AnswerOffset(st.TagOf(key), k))
  {
    if k == 0 {
      st.FirstLookup(key, p, |st.v.h|);
    } else {
      st.ResumedLookup(key, p, k, |st.v.h|);
    }
  }

  /** A lookup that fails has nothing more to fetch, and fails for want of entries or at one that cannot be read. */
  lemma {:induction false} Unseen(st: Store, key: seq<octet>, k: nat)
    requires st.Valid() && k <= |st.v.h| && st.v.Answer(st.TagOf(key), k).Err?
    ensures st.Fetchable(key, k) == []
    ensures AllSeen(st, key, 0) ==> st.v.Answer(st.TagOf(key), k) == Err(ENOENT)
  {
    var j := First(st.v.Tagged(), st.TagOf(key), k, |st.v.h|);
    if j < |st.v.h| {
      assert st.v.keys[j] == key && !Seen(st, key, j);
    }
  }

  /** The first entry from i on that has the key and is stored under its residue. */
  function FirstFiled(hash: HashFunction, pairs: seq<Pair>, hv: seq<uint32>, key: seq<octet>, i: nat): (j: nat)
    requires i <= |pairs| == |hv|
    ensures i <= j <= |pairs| && (j < |pairs| ==> pairs[j].key == key && Filed(hash, pairs, hv, j))
    ensures forall m :: i <= m < j ==> !(pairs[m].key == key && Filed(hash, pairs, hv, m))
    decreases |pairs| - i
  {
    if i == |pairs| || (pairs[i].key == key && Filed(hash, pairs, hv, i)) then i
    else FirstFiled(hash, pairs, hv, key, i + 1)
  }

  lemma {:induction false} FirstFiledIs(st: Store, pairs: seq<Pair>, hv: seq<uint32>, key: seq<octet>)
    requires st.Valid() && |hv| == |pairs| == |st.v.h| && st.v.keys == Keys(pairs) && st.v.h == ResiduesOf(hv)
    ensures First(st.v.Tagged(), st.TagOf(key), 0, |pairs|) == FirstFiled(st.db.hash, pairs, hv, key, 0)
  {
    var tags, tag := st.v.Tagged(), st.TagOf(key);
    forall m | 0 <= m < |pairs|
      ensures tags[m] == tag <==> pairs[m].key == key && Filed(st.db.hash, pairs, hv, m)
    {
      assert tags[m] == Tag(pairs[m].key, ResiduesOf(hv)[m]);
    }
    hide Store.Valid, Filed;
    var j := FirstFiled(st.db.hash, pairs, hv, key, 0);
    FirstSkips(tags, tag, 0, j, |pairs|);
  }

  /** A lookup without a locator ends, and finds the datum of the first entry with the key that is stored under its
      residue, if it can be read, and ENOENT if there is no such entry. */
  lemma {:induction false} SimpleLookup(r: seq<octet>, magic: seq<octet>, hash: HashFunction, pairs: seq<Pair>, hv: seq<uint32>, at: seq<nat>, key: seq<octet>)
    requires Stored(r, magic, pairs, hv, at)
    ensures 16 <= |r| && LookupEnds(Db(r, hash), key, Place(0, 0), |pairs|)
    ensures var j := FirstFiled(hash, pairs, hv, key, 0);
            && (j < |pairs| ==> j in at)
            && LookupResult(Db(r, hash), key, Place(0, 0), |pairs|) ==
                 if j == |pairs| then Err(ENOENT) else if Readable(pairs, at, j) then Ok(pairs[j].data) else Err(EFTYPE)
  {
    var st := StoreOf(r, hash, pairs, hv, at);
    StoreFetches(r, magic, hash, pairs, hv, at);
    st.FirstLookup(key, Place(0, 0), |pairs|);
    FirstFiledIs(st, pairs, hv, key);
    var j := FirstFiled(hash, pairs, hv, key, 0);
    if j < |pairs| {
      SeenIff(r, magic, hash, pairs, hv, at, j);
    }
    hide Readable, LookupEnds, LookupResult, StoreOf, Stored;
  }

  lemma {:induction false} SlotUnread(r: seq<octet>, ps: seq<Pair>, links: seq<Link>, s: nat)
    requires s < |ps| == |links| && SlotSeen(r, ps, links, s) && 16 <= |r| < 0x1_0000_0000
    requires WordAt(r, 8) == |ps| && WordAt(r, 12) == 16 && DataOffset(ps, s) >= |r|
    ensures EntryAt(r, s) == Err(EFTYPE)
  {
    Low32Small(16 + s * 24);
  }

  /** Reading the slots one after the other gives every pair once, in slot order, which is a rearrangement of the
      order of adding; only at an empty datum behind which all others are empty it fails. */
  lemma {:induction false} EntriesKept(r: seq<octet>, magic: seq<octet>, pairs: seq<Pair>, hv: seq<uint32>, at: seq<nat>)
    requires Stored(r, magic, pairs, hv, at)
    ensures 16 <= |r| && forall s :: s < 0 || s >= |pairs| ==> EntryAt(r, s) == Err(EINVAL)
    ensures var ps := Slotted(pairs, ResiduesOf(hv), at);
      && multiset(ps) == multiset(pairs)
      && forall s :: 0 <= s < |pairs| ==>
           EntryAt(r, s) == if DataBehind(ps, s) then Ok((ps[s].key, ps[s].data)) else Err(EFTYPE)
  {
    var h := ResiduesOf(hv);
    var ps := Slotted(pairs, h, at);
    HeaderStored(magic, ps, Links(h, at), r);
    Low32Small(|pairs|);
    SlottedSizes(pairs, h, at);
    forall s | 0 <= s < |pairs|
      ensures EntryAt(r, s) == if DataBehind(ps, s) then Ok((ps[s].key, ps[s].data)) else Err(EFTYPE)
    {
      EntrySeen(r, magic, pairs, h, at, s);
      ReadableIff(ps, s);
      if DataOffset(ps, s) < |r| {
        SlotRead(r, ps, Links(h, at), s);
      } else {
        SlotUnread(r, ps, Links(h, at), s);
      }
    }
  }
}
