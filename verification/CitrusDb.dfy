/** The reader of Citrus databases (citrus_db.c), on any bytes whatever. */
module CitrusDb {
  import opened Octets
  import opened Options
  import opened Scan
  import opened CitrusMemstream
  import opened CitrusHash

  /** The error numbers of the reader. */
  datatype Errno = ENOENT | EFTYPE | EINVAL

  datatype Result<+T> = Ok(value: T) | Err(error: Errno)

  datatype Db = Db(region: seq<octet>, hash: HashFunction)

  /** `struct _citrus_db_locator`: where the next lookup of the same key goes on. */
  class Locator {
    var hashval: uint32
    var offset: nat

    /** `_citrus_db_locator_init` */
    constructor ()
      ensures hashval == 0 && offset == 0
    {
      hashval, offset := 0, 0;
    }
  }

  /** Whether `strncmp(a, b, n)` is 0. */
  predicate StrnEqual(a: seq<octet>, b: seq<octet>, n: nat)
    requires n <= |a| && n <= |b|
    decreases n
  {
    n == 0 || (a[0] == b[0] && (a[0] == 0 || StrnEqual(a[1..], b[1..], n - 1)))
  }

  /** No NUL before position k. */
  predicate Before(a: seq<octet>, k: nat)
    requires k <= |a|
  {
    forall j :: 0 <= j < k ==> a[j] != 0
  }

  /** The comparison is for equality of all n bytes, or of those up to the first NUL. */
  lemma {:induction false} StrnEqualIs(a: seq<octet>, b: seq<octet>, n: nat)
    requires n <= |a| && n <= |b|
    ensures StrnEqual(a, b, n) <==> forall k: nat :: k < n && Before(a, k) ==> a[k] == b[k]
    decreases n
  {
    if n > 0 {
      StrnEqualIs(a[1..], b[1..], n - 1);
      forall k: nat | k < n - 1
        ensures a[0] != 0 ==> (Before(a[1..], k) <==> Before(a, k + 1))
      {
        if a[0] != 0 {
          Shifted(a, k);
        }
      }
      assert Before(a, 0);
      if StrnEqual(a, b, n) {
        forall k: nat | k < n && Before(a, k)
          ensures a[k] == b[k]
        {
          if k > 0 {
            assert a[0] != 0 && Before(a[1..], k - 1);
            assert a[1..][k - 1] == b[1..][k - 1];
          }
        }
      } else if a[0] == b[0] {
        var k: nat :| k < n - 1 && Before(a[1..], k) && a[1..][k] != b[1..][k];
        assert Before(a, k + 1) && a[k + 1] != b[k + 1];
      }
    }
  }

  lemma {:induction false} Shifted(a: seq<octet>, k: nat)
    requires k < |a| && a[0] != 0
    ensures Before(a[1..], k) <==> Before(a, k + 1)
  {
    if Before(a, k + 1) {
      assert forall j :: 0 <= j < k ==> a[1..][j] == a[j + 1];
    }
    if Before(a[1..], k) {
      assert forall j :: 1 <= j < k + 1 ==> a[j] == a[1..][j - 1];
    }
  }

  /** When `_citrus_db_open` accepts a region. */
  predicate Opens(r: seq<octet>, magic: seq<octet>)
    requires |magic| >= 8
  {
    && 16 <= |r|
    && StrnEqual(r[..16], magic, 8)
    && WordAt(r, 12) < |r|
    && Low32(WordAt(r, 8) * 24) <= |r| - WordAt(r, 12)
  }

  method Open(r: seq<octet>, magic: seq<octet>, hash: HashFunction) returns (db: Result<Db>)
    requires |magic| >= 8
    ensures db == if Opens(r, magic) then Ok(Db(r, hash)) else Err(EFTYPE)
  {
    var ms := new Memstream(r);
    var dhx := ms.GetRegion(16);
    if dhx == None {
      return Err(EFTYPE);
    }
    if !StrnEqual(dhx.value, magic, 8) {
      return Err(EFTYPE);
    }
    assert WordAt(dhx.value, 8) == WordAt(r, 8) && WordAt(dhx.value, 12) == WordAt(r, 12) by {
      assert dhx.value[8..12] == r[8..12];
      assert dhx.value[12..16] == r[12..16];
    }
    var ok := ms.Seek(WordAt(dhx.value, 12));
    if !ok {
      return Err(EFTYPE);
    }
    var remainder := ms.Remainder();
    if Low32(WordAt(dhx.value, 8) * 24) > remainder {
      return Err(EFTYPE);
    }
    return Ok(Db(r, hash));
  }

  /** What looking at the entry at an offset comes to: a verdict, or the offset to go on with. */
  datatype Step = Verdict(result: Result<seq<octet>>) | GoOn(offset: nat)

  predicate HasEntry(r: seq<octet>, offset: nat) {
    offset + 24 <= |r|
  }

  /** What the locator is set to when the entry at the offset has been read. */
  function Resume(r: seq<octet>, offset: nat): nat
    requires HasEntry(r, offset)
  {
    if WordAt(r, offset + 4) == 0 then |r| else WordAt(r, offset + 4)
  }

  /** The bytes at a stored offset, which must lie inside the region. */
  function RegionAt(r: seq<octet>, offset: nat, size: nat): Option<seq<octet>> {
    if offset < |r| && offset + size <= |r| then Some(r[offset..offset + size]) else None
  }

  /** The comparison with a key of the right size: None when the keys differ. */
  function MatchAt(r: seq<octet>, key: seq<octet>, keyofs: nat, dataofs: nat, datasize: nat): Option<Result<seq<octet>>> {
    match RegionAt(r, keyofs, |key|)
    case None => Some(Err(EFTYPE))
    case Some(k) =>
      if k != key then None
      else match RegionAt(r, dataofs, datasize)
        case None => Some(Err(EFTYPE))
        case Some(d) => Some(Ok(d))
  }

  /** One round of the lookup loop. */
  function LookAt(r: seq<octet>, key: seq<octet>, hashval: uint32, offset: nat): Step {
    if !HasEntry(r, offset) then Verdict(Err(EFTYPE))
    else
      var next := WordAt(r, offset + 4);
      var onward := if next == 0 then Verdict(Err(ENOENT)) else GoOn(next);
      if WordAt(r, offset) != hashval then Verdict(Err(ENOENT))
      else if WordAt(r, offset + 12) != |key| then onward
      else match MatchAt(r, key, WordAt(r, offset + 8), WordAt(r, offset + 16), WordAt(r, offset + 20))
        case None => onward
        case Some(v) => Verdict(v)
  }

  /** The loop that starts at the offset ends within the given number of rounds.  A malformed region
      can hold a chain that closes on itself, on which the loop would not end at all. */
  predicate Ends(r: seq<octet>, key: seq<octet>, hashval: uint32, offset: nat, rounds: nat)
    decreases rounds
  {
    rounds > 0 && (var s := LookAt(r, key, hashval, offset); s.Verdict? || Ends(r, key, hashval, s.offset, rounds - 1))
  }

  /** What the loop that starts at the offset returns. */
  function Walk(r: seq<octet>, key: seq<octet>, hashval: uint32, offset: nat, rounds: nat): Result<seq<octet>>
    decreases rounds
  {
    if rounds == 0 then Err(EFTYPE)
    else match LookAt(r, key, hashval, offset)
      case Verdict(v) => v
      case GoOn(next) => Walk(r, key, hashval, next, rounds - 1)
  }

  /** Where the locator is left by the loop that starts at the offset with the locator at `loc`. */
  function WalkLocator(r: seq<octet>, key: seq<octet>, hashval: uint32, offset: nat, rounds: nat, loc: nat): nat
    decreases rounds
  {
    var loc' := if HasEntry(r, offset) then Resume(r, offset) else loc;
    if rounds == 0 then loc
    else match LookAt(r, key, hashval, offset)
      case Verdict(_) => loc'
      case GoOn(next) => WalkLocator(r, key, hashval, next, rounds - 1, loc')
  }

  lemma {:induction false} LocatorStep(r: seq<octet>, key: seq<octet>, hashval: uint32, offset: nat, rounds: nat, loc: nat)
    requires rounds > 0 && HasEntry(r, offset)
    ensures WalkLocator(r, key, hashval, offset, rounds, loc) ==
      match LookAt(r, key, hashval, offset)
      case Verdict(_) => Resume(r, offset)
      case GoOn(next) => WalkLocator(r, key, hashval, next, rounds - 1, Resume(r, offset))
  {
  }

  /** The value of a locator. */
  datatype Place = Place(hashval: uint32, offset: nat)

  /** A file that is too short for a header or has no entries. */
  predicate Empty(db: Db) {
    |db.region| < 16 || WordAt(db.region, 8) == 0
  }

  /** Where a lookup of the key starts: at its home slot, or where the last one left off. */
  function Start(db: Db, key: seq<octet>, p: Place): Place
    requires !Empty(db)
  {
    if p.offset > 0 then p
    else
      var hashval := Residue(db.hash(key), WordAt(db.region, 8));
      Place(hashval, Low32(WordAt(db.region, 12) + hashval * 24))
  }

  /** Nothing is left for the locator. */
  predicate Exhausted(db: Db, p: Place) {
    p.offset > 0 && p.offset >= |db.region|
  }

  /** The lookup ends, and within the given number of rounds. */
  predicate LookupEnds(db: Db, key: seq<octet>, p: Place, rounds: nat) {
    !Empty(db) && !Exhausted(db, p) ==>
      var q := Start(db, key, p);
      Ends(db.region, key, q.hashval, q.offset, rounds)
  }

  function LookupResult(db: Db, key: seq<octet>, p: Place, rounds: nat): Result<seq<octet>> {
    if Empty(db) || Exhausted(db, p) then Err(ENOENT)
    else
      var q := Start(db, key, p);
      Walk(db.region, key, q.hashval, q.offset, rounds)
  }

  function LookupPlace(db: Db, key: seq<octet>, p: Place, rounds: nat): Place {
    if Empty(db) || Exhausted(db, p) then p
    else
      var q := Start(db, key, p);
      Place(q.hashval, WalkLocator(db.region, key, q.hashval, q.offset, rounds, p.offset))
  }

  function PlaceOf(dl: Locator?): Place
    reads dl
  {
    if dl == null then Place(0, 0) else Place(dl.hashval, dl.offset)
  }

  /** `_citrus_db_lookup`. */
  method Lookup(db: Db, key: seq<octet>, dl: Locator?, ghost rounds: nat) returns (data: Result<seq<octet>>)
    requires 16 <= |db.region| && LookupEnds(db, key, PlaceOf(dl), rounds)
    modifies dl
    ensures data == LookupResult(db, key, old(PlaceOf(dl)), rounds)
    ensures dl != null ==> PlaceOf(dl) == LookupPlace(db, key, old(PlaceOf(dl)), rounds)
  {
    var r := db.region;
    var ms := new Memstream(r);
    var dhx := ms.GetRegion(16);
    assert WordAt(dhx.value, 8) == WordAt(r, 8) && WordAt(dhx.value, 12) == WordAt(r, 12) by {
      assert dhx.value[8..12] == r[8..12];
      assert dhx.value[12..16] == r[12..16];
    }
    var numEntries := WordAt(dhx.value, 8);
    if numEntries == 0 {
      return Err(ENOENT);
    }
    var hashval, offset;
    if dl != null && dl.offset > 0 {
      hashval := dl.hashval;
      offset := dl.offset;
      if offset >= |r| {
        return Err(ENOENT);
      }
    } else {
      hashval := Residue(db.hash(key), numEntries);
      offset := Low32(WordAt(dhx.value, 12) + hashval * 24);
      if dl != null {
        dl.hashval := hashval;
      }
    }
    data := LookupFrom(ms, key, hashval, offset, dl, rounds);
  }

  /** Key and data of the entry in slot idx. */
  function EntryAt(r: seq<octet>, idx: int): Result<(seq<octet>, seq<octet>)>
    requires 16 <= |r|
  {
    if idx < 0 || idx >= WordAt(r, 8) then Err(EINVAL)
    else
      var o := Low32(WordAt(r, 12) + idx * 24);
      if !HasEntry(r, o) then Err(EFTYPE)
      else match RegionAt(r, WordAt(r, o + 8), WordAt(r, o + 12))
        case None => Err(EFTYPE)
        case Some(key) =>
          match RegionAt(r, WordAt(r, o + 16), WordAt(r, o + 20))
          case None => Err(EFTYPE)
          case Some(data) => Ok((key, data))
  }

  /** Seek to an offset and get the region there. */
  method Fetch(ms: Memstream, offset: nat, size: nat) returns (d: Option<seq<octet>>)
    modifies ms
    ensures d == RegionAt(ms.region, offset, size)
  {
    var ok := ms.Seek(offset);
    if !ok {
      return None;
    }
    d := ms.GetRegion(size);
  }

  /** `_citrus_db_get_entry`. */
  method GetEntry(db: Db, idx: int) returns (e: Result<(seq<octet>, seq<octet>)>)
    requires 16 <= |db.region|
    ensures e == EntryAt(db.region, idx)
  {
    var r := db.region;
    var ms := new Memstream(r);
    var dhx := ms.GetRegion(16);
    assert WordAt(dhx.value, 8) == WordAt(r, 8) && WordAt(dhx.value, 12) == WordAt(r, 12) by {
      assert dhx.value[8..12] == r[8..12];
      assert dhx.value[12..16] == r[12..16];
    }
    if idx < 0 || idx >= WordAt(dhx.value, 8) {
      return Err(EINVAL);
    }
    var offset := Low32(WordAt(dhx.value, 12) + idx * 24);
    var dex := Fetch(ms, offset, 24);
    if dex == None {
      return Err(EFTYPE);
    }
    SameWords(r, offset, dex.value);
    var key := Fetch(ms, WordAt(dex.value, 8), WordAt(dex.value, 12));
    if key == None {
      return Err(EFTYPE);
    }
    var data := Fetch(ms, WordAt(dex.value, 16), WordAt(dex.value, 20));
    if data == None {
      return Err(EFTYPE);
    }
    return Ok((key.value, data.value));
  }

  /** Compare the stored key and, if it is the one looked for, fetch its data. */
  method Match(ms: Memstream, key: seq<octet>, keyofs: nat, dataofs: nat, datasize: nat) returns (m: Option<Result<seq<octet>>>)
    modifies ms
    ensures m == MatchAt(ms.region, key, keyofs, dataofs, datasize)
  {
    var k := Fetch(ms, keyofs, |key|);
    if k == None {
      return Some(Err(EFTYPE));
    }
    if k.value == key {
      var d := Fetch(ms, dataofs, datasize);
      if d == None {
        return Some(Err(EFTYPE));
      }
      return Some(Ok(d.value));
    }
    return None;
  }

  /** The loop of `_citrus_db_lookup`. */
  method LookupFrom(ms: Memstream, key: seq<octet>, hashval: uint32, offset0: nat, dl: Locator?, ghost rounds0: nat)
    returns (data: Result<seq<octet>>)
    requires Ends(ms.region, key, hashval, offset0, rounds0)
    modifies ms, dl
    ensures data == Walk(ms.region, key, hashval, offset0, rounds0)
    ensures dl != null ==> dl.hashval == old(dl.hashval)
    ensures dl != null ==> dl.offset == WalkLocator(ms.region, key, hashval, offset0, rounds0, old(dl.offset))
  {
    var r := ms.region;
    var offset: nat := offset0;
    ghost var rounds := rounds0;
    while true
      invariant Ends(r, key, hashval, offset, rounds)
      invariant Walk(r, key, hashval, offset, rounds) == Walk(r, key, hashval, offset0, rounds0)
      invariant dl != null ==> dl.hashval == old(dl.hashval)
      invariant dl != null ==> WalkLocator(r, key, hashval, offset, rounds, dl.offset)
                               == WalkLocator(r, key, hashval, offset0, rounds0, old(dl.offset))
      decreases rounds
    {
      var ok := ms.Seek(offset);
      if !ok {
        return Err(EFTYPE);
      }
      var dex := ms.GetRegion(24);
      if dex == None {
        return Err(EFTYPE);
      }
      SameWords(r, offset, dex.value);
      offset := WordAt(dex.value, 4);
      if dl != null {
        dl.offset := offset;
        if offset == 0 {
          dl.offset := |r|;
        }
      }
      if WordAt(dex.value, 0) != hashval {
        return Err(ENOENT);
      }
      if WordAt(dex.value, 12) == |key| {
        var m := Match(ms, key, WordAt(dex.value, 8), WordAt(dex.value, 16), WordAt(dex.value, 20));
        if m.Some? {
          return m.value;
        }
      }
      if offset == 0 {
        return Err(ENOENT);
      }
      rounds := rounds - 1;
    }
  }

  lemma {:induction false} SameWords(r: seq<octet>, o: nat, e: seq<octet>)
    requires o + 24 <= |r| && e == r[o..o + 24]
    ensures WordAt(e, 0) == WordAt(r, o) && WordAt(e, 4) == WordAt(r, o + 4) && WordAt(e, 8) == WordAt(r, o + 8)
    ensures WordAt(e, 12) == WordAt(r, o + 12) && WordAt(e, 16) == WordAt(r, o + 16) && WordAt(e, 20) == WordAt(r, o + 20)
  {
    SubSlice(r, o, 24, 0, 4);
    SubSlice(r, o, 24, 4, 8);
    SubSlice(r, o, 24, 8, 12);
    SubSlice(r, o, 24, 12, 16);
    SubSlice(r, o, 24, 16, 20);
    SubSlice(r, o, 24, 20, 24);
  }
}
