/** The cache of shared converters (citrus/citrus_iconv.c). Every method runs under the lock of the cache. */
module CitrusIconv {
  import opened Options
  import opened Scan

  const CI_HASH_SIZE := 101

  const EINVAL := 22

  /** The front of x that a buffer with room for n characters takes (snprintf and strlcpy, without the NUL). */
  function Cut(x: string, n: nat): (r: string)
    ensures |r| <= n && |r| <= |x| && (|x| <= n ==> r == x)
  {
    if |x| <= n then x else x[..n]
  }

  /** The key under which `get_shared` looks for a converter, in a buffer of PATH_MAX characters. */
  function ConvName(src: string, dst: string, pathMax: nat): string
    requires pathMax > 0
  {
    Cut(src + "/" + dst, pathMax - 1)
  }

  /** A name as `_citrus_iconv_open` passes it on: it fits into a buffer and has no slash. */
  predicate IsName(x: string, pathMax: nat) {
    |x| < pathMax && '/' !in x
  }

  function UpToSlash(x: string): string {
    if x == "" || x[0] == '/' then "" else [x[0]] + UpToSlash(x[1..])
  }

  lemma {:induction false} UpToSlashIs(x: string, s: string)
    requires s <= x && '/' !in s && (|s| < |x| ==> x[|s|] == '/')
    ensures UpToSlash(x) == s
  {
    if s != "" {
      assert s[0] in s && s == [s[0]] + s[1..];
      UpToSlashIs(x[1..], s[1..]);
    }
  }

  /** The source is always to be read from the key. */
  lemma {:induction false} SourceOf(src: string, dst: string, pathMax: nat)
    requires IsName(src, pathMax)
    ensures UpToSlash(ConvName(src, dst, pathMax)) == src
  {
    var whole := src + "/" + dst;
    assert whole[|src|] == '/';
    UpToSlashIs(ConvName(src, dst, pathMax), src);
  }

  /** How much of the target is left in the key. */
  function Room(src: string, pathMax: nat): nat {
    if |src| + 2 <= pathMax then pathMax - 2 - |src| else 0
  }

  lemma {:induction false} ConvNameSplit(s: string, d: string, pathMax: nat)
    requires IsName(s, pathMax)
    ensures ConvName(s, d, pathMax) == Cut(s + "/", pathMax - 1) + Cut(d, Room(s, pathMax))
  {
  }

  /** Two pairs of names have one key exactly when the sources are the same and the targets differ, if they do,
      only in what is cut off. */
  lemma {:induction false} SameConvName(s: string, d: string, t: string, e: string, pathMax: nat)
    requires IsName(s, pathMax) && IsName(t, pathMax)
    ensures ConvName(s, d, pathMax) == ConvName(t, e, pathMax) <==>
              s == t && Cut(d, Room(s, pathMax)) == Cut(e, Room(s, pathMax))
  {
    SourceOf(s, d, pathMax);
    SourceOf(t, e, pathMax);
    ConvNameSplit(s, d, pathMax);
    ConvNameSplit(t, e, pathMax);
    var front := Cut(s + "/", pathMax - 1);
    if s == t && ConvName(s, d, pathMax) == ConvName(t, e, pathMax) {
      var key := ConvName(s, d, pathMax);
      assert key[|front|..] == Cut(d, Room(s, pathMax));
      assert key[|front|..] == Cut(e, Room(s, pathMax));
    }
  }

  lemma {:induction false} WholeName(s: string, d: string, e: string, pathMax: nat)
    requires |s| + |d| + 2 < pathMax && Cut(e, Room(s, pathMax)) == Cut(d, Room(s, pathMax))
    ensures e == d
  {
  }

  /** No other pair of names has the key of s and d. */
  ghost predicate ToldApart(s: string, d: string, pathMax: nat)
    requires pathMax > 0
  {
    forall t, e :: IsName(t, pathMax) && IsName(e, pathMax) && ConvName(t, e, pathMax) == ConvName(s, d, pathMax) ==>
      t == s && e == d
  }

  /** A pair is told apart from all others exactly when its key leaves a character of the buffer free. */
  lemma {:induction false} ToldApartIff(s: string, d: string, pathMax: nat)
    requires IsName(s, pathMax) && IsName(d, pathMax) && pathMax > 1
    ensures ToldApart(s, d, pathMax) <==> |s| + |d| + 2 < pathMax
  {
    if |s| + |d| + 2 < pathMax {
      forall t, e | IsName(t, pathMax) && ConvName(t, e, pathMax) == ConvName(s, d, pathMax)
        ensures t == s && e == d
      {
        SameConvName(t, e, s, d, pathMax);
      }
    } else {
      var e := Other(d, Room(s, pathMax), pathMax);
      SameConvName(s, e, s, d, pathMax);
    }
  }

  /** A name that differs from d behind the first n characters only. */
  lemma {:induction false} Other(d: string, n: nat, pathMax: nat) returns (e: string)
    requires IsName(d, pathMax) && n <= |d| && (|d| == n ==> n + 1 < pathMax)
    ensures IsName(e, pathMax) && e != d && Cut(e, n) == Cut(d, n)
  {
    if |d| == n {
      e := d + "x";
    } else {
      var last := if d[|d| - 1] == 'x' then 'y' else 'x';
      e := d[..|d| - 1] + [last];
      assert e[|d| - 1] != d[|d| - 1];
    }
  }

  /** `struct _citrus_iconv_shared`; the names are those of the encodings for which it was opened. */
  class Shared {
    const name: string  // ci_convname
    const src: string
    const dst: string
    var usedCount: int

    constructor (name: string, src: string, dst: string)
      ensures this.name == name && this.src == src && this.dst == dst && usedCount == 0
    {
      this.name, this.src, this.dst, usedCount := name, src, dst, 0;
    }
  }

  /** The entries are found under the keys of the names for which they were opened. */
  ghost predicate Keyed(pool: set<Shared>, pathMax: nat)
    requires pathMax > 0
  {
    forall e: Shared :: e in pool ==>
      IsName(e.src, pathMax) && IsName(e.dst, pathMax) && e.name == ConvName(e.src, e.dst, pathMax)
  }

  /** s without e. */
  function Removed(s: seq<Shared>, e: Shared): seq<Shared> {
    if s == [] then [] else if s[0] == e then s[1..] else [s[0]] + Removed(s[1..], e)
  }

  lemma {:induction false} RemovedIs(s: seq<Shared>, e: Shared)
    requires Distinct(s)
    ensures Distinct(Removed(s, e)) && |Removed(s, e)| == |s| - if e in s then 1 else 0
    ensures forall x: Shared :: x in Removed(s, e) <==> x in s && x != e
  {
    if s != [] {
      var rest := s[1..];
      assert forall j :: 0 <= j < |rest| ==> rest[j] == s[j + 1];
      assert s == [s[0]] + rest && s[0] !in rest;
      RemovedIs(rest, e);
      if s[0] != e {
        var r := Removed(rest, e);
        forall j | 0 <= j < |r|
          ensures r[j] != s[0]
        {
          assert r[j] in r;
        }
      }
    }
  }

  /** The hash table holds the entries of the pool, each once and in the bucket of its name. */
  ghost predicate Hashed(table: seq<seq<Shared>>, pool: set<Shared>, hash: string -> nat) {
    && (forall b: nat :: b < |table| ==> Distinct(table[b]))
    && (forall b: nat, e: Shared :: b < |table| && e in table[b] ==> e in pool && hash(e.name) == b)
    && (forall e: Shared :: e in pool ==> hash(e.name) < |table| && e in table[hash(e.name)])
  }

  /** No two entries have one name. */
  ghost predicate Named(pool: set<Shared>) {
    forall e: Shared, f: Shared :: e in pool && f in pool && e.name == f.name ==> e == f
  }

  /** `ci_used_count` counts the handles. */
  ghost predicate Counted(pool: set<Shared>, handles: multiset<Shared>)
    reads pool`usedCount
  {
    forall e: Shared :: e in pool ==> e.usedCount == handles[e]
  }

  /** Handles are for open entries, and the entries without handles are on the list, each once. */
  ghost predicate Listed(pool: set<Shared>, unused: seq<Shared>, handles: multiset<Shared>) {
    && Distinct(unused) && (forall e: Shared :: e in handles ==> e in pool)
    && (forall e: Shared :: e in unused ==> e in pool && handles[e] == 0)
    && (forall e: Shared :: e in pool && handles[e] == 0 ==> e in unused)
  }

  lemma {:induction false} ListedReused(pool: set<Shared>, unused: seq<Shared>, handles: multiset<Shared>, ci: Shared)
    requires Listed(pool, unused, handles) && ci in pool
    ensures Listed(pool, Removed(unused, ci), handles + multiset{ci})
    ensures |Removed(unused, ci)| == |unused| - if handles[ci] == 0 then 1 else 0
  {
    RemovedIs(unused, ci);
    var left, more := Removed(unused, ci), handles + multiset{ci};
    assert Distinct(left);
    assert forall e: Shared :: e in more ==> e in pool;
    assert forall e: Shared :: e in left ==> e in pool && more[e] == 0;
    assert forall e: Shared :: e in pool && more[e] == 0 ==> e in left;
  }

  lemma {:induction false} RemovedNone(s: seq<Shared>, e: Shared)
    requires e !in s
    ensures Removed(s, e) == s
  {
    if s != [] {
      assert s == [s[0]] + s[1..] && s[0] in s && e !in s[1..];
      RemovedNone(s[1..], e);
    }
  }

  lemma {:induction false} ListedNew(pool: set<Shared>, unused: seq<Shared>, handles: multiset<Shared>, ci: Shared)
    requires Listed(pool, unused, handles) && ci !in pool
    ensures Listed(pool + {ci}, unused, handles + multiset{ci}) && handles[ci] == 0 && Removed(unused, ci) == unused
  {
    RemovedNone(unused, ci);
  }

  lemma {:induction false} HashedNew(table: seq<seq<Shared>>, pool: set<Shared>, hash: string -> nat, ci: Shared)
    requires Hashed(table, pool, hash) && ci !in pool && hash(ci.name) < |table|
    ensures Hashed(table[hash(ci.name) := [ci] + table[hash(ci.name)]], pool + {ci}, hash)
  {
    var b := hash(ci.name);
    var bucket := [ci] + table[b];
    assert ci !in table[b];
    forall i, j | 0 <= i < j < |bucket|
      ensures bucket[i] != bucket[j]
    {
      assert bucket[j] in table[b];
    }
  }

  lemma {:induction false} StillThere(s: seq<Shared>, e: Shared, x: Shared)
    requires Distinct(s) && x in Removed(s, e)
    ensures x in s && x != e
  {
    RemovedIs(s, e);
  }

  lemma {:induction false} HashedRemoved(table: seq<seq<Shared>>, pool: set<Shared>, hash: string -> nat, ci: Shared)
    requires Hashed(table, pool, hash) && ci in pool
    ensures Hashed(table[hash(ci.name) := Removed(table[hash(ci.name)], ci)], pool - {ci}, hash)
  {
    var b := hash(ci.name);
    RemovedIs(table[b], ci);
    var t := table[b := Removed(table[b], ci)];
    assert forall k :: 0 <= k < |t| ==> Distinct(t[k]);
    forall k: nat, e: Shared | 0 <= k < |t| && e in t[k]
      ensures e in pool - {ci} && hash(e.name) == k
    {
      if k == b {
        StillThere(table[b], ci, e);
      } else {
        assert e in table[k];
        assert hash(e.name) == k != hash(ci.name);
      }
    }
    assert forall e: Shared :: e in pool - {ci} ==> hash(e.name) < |t| && e in t[hash(e.name)];
  }

  /** The cache: `shared_pool`, `shared_unused`, `shared_num_unused` and `shared_max_reuse`. */
  class Cache {
    const hash: string -> nat
    const maxReuse: int
    const pathMax: nat
    const pool: array<seq<Shared>>
    var unused: seq<Shared>
    var numUnused: int

    /** The entries that are open, and the handles that have been given out. */
    ghost var entries: set<Shared>
    ghost var handles: multiset<Shared>

    ghost predicate Kept()
      reads this, pool, entries`usedCount
    {
      && pool.Length == CI_HASH_SIZE && (forall x :: hash(x) < CI_HASH_SIZE) && maxReuse >= 0
      && pathMax > 1 && Keyed(entries, pathMax)
      && Hashed(pool[..], entries, hash) && Named(entries) && Counted(entries, handles)
      && Listed(entries, unused, handles) && numUnused == |unused|
    }

    ghost predicate Valid()
      reads this, pool, entries`usedCount
    {
      Kept() && numUnused <= maxReuse
    }

    /** `init_cache` */
    constructor (hash: string -> nat, maxReuse: int, pathMax: nat)
      requires (forall x :: hash(x) < CI_HASH_SIZE) && maxReuse >= 0 && pathMax > 1
      ensures Valid() && this.pathMax == pathMax && entries == {} && handles == multiset{} && unused == []
      ensures fresh(pool)
    {
      this.hash, this.maxReuse, this.pathMax := hash, maxReuse, pathMax;
      pool := new seq<Shared>[CI_HASH_SIZE](_ => []);
      unused, numUnused, entries, handles := [], 0, {}, multiset{};
    }

    /** The search in the pool. */
    method Search(name: string) returns (ci: Shared?)
      requires Kept()
      ensures ci != null ==> ci in entries && ci.name == name
      ensures ci == null ==> forall e: Shared :: e in entries ==> e.name != name
    {
      var bucket := pool[hash(name)];
      assert bucket == pool[..][hash(name)];
      var i := 0;
      while i < |bucket|
        invariant 0 <= i <= |bucket| && forall k :: 0 <= k < i ==> bucket[k].name != name
      {
        if bucket[i].name == name {
          return bucket[i];
        }
        i := i + 1;
      }
      return null;
    }

    /** `get_shared`; the result of opening a converter comes from outside: an error number, or none. */
    method GetShared(src: string, dst: string, failure: Option<int>) returns (ret: int, ci: Shared?)
      requires Valid() && IsName(src, pathMax) && IsName(dst, pathMax) && (failure.Some? ==> failure.value != 0)
      modifies pool, `unused, `numUnused, `entries, `handles, entries`usedCount
      ensures Valid()
      ensures old(Known(ConvName(src, dst, pathMax))) ==> ret == 0 && ci in old(entries) && entries == old(entries)
      ensures !old(Known(ConvName(src, dst, pathMax))) ==>
                if failure.Some? then ret == failure.value && ci == null && entries == old(entries)
                else ret == 0 && ci != null && fresh(ci) && entries == old(entries) + {ci} && ci.src == src && ci.dst == dst
      ensures ci != null ==> handles == old(handles) + multiset{ci} && unused == Removed(old(unused), ci)
      ensures ci != null ==> ci.name == ConvName(src, dst, pathMax)
      ensures ci != null ==> ci.src == src && Cut(ci.dst, Room(src, pathMax)) == Cut(dst, Room(src, pathMax))
      ensures ci == null ==> handles == old(handles) && unused == old(unused) && ret != 0
    {
      var name := ConvName(src, dst, pathMax);
      hide Hashed, Named, Counted, Listed, Removed;
      ci := Search(name);
      ret := 0;
      if ci != null {
        SameConvName(ci.src, ci.dst, src, dst, pathMax);
        Reuse(ci);
      } else if failure.Some? {
        ret := failure.value;
      } else {
        ci := Enter(name, src, dst);
      }
    }

    /** What fits into PATH_MAX characters of one of the names has a slash. */
    predicate Refused(src: string, dst: string)
      requires pathMax > 0
    {
      '/' in Cut(src, pathMax - 1) || '/' in Cut(dst, pathMax - 1)
    }

    /** The key for what fits. */
    function KeyOf(src: string, dst: string): string
      requires pathMax > 0
    {
      ConvName(Cut(src, pathMax - 1), Cut(dst, pathMax - 1), pathMax)
    }

    ghost predicate Known(name: string)
      reads `entries
    {
      exists e: Shared :: e in entries && e.name == name
    }

    /** The list of unused entries, when e comes to its end: what does not fit goes from the front. */
    ghost function Overflow(queue: seq<Shared>): (k: nat)
      ensures k <= |queue|
    {
      if 0 <= maxReuse < |queue| then |queue| - maxReuse else 0
    }

    /** The entries of the queue that are too many have been closed, the oldest first. */
    ghost predicate Flooded(queue: seq<Shared>, all: set<Shared>)
      reads `unused, `entries
    {
      var k := Overflow(queue);
      unused == queue[k..] && entries == all - set x | x in queue[..k]
    }

    /** What giving back a new handle for e leaves of the queue and the pool as they were before. */
    ghost predicate GivenBack(queue: seq<Shared>, all: set<Shared>, e: Shared, inUse: bool)
      reads `unused, `entries
    {
      if inUse then unused == Removed(queue, e) && entries == all + {e}
      else Flooded(Removed(queue, e) + [e], all + {e})
    }

    /** `_citrus_iconv_open`, from the names that the aliases stand for on. A handle whose context cannot be set up is
        given back. The last result is the entry that a handle was obtained for. */
    method Open(src: string, dst: string, failure: Option<int>, contextFailure: Option<int>)
      returns (ret: int, ci: Shared?, ghost e: Shared?)
      requires Valid() && pathMax > 1 && (failure.Some? ==> failure.value != 0) && (contextFailure.Some? ==> contextFailure.value != 0)
      modifies pool, `unused, `numUnused, `entries, `handles, entries`usedCount
      ensures Valid() && (ci == null <==> ret != 0)
      ensures handles == old(handles) + if ci != null then multiset{ci} else multiset{}
      ensures Refused(src, dst) ==> ret == EINVAL && e == null && unused == old(unused) && entries == old(entries)
      ensures !Refused(src, dst) && !old(Known(KeyOf(src, dst))) && failure.Some? ==>
                ret == failure.value && e == null && unused == old(unused) && entries == old(entries)
      ensures !Refused(src, dst) && (old(Known(KeyOf(src, dst))) || failure.None?) ==>
                && e != null && e.name == KeyOf(src, dst)
                && (if old(Known(KeyOf(src, dst))) then e in old(entries) else fresh(e))
                && (|src| + |dst| + 2 < pathMax ==> e.src == src && e.dst == dst)
      ensures e != null && contextFailure.None? ==>
                ret == 0 && ci == e && entries == old(entries) + {e} && unused == Removed(old(unused), e)
      ensures e != null && contextFailure.Some? ==>
                ret == contextFailure.value && GivenBack(old(unused), old(entries), e, e in old(handles))
    {
      hide Kept, Valid, Removed, KeyOf, Known, Refused, Flooded;
      e, ci := null, null;
      if Refused(src, dst) {
        return EINVAL, null, null;
      }
      ret, ci := Obtain(src, dst, failure);
      e := ci;
      if ret == 0 && contextFailure.Some? {
        ret := contextFailure.value;
        ReleaseShared(ci);
        ci := null;
      }
    }

    /** The call of `get_shared` with what fits of the names. */
    method Obtain(src: string, dst: string, failure: Option<int>) returns (ret: int, ci: Shared?)
      requires Valid() && pathMax > 1 && !Refused(src, dst) && (failure.Some? ==> failure.value != 0)
      modifies pool, `unused, `numUnused, `entries, `handles, entries`usedCount
      ensures Valid() && (ci == null <==> ret != 0)
      ensures ci == null <==> !old(Known(KeyOf(src, dst))) && failure.Some?
      ensures ci == null ==> ret == failure.value && unused == old(unused) && entries == old(entries) && handles == old(handles)
      ensures ci != null ==>
                && ci.name == KeyOf(src, dst) && (if old(Known(KeyOf(src, dst))) then ci in old(entries) else fresh(ci))
                && (|src| + |dst| + 2 < pathMax ==> ci.src == src && ci.dst == dst)
                && handles == old(handles) + multiset{ci} && entries == old(entries) + {ci} && unused == Removed(old(unused), ci)
    {
      FitNames(src, dst);
      hide Kept, Valid, Removed, Known, IsName, Room, ConvName, Cut;
      ret, ci := GetShared(Cut(src, pathMax - 1), Cut(dst, pathMax - 1), failure);
      if |src| + |dst| + 2 < pathMax && ci != null {
        WholeName(src, dst, ci.dst, pathMax);
      }
    }

    lemma {:induction false} FitNames(src: string, dst: string)
      requires pathMax > 1 && !Refused(src, dst)
      ensures IsName(Cut(src, pathMax - 1), pathMax) && IsName(Cut(dst, pathMax - 1), pathMax)
      ensures |src| + |dst| + 2 < pathMax ==> Cut(src, pathMax - 1) == src && Cut(dst, pathMax - 1) == dst
    {
    }

    /** A converter that is found is no longer unused. */
    method Reuse(ci: Shared)
      requires Valid() && ci in entries
      modifies `unused, `numUnused, `handles, ci`usedCount
      ensures Valid() && handles == old(handles) + multiset{ci} && unused == Removed(old(unused), ci)
    {
      hide Hashed, Named, Listed, Removed;
      ListedReused(entries, unused, handles, ci);
      ghost var before := handles;
      if ci.usedCount == 0 {
        unused, numUnused := Removed(unused, ci), numUnused - 1;
      } else {
        InUse(entries, unused, handles, ci);
      }
      ci.usedCount := ci.usedCount + 1;
      handles := handles + multiset{ci};
    }

    /** A new converter comes into the pool. */
    method Enter(name: string, src: string, dst: string) returns (ci: Shared)
      requires IsName(src, pathMax) && IsName(dst, pathMax) && name == ConvName(src, dst, pathMax)
      requires Valid() && forall e: Shared :: e in entries ==> e.name != name
      modifies pool, `entries, `handles
      ensures Valid() && fresh(ci) && ci.name == name && ci.src == src && ci.dst == dst
      ensures entries == old(entries) + {ci}
      ensures handles == old(handles) + multiset{ci} && unused == Removed(old(unused), ci)
    {
      hide Hashed, Listed, Removed, Keyed, IsName, ConvName;
      ci := new Shared(name, src, dst);
      HashedNew(pool[..], entries, hash, ci);
      ListedNew(entries, unused, handles, ci);
      KeyedNew(entries, pathMax, ci);
      ghost var table := pool[..];
      pool[hash(name)] := [ci] + pool[hash(name)];
      ci.usedCount := 1;
      assert pool[..] == table[hash(name) := [ci] + table[hash(name)]];
      entries, handles := entries + {ci}, handles + multiset{ci};
    }

    /** The list entry that has been unused for the longest time is closed. */
    method Evict()
      requires Kept() && unused != []
      modifies pool, `unused, `numUnused, `entries
      ensures Kept() && unused == old(unused)[1..] && numUnused == old(numUnused) - 1
      ensures old(unused)[0] in old(entries) && entries == old(entries) - {old(unused)[0]} && old(unused)[0] !in handles
    {
      hide Hashed, Removed, Named;
      var ci := unused[0];
      Unlisted(entries, unused, handles);
      HashedRemoved(pool[..], entries, hash, ci);
      NamedLess(entries, ci);
      hide Listed;
      ghost var table := pool[..];
      pool[hash(ci.name)] := Removed(pool[hash(ci.name)], ci);
      assert pool[..] == table[hash(ci.name) := Removed(table[hash(ci.name)], ci)];
      unused, numUnused, entries := unused[1..], numUnused - 1, entries - {ci};
    }

    /** `release_shared`, of a handle that has been given out. An entry that nobody uses any more goes to the end of
        the list, and what does not fit is closed from the front. */
    method ReleaseShared(ci: Shared)
      requires Valid() && ci in handles
      modifies pool, `unused, `numUnused, `entries, `handles, ci`usedCount
      ensures Valid() && handles == old(handles) - multiset{ci}
      ensures ci in handles ==> unused == old(unused) && entries == old(entries)
      ensures ci !in handles ==> Flooded(old(unused) + [ci], old(entries))
    {
      hide Kept;
      var grown := GiveBack(ci);
      if grown {
        Flood();
      }
    }

    /** The handle is given back, and an entry without handles goes to the end of the list. */
    method GiveBack(ci: Shared) returns (grown: bool)
      requires Valid() && ci in handles
      modifies `unused, `numUnused, `handles, ci`usedCount
      ensures Kept() && handles == old(handles) - multiset{ci} && grown == (ci !in handles)
      ensures unused == if grown then old(unused) + [ci] else old(unused)
      ensures !grown ==> Valid()
    {
      hide Hashed, Named, Listed;
      ListedReleased(entries, unused, handles, ci);
      LessUsed(ci);
      handles := handles - multiset{ci};
      grown := ci.usedCount == 0;
      if grown {
        unused, numUnused := unused + [ci], numUnused + 1;
      }
    }

    method LessUsed(ci: Shared)
      requires Counted(entries, handles) && ci in entries && ci in handles
      modifies ci`usedCount
      ensures Counted(entries, handles - multiset{ci}) && ci.usedCount == (handles - multiset{ci})[ci]
    {
      ci.usedCount := ci.usedCount - 1;
    }

    /** The loop of `release_shared` that closes what does not fit. */
    method Flood()
      requires Kept()
      modifies pool, `unused, `numUnused, `entries
      ensures Valid()
      ensures Flooded(old(unused), old(entries))
    {
      hide Hashed, Named, Listed, Counted;
      ghost var queue, k := unused, 0;
      ghost var all := entries;
      while numUnused > maxReuse
        invariant Kept() && k <= |queue| && unused == queue[k..]
        invariant k == 0 || numUnused >= maxReuse
        invariant entries == all - (set e | e in queue[..k])
        decreases numUnused
      {
        assert queue[..k + 1] == queue[..k] + [queue[k]];
        Evict();
        k := k + 1;
      }
    }
  }

  lemma {:induction false} KeyedNew(pool: set<Shared>, pathMax: nat, ci: Shared)
    requires pathMax > 0 && Keyed(pool, pathMax) && IsName(ci.src, pathMax) && IsName(ci.dst, pathMax)
    requires ci.name == ConvName(ci.src, ci.dst, pathMax)
    ensures Keyed(pool + {ci}, pathMax)
  {
  }

  lemma {:induction false} NamedLess(pool: set<Shared>, ci: Shared)
    requires Named(pool)
    ensures Named(pool - {ci})
  {
  }

  /** The first entry of the list has no handles; without it the others are still listed. */
  lemma {:induction false} Unlisted(pool: set<Shared>, unused: seq<Shared>, handles: multiset<Shared>)
    requires Listed(pool, unused, handles) && unused != []
    ensures unused[0] in pool && handles[unused[0]] == 0 && Listed(pool - {unused[0]}, unused[1..], handles)
  {
    assert unused[0] in unused;
    assert unused == [unused[0]] + unused[1..];
    assert forall j :: 0 <= j < |unused| - 1 ==> unused[1..][j] == unused[j + 1] != unused[0];
  }

  /** A handle is given back. */
  lemma {:induction false} ListedReleased(pool: set<Shared>, unused: seq<Shared>, handles: multiset<Shared>, ci: Shared)
    requires Listed(pool, unused, handles) && ci in handles
    ensures ci in pool && ci !in unused
    ensures Listed(pool, if handles[ci] == 1 then unused + [ci] else unused, handles - multiset{ci})
  {
    var more := unused + [ci];
    assert forall e: Shared :: e in more <==> e in unused || e == ci;
  }

  lemma {:induction false} InUse(pool: set<Shared>, unused: seq<Shared>, handles: multiset<Shared>, ci: Shared)
    requires Listed(pool, unused, handles) && handles[ci] != 0
    ensures Removed(unused, ci) == unused
  {
    RemovedNone(unused, ci);
  }
}
