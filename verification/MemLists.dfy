/** The lists of free pieces, linked through the pieces themselves, and the counts of allocations (isc/memcluster.c). */
module MemLists {
  import opened Scan
  import opened MemChunks

  /** l holds the addresses of the pieces with use u, each once. */
  ghost predicate Listing(m: Chunks, l: seq<int>, u: Use) {
    Distinct(l) && forall a :: a in l <==> a in m && m[a] == u
  }

  /** The pointer to the rest of the list from position i on. */
  function Rest(l: seq<int>, i: nat): int {
    if i < |l| then l[i] else 0
  }

  /** Each piece of l holds the address of the next one, and the last a null pointer. */
  ghost predicate Linked(mem: map<int, int>, l: seq<int>) {
    forall i {:trigger mem[l[i]]} {:trigger l[i] in mem} :: 0 <= i < |l| ==> l[i] in mem && mem[l[i]] == Rest(l, i + 1)
  }

  lemma {:induction false} LinkedSame(mem: map<int, int>, k: map<int, int>, l: seq<int>)
    requires Linked(mem, l)
    requires forall i :: 0 <= i < |l| && l[i] in mem ==> l[i] in k && k[l[i]] == mem[l[i]]
    ensures Linked(k, l)
  {
  }

  lemma {:induction false} LinkedTail(mem: map<int, int>, l: seq<int>)
    requires Linked(mem, l) && l != []
    ensures Linked(mem, l[1..]) && l[0] in mem && mem[l[0]] == Rest(l[1..], 0)
  {
    forall i | 0 <= i < |l[1..]|
      ensures l[1..][i] in mem && mem[l[1..][i]] == Rest(l[1..], i + 1)
    {
      assert l[1..][i] == l[i + 1] && l[i + 1] in mem;
    }
    assert l[0] in mem;
  }

  lemma {:induction false} LinkedCons(mem: map<int, int>, p: int, l: seq<int>)
    requires Linked(mem, l) && p in mem && mem[p] == Rest(l, 0)
    ensures Linked(mem, [p] + l)
  {
    forall i | 0 <= i < |l| + 1
      ensures ([p] + l)[i] in mem && mem[([p] + l)[i]] == Rest([p] + l, i + 1)
    {
      if i > 0 {
        assert l[i - 1] in mem;
      }
    }
  }

  /** A change of the use of one piece moves it from one list to another. */
  lemma {:induction false} ListingOther(m: Chunks, p: int, u: Use, l: seq<int>, v: Use)
    requires Listing(m, l, v) && v != u && (p in m ==> m[p] != v)
    ensures Listing(m[p := u], l, v)
  {
  }

  lemma {:induction false} ListingTail(m: Chunks, l: seq<int>, u: Use, v: Use)
    requires Listing(m, l, u) && l != [] && v != u
    ensures Listing(m[l[0] := v], l[1..], u)
  {
    var k := l[1..];
    forall a
      ensures a in k <==> a in m[l[0] := v] && m[l[0] := v][a] == u
    {
      if a in l && a != l[0] {
        var i :| 0 <= i < |l| && l[i] == a;
        assert k[i - 1] == a;
      }
    }
  }

  lemma {:induction false} ListingFirst(m: Chunks, l: seq<int>, u: Use)
    requires Listing(m, l, u) && l != []
    ensures Listing(m - {l[0]}, l[1..], u)
  {
    var k := l[1..];
    forall a
      ensures a in k <==> a in m - {l[0]} && (m - {l[0]})[a] == u
    {
      if a in l && a != l[0] {
        var i :| 0 <= i < |l| && l[i] == a;
        assert k[i - 1] == a;
      }
    }
  }

  lemma {:induction false} ListingCons(m: Chunks, l: seq<int>, u: Use, p: int)
    requires Listing(m, l, u) && p !in l
    ensures Listing(m[p := u], [p] + l, u)
  {
    assert forall a :: a in [p] + l <==> a == p || a in l;
  }

  lemma {:induction false} ListingDropped(m: Chunks, p: int, l: seq<int>, u: Use)
    requires Listing(m, l, u) && p !in l
    ensures Listing(m - {p}, l, u)
  {
  }

  lemma {:induction false} FragsNew(z: Sizes, m: Chunks, start: int, c: nat, n: nat, total: nat)
    requires Unused(z, m, start, total) && n * c <= total && c > 0 && (forall a :: a in m ==> z.Len(m[a]) > 0)
    ensures forall a :: a in Frags(start, c, n) ==> a !in m
    ensures Distinct(Frags(start, c, n))
  {
    var f := Frags(start, c, n);
    forall a | a in f
      ensures a !in m
    {
      if a in m {
        FragUnused(z, m, start, c, n, total, a, a);
      }
    }
    forall i, j | 0 <= i < j < n
      ensures f[i] != f[j]
    {
      FragsApart(start, c, n, i, j);
    }
  }

  lemma {:induction false} DistinctJoined(k: seq<int>, l: seq<int>)
    requires Distinct(k) && Distinct(l) && forall a :: a in k ==> a !in l
    ensures Distinct(k + l)
  {
    forall i, j | 0 <= i < j < |k + l|
      ensures (k + l)[i] != (k + l)[j]
    {
      if i < |k| <= j {
        assert k[i] in k && l[j - |k|] in l;
      }
    }
  }

  /** Pieces cut from unused memory come on the list of their use and on no other. */
  lemma {:induction false} ListingCarved(z: Sizes, m: Chunks, start: int, c: nat, n: nat, total: nat, u: Use, l: seq<int>,
                                         v: Use)
    requires Unused(z, m, start, total) && n * c <= total && c > 0 && (forall a :: a in m ==> z.Len(m[a]) > 0)
    requires Listing(m, l, v)
    ensures Listing(Carved(m, start, c, n, u), if u == v then Frags(start, c, n) + l else l, v)
  {
    var k, f := Carved(m, start, c, n, u), Frags(start, c, n);
    FragsNew(z, m, start, c, n, total);
    hide Frags, Carved, Unused, Distinct;
    DistinctJoined(f, l);
    forall a
      ensures a in (if u == v then f + l else l) <==> a in k && k[a] == v
    {
      CarvedIs(m, start, c, n, u, a);
    }
  }

  /** The slot of `stats` for the allocations of a size. */
  function Slot(z: Sizes, size: nat): nat {
    if z.Large(size) then z.maxSize else size
  }

  /** The allocations that are counted in slot k. */
  ghost function LiveAt(z: Sizes, m: Chunks, k: nat): set<int> {
    set a | a in m && m[a].Live? && Slot(z, m[a].size) == k
  }

  /** The allocations and their sizes. */
  ghost function Allocations(m: Chunks): map<int, nat> {
    map a | a in m && m[a].Live? :: m[a].size
  }

  lemma {:induction false} AllocateAt(z: Sizes, m: Chunks, p: int, size: nat, k: nat)
    requires p in m ==> !m[p].Live?
    ensures |LiveAt(z, m[p := Live(size)], k)| == |LiveAt(z, m, k)| + if k == Slot(z, size) then 1 else 0
  {
    hide Slot;
    var n := m[p := Live(size)];
    if k == Slot(z, size) {
      assert LiveAt(z, n, k) == LiveAt(z, m, k) + {p};
    } else {
      assert LiveAt(z, n, k) == LiveAt(z, m, k);
    }
  }

  lemma {:induction false} Allocate(z: Sizes, m: Chunks, p: int, size: nat)
    requires p in m ==> !m[p].Live?
    ensures Allocations(m[p := Live(size)]) == Allocations(m)[p := size] && p !in Allocations(m)
  {
  }

  /** An allocation ends: its piece is freed or is given another use. */
  ghost function Ended(m: Chunks, p: int, fragment: nat): Chunks {
    if fragment == 0 then m - {p} else m[p := Free(fragment)]
  }

  lemma {:induction false} ReleaseSet(z: Sizes, m: Chunks, p: int, fragment: nat, i: nat)
    requires p in m && m[p].Live?
    ensures var k := LiveAt(z, Ended(m, p, fragment), i);
            p !in k && LiveAt(z, m, i) == if i == Slot(z, m[p].size) then k + {p} else k
  {
  }

  lemma {:induction false} ReleaseAt(z: Sizes, m: Chunks, p: int, fragment: nat, i: nat)
    requires p in m && m[p].Live?
    ensures |LiveAt(z, Ended(m, p, fragment), i)| == |LiveAt(z, m, i)| - if i == Slot(z, m[p].size) then 1 else 0
  {
    ReleaseSet(z, m, p, fragment, i);
    hide LiveAt, Slot, Ended;
  }

  lemma {:induction false} Release(m: Chunks, p: int, fragment: nat)
    requires p in m && m[p].Live?
    ensures Allocations(Ended(m, p, fragment)) == Allocations(m) - {p}
  {
  }

  /** Uses other than allocations do not count. */
  lemma {:induction false} Uncounted(z: Sizes, m: Chunks, k: Chunks)
    requires forall a, s :: a in m && m[a] == Live(s) <==> a in k && k[a] == Live(s)
    ensures Allocations(m) == Allocations(k) && forall i :: LiveAt(z, m, i) == LiveAt(z, k, i)
  {
    assert forall a :: a in m && m[a].Live? ==> a in k && k[a] == Live(m[a].size);
    assert forall a :: a in k && k[a].Live? ==> a in m && m[a] == Live(k[a].size);
  }
}
