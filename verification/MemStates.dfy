/** How the steps of the allocator change its pieces, lists and counts (isc/memcluster.c). */
module MemStates {
  import opened MemChunks
  import opened MemLists

  /** `struct stats` */
  datatype Stats = Stats(gets: nat, totalgets: nat, blocks: nat, freefrags: nat)

  /** Every size of fragments fits into a block; otherwise the one fragment that is made sticks out of its block. */
  predicate Roomy(z: Sizes) {
    z.maxSize > 0 && (z.maxSize - 1) / P_SIZE * P_SIZE <= z.memTarget
  }

  lemma {:induction false} FragmentFits(z: Sizes, size: nat)
    requires Roomy(z) && !z.Large(size) && size > 0
    ensures P_SIZE <= Quantize(size) <= z.memTarget && z.memTarget / Quantize(size) >= 1
    ensures z.memTarget / Quantize(size) * Quantize(size) <= z.memTarget
  {
    var c := Quantize(size);
    assert c == c / P_SIZE * P_SIZE && c <= z.maxSize - 1;
  }

  /** The settings leave room exactly when every fragment that can be asked for fits into a block. */
  lemma {:induction false} RoomyIff(z: Sizes)
    requires z.maxSize > 0
    ensures Roomy(z) <==> forall size: nat {:trigger z.Large(size)} :: !z.Large(size) ==> Quantize(size) <= z.memTarget
  {
    if Roomy(z) {
      forall size: nat {:trigger z.Large(size)} | !z.Large(size)
        ensures Quantize(size) <= z.memTarget
      {
        if size > 0 {
          FragmentFits(z, size);
        }
      }
    } else {
      var c := (z.maxSize - 1) / P_SIZE * P_SIZE;
      assert !z.Large(c) && Quantize(c) == c;
    }
  }

  /** Uses have lengths that can hold a pointer; allocations are not empty. */
  ghost predicate Wide(z: Sizes, m: Chunks) {
    forall a :: a in m ==>
      match m[a]
      case Basic => z.memTarget >= P_SIZE
      case Free(c) => P_SIZE <= c < z.maxSize
      case Live(size) => size > 0
  }

  /** All free pieces are on the lists of their kinds. */
  ghost predicate Filed(z: Sizes, m: Chunks, frees: seq<seq<int>>, basics: seq<int>) {
    && |frees| == z.maxSize && Listing(m, basics, Basic)
    && forall c :: 0 <= c < z.maxSize ==> Listing(m, frees[c], Free(c))
  }

  ghost predicate Chained(mem: map<int, int>, frees: seq<seq<int>>, basics: seq<int>) {
    Linked(mem, basics) && forall c :: 0 <= c < |frees| ==> Linked(mem, frees[c])
  }

  /** `gets` counts the allocations of each size, the last entry the large ones, and `freefrags` the free fragments. */
  ghost predicate Counted(z: Sizes, m: Chunks, stats: seq<Stats>, frees: seq<seq<int>>) {
    && |frees| == z.maxSize && |stats| == z.maxSize + 1
    && (forall k :: 0 <= k <= z.maxSize ==> stats[k].gets == |LiveAt(z, m, k)|)
    && forall c :: 0 <= c < z.maxSize ==> stats[c].freefrags == |frees[c]|
  }

  ghost predicate Headed(freelists: seq<int>, frees: seq<seq<int>>) {
    |freelists| == |frees| && forall c :: 0 <= c < |frees| ==> freelists[c] == Rest(frees[c], 0)
  }

  lemma {:induction false} NothingYet(z: Sizes, mem: map<int, int>, frees: seq<seq<int>>, freelists: seq<int>,
                                      stats: seq<Stats>)
    requires |frees| == |freelists| == z.maxSize && forall c :: 0 <= c < |frees| ==> frees[c] == [] && freelists[c] == 0
    requires |stats| == z.maxSize + 1 && forall k :: 0 <= k < |stats| ==> stats[k] == Stats(0, 0, 0, 0)
    ensures Sound(z, map[], {}) && Wide(z, map[]) && Filed(z, map[], frees, []) && Chained(mem, frees, [])
    ensures Counted(z, map[], stats, frees) && Headed(freelists, frees)
  {
  }

  /** More blocks do no harm. */
  lemma {:induction false} MoreBlocks(z: Sizes, m: Chunks, blocks: set<(int, nat)>, b: (int, nat))
    requires Sound(z, m, blocks)
    ensures Sound(z, m, blocks + {b})
  {
  }

  lemma {:induction false} Lengths(z: Sizes, m: Chunks, blocks: set<(int, nat)>)
    requires Sound(z, m, blocks)
    ensures forall a :: a in m ==> z.Len(m[a]) > 0
  {
  }

  lemma {:induction false} WideCarved(z: Sizes, m: Chunks, start: int, c: nat, n: nat, u: Use)
    requires Wide(z, m) && ((u == Basic && z.memTarget >= P_SIZE) || (u == Free(c) && P_SIZE <= c < z.maxSize))
    ensures Wide(z, Carved(m, start, c, n, u))
  {
    forall a | a in Carved(m, start, c, n, u)
      ensures match Carved(m, start, c, n, u)[a]
              case Basic => z.memTarget >= P_SIZE
              case Free(c) => P_SIZE <= c < z.maxSize
              case Live(size) => size > 0
    {
      CarvedIs(m, start, c, n, u, a);
    }
  }

  /** The lists after unused memory is cut into blocks. */
  lemma {:induction false} FiledBlocks(z: Sizes, m: Chunks, blocks: set<(int, nat)>, start: int, c: nat, n: nat,
                                       frees: seq<seq<int>>, basics: seq<int>)
    requires Sound(z, m, blocks) && Filed(z, m, frees, basics) && Unused(z, m, start, n * c) && c > 0
    ensures Filed(z, Carved(m, start, c, n, Basic), frees, Frags(start, c, n) + basics)
  {
    Lengths(z, m, blocks);
    hide Listing, Carved, Frags, Unused, Sound;
    ListingCarved(z, m, start, c, n, n * c, Basic, basics, Basic);
    forall d | 0 <= d < z.maxSize
      ensures Listing(Carved(m, start, c, n, Basic), frees[d], Free(d))
    {
      ListingCarved(z, m, start, c, n, n * c, Basic, frees[d], Free(d));
    }
  }

  /** The lists after a block is cut into fragments. */
  lemma {:induction false} FiledFragments(z: Sizes, m: Chunks, blocks: set<(int, nat)>, start: int, c: nat, n: nat,
                                          total: nat, frees: seq<seq<int>>, basics: seq<int>)
    requires Sound(z, m, blocks) && Filed(z, m, frees, basics) && Unused(z, m, start, total) && n * c <= total
    requires 0 < c < z.maxSize
    ensures Filed(z, Carved(m, start, c, n, Free(c)), frees[c := Frags(start, c, n) + frees[c]], basics)
  {
    Lengths(z, m, blocks);
    hide Listing, Carved, Frags, Unused, Sound;
    ListingCarved(z, m, start, c, n, total, Free(c), basics, Basic);
    forall d | 0 <= d < z.maxSize
      ensures Listing(Carved(m, start, c, n, Free(c)), if d == c then Frags(start, c, n) + frees[d] else frees[d], Free(d))
    {
      ListingCarved(z, m, start, c, n, total, Free(c), frees[d], Free(d));
    }
  }

  /** A list of pieces is not touched by stores elsewhere. */
  lemma {:induction false} LinkedApart(m: Chunks, l: seq<int>, u: Use, mem: map<int, int>, k: map<int, int>, f: seq<int>)
    requires Listing(m, l, u) && Linked(mem, l) && (forall a :: a in f ==> a !in m || m[a] != u)
    requires forall a :: a in mem && a !in f ==> a in k && k[a] == mem[a]
    ensures Linked(k, l)
  {
    forall i | 0 <= i < |l|
      ensures l[i] !in f && l[i] in k && k[l[i]] == mem[l[i]]
    {
      var a := l[i];
      assert a in l;
      assert a in m && m[a] == u;
    }
    LinkedSame(mem, k, l);
  }

  lemma {:induction false} ChainedApart(z: Sizes, m: Chunks, frees: seq<seq<int>>, basics: seq<int>, mem: map<int, int>,
                                        k: map<int, int>, f: seq<int>)
    requires Filed(z, m, frees, basics) && Chained(mem, frees, basics) && forall a :: a in f ==> a !in m
    requires forall a :: a in mem && a !in f ==> a in k && k[a] == mem[a]
    ensures Chained(k, frees, basics)
  {
    LinkedApart(m, basics, Basic, mem, k, f);
    forall c | 0 <= c < |frees|
      ensures Linked(k, frees[c])
    {
      LinkedApart(m, frees[c], Free(c), mem, k, f);
    }
  }

  /** New pieces that are no allocations do not count. */
  lemma {:induction false} CountedCarved(z: Sizes, m: Chunks, start: int, c: nat, n: nat, u: Use, stats: seq<Stats>,
                                         frees: seq<seq<int>>)
    requires Counted(z, m, stats, frees) && !u.Live? && forall a :: a in Frags(start, c, n) ==> a !in m
    ensures Counted(z, Carved(m, start, c, n, u), stats, frees)
    ensures Allocations(Carved(m, start, c, n, u)) == Allocations(m)
  {
    var k := Carved(m, start, c, n, u);
    forall a, s
      ensures a in m && m[a] == Live(s) <==> a in k && k[a] == Live(s)
    {
      CarvedIs(m, start, c, n, u, a);
    }
    hide Carved, Frags, LiveAt;
    Uncounted(z, m, k);
  }

  /** The first block is taken from the list of blocks. */
  lemma {:induction false} BlockTaken(z: Sizes, m: Chunks, frees: seq<seq<int>>, basics: seq<int>, stats: seq<Stats>)
    requires Filed(z, m, frees, basics) && Wide(z, m) && Counted(z, m, stats, frees) && basics != []
    ensures basics[0] in m && m[basics[0]] == Basic
    ensures Filed(z, m - {basics[0]}, frees, basics[1..]) && Wide(z, m - {basics[0]})
    ensures Counted(z, m - {basics[0]}, stats, frees) && Allocations(m - {basics[0]}) == Allocations(m)
  {
    var p := basics[0];
    assert p in basics;
    ListingFirst(m, basics, Basic);
    forall c | 0 <= c < z.maxSize
      ensures Listing(m - {p}, frees[c], Free(c))
    {
      assert p !in frees[c];
      ListingDropped(m, p, frees[c], Free(c));
    }
    Uncounted(z, m, m - {p});
  }

  /** The lists when the piece at p, on none of the others, gets another use. */
  lemma {:induction false} OthersFiled(z: Sizes, m: Chunks, p: int, u: Use, c: nat, l: seq<int>, frees: seq<seq<int>>,
                                       basics: seq<int>)
    requires Filed(z, m, frees, basics) && c < z.maxSize && u != Basic && (u.Free? ==> u.fragment == c)
    requires p in m ==> m[p] != Basic && (m[p].Free? ==> m[p].fragment == c)
    requires Listing(m[p := u], l, Free(c))
    ensures Filed(z, m[p := u], frees[c := l], basics)
  {
    ListingOther(m, p, u, basics, Basic);
    forall d | 0 <= d < z.maxSize && d != c
      ensures Listing(m[p := u], frees[d], Free(d))
    {
      ListingOther(m, p, u, frees[d], Free(d));
    }
  }

  /** A fragment is taken from its list for an allocation. */
  lemma {:induction false} Taken(z: Sizes, m: Chunks, blocks: set<(int, nat)>, frees: seq<seq<int>>, basics: seq<int>,
                                 mem: map<int, int>, c: nat, size: nat)
    requires Sound(z, m, blocks) && Wide(z, m) && Filed(z, m, frees, basics) && Chained(mem, frees, basics)
    requires c == Quantize(size) < z.maxSize && size > 0 && frees[c] != []
    ensures var p := frees[c][0];
            && p in m && m[p] == Free(c) && p > 0 && p in mem && mem[p] == Rest(frees[c][1..], 0)
            && Sound(z, m[p := Live(size)], blocks) && Wide(z, m[p := Live(size)])
            && Filed(z, m[p := Live(size)], frees[c := frees[c][1..]], basics)
            && Chained(mem, frees[c := frees[c][1..]], basics)
  {
    var p := frees[c][0];
    assert p in frees[c];
    LinkedTail(mem, frees[c]);
    ReuseSound(z, m, blocks, p, Live(size));
    ListingTail(m, frees[c], Free(c), Live(size));
    OthersFiled(z, m, p, Live(size), c, frees[c][1..], frees, basics);
    assert forall d :: 0 <= d < |frees| && d != c ==> Linked(mem, frees[d]);
  }

  /** An allocation is given back to the list of its fragments. */
  lemma {:induction false} Returned(z: Sizes, m: Chunks, blocks: set<(int, nat)>, frees: seq<seq<int>>, basics: seq<int>,
                                    mem: map<int, int>, c: nat, p: int)
    requires Sound(z, m, blocks) && Wide(z, m) && Filed(z, m, frees, basics) && Chained(mem, frees, basics)
    requires p in m && m[p].Live? && c == Quantize(m[p].size) < z.maxSize
    ensures var k := mem[p := Rest(frees[c], 0)];
            && Sound(z, Ended(m, p, c), blocks) && Wide(z, Ended(m, p, c))
            && Filed(z, Ended(m, p, c), frees[c := [p] + frees[c]], basics)
            && Chained(k, frees[c := [p] + frees[c]], basics)
  {
    var k := mem[p := Rest(frees[c], 0)];
    assert m[p].size > 0 && c > 0;
    ReuseSound(z, m, blocks, p, Free(c));
    assert p !in frees[c] && p !in basics;
    ListingCons(m, frees[c], Free(c), p);
    OthersFiled(z, m, p, Free(c), c, [p] + frees[c], frees, basics);
    LinkedApart(m, basics, Basic, mem, k, [p]);
    forall d | 0 <= d < |frees|
      ensures Linked(k, frees[d])
    {
      LinkedApart(m, frees[d], Free(d), mem, k, [p]);
    }
    LinkedCons(k, p, frees[c]);
  }

  /** A large allocation begins. */
  lemma {:induction false} LargeBegun(z: Sizes, m: Chunks, blocks: set<(int, nat)>, frees: seq<seq<int>>,
                                      basics: seq<int>, p: int, size: nat)
    requires Sound(z, m, blocks) && Wide(z, m) && Filed(z, m, frees, basics)
    requires Unused(z, m, p, size) && p > 0 && size > 0 && z.Large(size)
    ensures p !in m && Sound(z, m[p := Live(size)], blocks) && Wide(z, m[p := Live(size)])
    ensures Filed(z, m[p := Live(size)], frees, basics)
  {
    LargeSound(z, m, blocks, p, size);
    ListingOther(m, p, Live(size), basics, Basic);
    forall d | 0 <= d < z.maxSize
      ensures Listing(m[p := Live(size)], frees[d], Free(d))
    {
      ListingOther(m, p, Live(size), frees[d], Free(d));
    }
  }

  /** A large allocation ends. */
  lemma {:induction false} LargeEnded(z: Sizes, m: Chunks, blocks: set<(int, nat)>, frees: seq<seq<int>>,
                                      basics: seq<int>, p: int)
    requires Sound(z, m, blocks) && Wide(z, m) && Filed(z, m, frees, basics) && p in m && m[p].Live?
    ensures Sound(z, Ended(m, p, 0), blocks) && Wide(z, Ended(m, p, 0)) && Filed(z, Ended(m, p, 0), frees, basics)
  {
    DropSound(z, m, blocks, p);
    assert p !in basics;
    ListingDropped(m, p, basics, Basic);
    forall d | 0 <= d < z.maxSize
      ensures Listing(m - {p}, frees[d], Free(d))
    {
      assert p !in frees[d];
      ListingDropped(m, p, frees[d], Free(d));
    }
  }

  function Got(s: Stats): Stats {
    s.(gets := s.gets + 1, totalgets := s.totalgets + 1)
  }

  /** The counts when an allocation begins, from a list that loses one fragment if it is not large. */
  lemma {:induction false} CountedGet(z: Sizes, m: Chunks, stats: seq<Stats>, frees: seq<seq<int>>, after: seq<Stats>,
                                      left: seq<seq<int>>, p: int, size: nat)
    requires Counted(z, m, stats, frees) && (p in m ==> !m[p].Live?) && |after| == |stats| && |left| == |frees|
    requires Slot(z, size) <= z.maxSize
    requires forall k :: 0 <= k <= z.maxSize ==> after[k].gets == stats[k].gets + if k == Slot(z, size) then 1 else 0
    requires forall c :: 0 <= c < z.maxSize ==> after[c].freefrags - |left[c]| == stats[c].freefrags - |frees[c]|
    ensures Counted(z, m[p := Live(size)], after, left)
  {
    hide Slot, LiveAt;
    forall k | 0 <= k <= z.maxSize
      ensures after[k].gets == |LiveAt(z, m[p := Live(size)], k)|
    {
      AllocateAt(z, m, p, size, k);
    }
  }

  lemma {:induction false} CountedPut(z: Sizes, m: Chunks, stats: seq<Stats>, frees: seq<seq<int>>, after: seq<Stats>,
                                      left: seq<seq<int>>, p: int, fragment: nat)
    requires Counted(z, m, stats, frees) && p in m && m[p].Live? && |after| == |stats| && |left| == |frees|
    requires forall k :: 0 <= k <= z.maxSize ==>
               after[k].gets == stats[k].gets - if k == Slot(z, m[p].size) then 1 else 0
    requires forall c :: 0 <= c < z.maxSize ==> after[c].freefrags - |left[c]| == stats[c].freefrags - |frees[c]|
    ensures Counted(z, Ended(m, p, fragment), after, left)
  {
    hide Slot, LiveAt, Ended;
    forall k | 0 <= k <= z.maxSize
      ensures after[k].gets == |LiveAt(z, Ended(m, p, fragment), k)|
    {
      ReleaseAt(z, m, p, fragment, k);
    }
  }

  /** An allocation is counted. */
  lemma {:induction false} CountedOnce(z: Sizes, m: Chunks, stats: seq<Stats>, frees: seq<seq<int>>, p: int)
    requires Counted(z, m, stats, frees) && p in m && m[p].Live? && Slot(z, m[p].size) <= z.maxSize
    ensures stats[Slot(z, m[p].size)].gets > 0
  {
    assert p in LiveAt(z, m, Slot(z, m[p].size));
  }

  /** The bytes asked for in two allocations do not overlap, nor do they overlap a free piece. */
  lemma {:induction false} AllocationsApart(z: Sizes, m: Chunks, blocks: set<(int, nat)>, p: int, q: int)
    requires Sound(z, m, blocks) && p in Allocations(m) && q in m && p != q
    ensures m[q].Live? ==> p + Allocations(m)[p] <= q || q + Allocations(m)[q] <= p
    ensures !m[q].Live? ==> p + Allocations(m)[p] <= q || q + z.Len(m[q]) <= p
  {
    assert Apart(z, p, m[p], q, m[q]);
  }
}
