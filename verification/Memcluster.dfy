/** The allocator of small blocks (isc/memcluster.c), without its debugging options and with MEMCLUSTER_BIG_MALLOC. */
module Memcluster {
  import opened MemChunks
  import opened MemLists
  import opened MemStates

  const DEF_MAX_SIZE := 1100
  const DEF_MEM_TARGET := 4096
  const NUM_BASIC_BLOCKS := 64

  /** The pieces after the first i of those cut from start on are not linked yet. */
  ghost predicate LinkedUpTo(was: map<int, int>, mem: map<int, int>, start: int, c: nat, n: nat, i: nat) {
    && (forall a :: a in was && a !in Frags(start, c, n) ==> a in mem && mem[a] == was[a])
    && forall j {:trigger start + j * c} :: 0 <= j < i ==> start + j * c in mem && mem[start + j * c] == start + j * c + c
  }

  /** The static data of the allocator, and the words of memory that it uses for its lists. */
  class Allocator {
    var maxSize: nat
    var memTarget: nat
    var freelists: array?<int>
    var basicBlocks: int
    var stats: array?<Stats>
    var mem: map<int, int>

    ghost var chunks: Chunks
    ghost var blocks: set<(int, nat)>
    ghost var frees: seq<seq<int>>
    ghost var basics: seq<int>

    ghost function Z(): Sizes
      reads `maxSize, `memTarget
    {
      Sizes(maxSize, memTarget)
    }

    ghost predicate Ready()
      reads this, freelists, stats
    {
      && freelists != null && stats != null
      && Roomy(Z()) && Sound(Z(), chunks, blocks) && Wide(Z(), chunks)
      && Filed(Z(), chunks, frees, basics) && Chained(mem, frees, basics)
      && Counted(Z(), chunks, stats[..], frees)
      && Headed(freelists[..], frees) && basicBlocks == Rest(basics, 0)
    }

    ghost predicate Valid()
      reads this, freelists, stats
    {
      if freelists == null then stats == null && chunks == map[] else Ready()
    }

    /** The static data at the start of the program. */
    constructor ()
      ensures Valid() && freelists == null && chunks == map[]
    {
      maxSize, memTarget, freelists, basicBlocks, stats, mem := 0, 0, null, 0, null, map[];
      chunks, blocks, frees, basics := map[], {}, [], [];
    }

    /** `meminit`, with allocations that succeed. */
    method MemInit(initMaxSize: nat, targetSize: nat) returns (ok: bool)
      requires Valid()
      requires freelists == null ==> Roomy(Sizes(if initMaxSize == 0 then DEF_MAX_SIZE else initMaxSize,
                                                 if targetSize == 0 then DEF_MEM_TARGET else targetSize))
      modifies this
      ensures ok == (old(freelists) == null)
      ensures ok ==> Ready() && chunks == map[] && mem == old(mem) && fresh(freelists) && fresh(stats)
      ensures ok ==> maxSize == (if initMaxSize == 0 then DEF_MAX_SIZE else initMaxSize)
      ensures ok ==> memTarget == if targetSize == 0 then DEF_MEM_TARGET else targetSize
      ensures !ok ==> Valid() && chunks == old(chunks) && mem == old(mem)
    {
      hide Sound, Wide, Filed, Chained, Counted, Headed;
      if freelists != null {
        return false;
      }
      maxSize := if initMaxSize == 0 then DEF_MAX_SIZE else initMaxSize;
      memTarget := if targetSize == 0 then DEF_MEM_TARGET else targetSize;
      freelists := new int[maxSize](_ => 0);
      stats := new Stats[maxSize + 1](_ => Stats(0, 0, 0, 0));
      basicBlocks := 0;
      blocks, frees, basics := {}, seq(maxSize, _ => []), [];
      NothingYet(Z(), mem, frees, freelists[..], stats[..]);
      return true;
    }

    /** The loops that cut a block: n pieces of c bytes are linked, and the last one to the list given. */
    method Link(start: int, c: nat, n: nat, tail: int, ghost l: seq<int>)
      requires n >= 1 && c > 0 && Linked(mem, l) && tail == Rest(l, 0) && (forall a :: a in Frags(start, c, n) ==> a !in l)
      modifies `mem
      ensures Linked(mem, Frags(start, c, n) + l)
      ensures forall a :: a in old(mem) && a !in Frags(start, c, n) ==> a in mem && mem[a] == old(mem)[a]
    {
      hide Linked, LinkedUpTo, Frags, Rest;
      LinkStart(mem, start, c, n);
      var curr := start;
      var next := curr + c;
      var i := 0;
      while i < n - 1
        invariant 0 <= i <= n - 1 && curr == start + i * c && next == curr + c
        invariant LinkedUpTo(old(mem), mem, start, c, n, i)
      {
        LinkStep(old(mem), mem, start, c, n, i, next);
        mem := mem[curr := next];
        curr := next;
        next := next + c;
        i := i + 1;
      }
      LinkEnd(old(mem), mem, start, c, n, l, tail);
      mem := mem[curr := tail];
    }

    /** New basic blocks, from memory at a that malloc has found to be unused. */
    method Grow(a: int)
      requires Ready() && basics == [] && memTarget >= P_SIZE
      requires a > 0 && Unused(Z(), chunks, a, NUM_BASIC_BLOCKS * memTarget)
      modifies `basicBlocks, `mem, `chunks, `blocks, `basics
      ensures Ready() && basics == Frags(a, memTarget, NUM_BASIC_BLOCKS)
      ensures Allocations(chunks) == Allocations(old(chunks))
    {
      hide Sound, Wide, Filed, Chained, Counted, Headed, Unused, Frags, Carved, Allocations, Linked;
      ghost var z, block, f := Z(), (a, NUM_BASIC_BLOCKS * memTarget), Frags(a, memTarget, NUM_BASIC_BLOCKS);
      Lengths(z, chunks, blocks);
      FragsNew(z, chunks, a, memTarget, NUM_BASIC_BLOCKS, NUM_BASIC_BLOCKS * memTarget);
      MoreBlocks(z, chunks, blocks, block);
      CarveSound(z, chunks, blocks + {block}, a, memTarget, NUM_BASIC_BLOCKS, NUM_BASIC_BLOCKS * memTarget, Basic, block);
      WideCarved(z, chunks, a, memTarget, NUM_BASIC_BLOCKS, Basic);
      FiledBlocks(z, chunks, blocks, a, memTarget, NUM_BASIC_BLOCKS, frees, []);
      CountedCarved(z, chunks, a, memTarget, NUM_BASIC_BLOCKS, Basic, stats[..], frees);
      ghost var was := mem;
      LinkedNone(mem);
      Link(a, memTarget, NUM_BASIC_BLOCKS, 0, []);
      ChainedApart(z, chunks, frees, [], was, mem, f);
      ChainedBasics(mem, frees, [], f + []);
      assert f + [] == f;
      FragsFirst(a, memTarget, NUM_BASIC_BLOCKS);
      basicBlocks := a;
      chunks := Carved(chunks, a, memTarget, NUM_BASIC_BLOCKS, Basic);
      blocks, basics := blocks + {block}, f;
    }

    /** The counts, the links and the list head for the fragments of a block. */
    method CutInto(block: int, c: nat, frags: nat)
      requires freelists != null && stats != null && c < freelists.Length && c < stats.Length && freelists[c] == 0
      requires c > 0 && frags >= 1
      modifies `mem, freelists, stats
      ensures Linked(mem, Frags(block, c, frags))
      ensures forall a :: a in old(mem) && a !in Frags(block, c, frags) ==> a in mem && mem[a] == old(mem)[a]
      ensures freelists[..] == old(freelists[..])[c := block]
      ensures var s := old(stats[c]);
              stats[..] == old(stats[..])[c := s.(blocks := s.blocks + 1, freefrags := s.freefrags + frags)]
    {
      hide Linked, Frags;
      stats[c] := stats[c].(blocks := stats[c].blocks + 1, freefrags := stats[c].freefrags + frags);
      LinkedNone(mem);
      Link(block, c, frags, freelists[c], []);
      assert Frags(block, c, frags) + [] == Frags(block, c, frags);
      freelists[c] := block;
    }

    /** The first basic block is cut into fragments for an empty list. */
    method Cut(c: nat)
      requires Ready() && basics != [] && P_SIZE <= c < maxSize && c <= memTarget && frees[c] == []
      modifies `basicBlocks, `mem, `chunks, `frees, `basics, freelists, stats
      ensures Ready() && frees[c] != [] && Allocations(chunks) == Allocations(old(chunks))
    {
      hide Sound, Wide, Filed, Chained, Counted, Headed, Unused, Frags, Carved, Allocations, Linked, Rest;
      ghost var p, rest := basics[0], basics[1..];
      Shapes(Z(), chunks, stats[..], frees, freelists[..]);
      RestFirst(basics);
      var block := basicBlocks;
      var frags := memTarget / c;
      Quotient(memTarget, c);
      CutChunks(Z(), chunks, blocks, frees, basics, mem, stats[..], c, frags);
      HeadOf(freelists[..], frees, c);
      RestNone();
      FragsFirst(p, c, frags);
      ghost var f, k := Frags(p, c, frags), Carved(chunks - {p}, p, c, frags, Free(c));
      basicBlocks := mem[block];
      ghost var was, counts, heads := mem, stats[..], freelists[..];
      CutInto(block, c, frags);
      CutState(Z(), chunks - {p}, was, mem, frees, rest, c, f, frags, counts, stats[..], heads, freelists[..], k);
      chunks, frees, basics := k, frees[c := f], rest;
    }

    /** The memory that malloc finds for an allocation of this size, if it is asked, begins at a and is unused. */
    ghost predicate Malloced(size: nat, a: int)
      reads this, freelists, stats
    {
      && a > 0
      && (freelists != null ==> Unused(Z(), chunks, a, if Z().Large(size) then size else NUM_BASIC_BLOCKS * memTarget))
    }

    /** The path of `__memget_record` for allocations beyond the upper limit. */
    method GetLarge(size: nat, a: int) returns (ret: int)
      requires Ready() && size > 0 && Z().Large(size) && a > 0 && Unused(Z(), chunks, a, size)
      modifies stats, `chunks
      ensures Ready() && ret == a && ret !in Allocations(old(chunks))
      ensures Allocations(chunks) == Allocations(old(chunks))[ret := size]
    {
      hide Sound, Wide, Filed, Chained, Counted, Headed, Unused, Allocations;
      Shapes(Z(), chunks, stats[..], frees, freelists[..]);
      LargeBegun(Z(), chunks, blocks, frees, basics, a, size);
      Allocate(Z(), chunks, a, size);
      ghost var counts := stats[..];
      stats[maxSize] := MemStates.Got(stats[maxSize]);
      CountedGet(Z(), chunks, counts, frees, stats[..], frees, a, size);
      chunks := chunks[a := Live(size)];
      return a;
    }

    /** The end of `__memget_record`: the first fragment of the list. */
    method GetFragment(size: nat) returns (ret: int)
      requires Ready() && size > 0 && !Z().Large(size) && |frees| == maxSize && frees[Quantize(size)] != []
      modifies freelists, stats, `chunks, `frees
      ensures Ready() && ret > 0 && ret !in Allocations(old(chunks))
      ensures Allocations(chunks) == Allocations(old(chunks))[ret := size]
    {
      hide Sound, Wide, Filed, Chained, Counted, Headed, Unused, Allocations, Rest;
      var c := Quantize(size);
      Shapes(Z(), chunks, stats[..], frees, freelists[..]);
      Taken(Z(), chunks, blocks, frees, basics, mem, c, size);
      SomeFragments(Z(), chunks, stats[..], frees, c);
      HeadOf(freelists[..], frees, c);
      RestFirst(frees[c]);
      ret := freelists[c];
      Allocate(Z(), chunks, ret, size);
      ghost var counts, heads := stats[..], freelists[..];
      freelists[c] := mem[freelists[c]];
      stats[size] := MemStates.Got(stats[size]);
      stats[c] := stats[c].(freefrags := stats[c].freefrags - 1);
      HeadedNow(heads, freelists[..], frees, c, frees[c][1..]);
      CountedGet(Z(), chunks, counts, frees, stats[..], frees[c := frees[c][1..]], ret, size);
      chunks, frees := chunks[ret := Live(size)], frees[c := frees[c][1..]];
    }

    /** `__memget_record`. When malloc is asked it answers with a. */
    method MemGet(size: nat, a: int) returns (ret: int)
      requires Valid() && Malloced(size, a)
      modifies this, freelists, stats
      ensures Valid()
      ensures size == 0 ==> ret == 0 && Allocations(chunks) == Allocations(old(chunks))
      ensures size > 0 ==> ret > 0 && ret !in Allocations(old(chunks))
      ensures size > 0 ==> Allocations(chunks) == Allocations(old(chunks))[ret := size]
    {
      hide Sound, Wide, Filed, Chained, Counted, Headed, Allocations, Rest;
      var newSize := Quantize(size);
      if freelists == null {
        DefaultRoom();
        var ok := MemInit(0, 0);
        NothingThere(Z(), a);
      }
      if size == 0 {
        return 0;
      }
      if size >= maxSize || newSize >= maxSize {
        ret := GetLarge(size, a);
        return;
      }
      Shapes(Z(), chunks, stats[..], frees, freelists[..]);
      HeadOf(freelists[..], frees, newSize);
      HeadsNull(Z(), chunks, blocks, frees, basics, newSize);
      FragmentFits(Z(), size);
      if freelists[newSize] == 0 {
        if basicBlocks == 0 {
          Grow(a);
          SomeBlocks(a, memTarget);
        }
        Cut(newSize);
        Shapes(Z(), chunks, stats[..], frees, freelists[..]);
      }
      ret := GetFragment(size);
    }

    /** `__memput_record`, of an allocation with the size it was made with. */
    method MemPut(p: int, size: nat)
      requires Ready() && (size > 0 ==> p in chunks && chunks[p] == Live(size))
      modifies freelists, stats, `mem, `chunks, `frees
      ensures Ready() && Allocations(chunks) == if size == 0 then Allocations(old(chunks)) else Allocations(old(chunks)) - {p}
    {
      hide Sound, Wide, Filed, Chained, Counted, Headed, Allocations, Rest, Ended;
      var newSize := Quantize(size);
      if size == 0 {
        return;
      }
      Shapes(Z(), chunks, stats[..], frees, freelists[..]);
      CountedOnce(Z(), chunks, stats[..], frees, p);
      ghost var counts, heads := stats[..], freelists[..];
      if size == maxSize || newSize >= maxSize {
        LargeEnded(Z(), chunks, blocks, frees, basics, p);
        Release(chunks, p, 0);
        assert stats[maxSize].gets != 0;
        stats[maxSize] := stats[maxSize].(gets := stats[maxSize].gets - 1);
        CountedPut(Z(), chunks, counts, frees, stats[..], frees, p, 0);
        chunks := Ended(chunks, p, 0);
        return;
      }
      Returned(Z(), chunks, blocks, frees, basics, mem, newSize, p);
      Release(chunks, p, newSize);
      HeadOf(freelists[..], frees, newSize);
      mem := mem[p := freelists[newSize]];
      freelists[newSize] := p;
      RestFirst([p] + frees[newSize]);
      HeadedNow(heads, freelists[..], frees, newSize, [p] + frees[newSize]);
      assert stats[size].gets != 0;
      stats[size] := stats[size].(gets := stats[size].gets - 1);
      stats[newSize] := stats[newSize].(freefrags := stats[newSize].freefrags + 1);
      CountedPut(Z(), chunks, counts, frees, stats[..], frees[newSize := [p] + frees[newSize]], p, newSize);
      chunks, frees := Ended(chunks, p, newSize), frees[newSize := [p] + frees[newSize]];
    }

    /** `memactive` */
    method MemActive() returns (b: bool)
      requires Valid()
      ensures b <==> Allocations(chunks) != map[]
    {
      hide Sound, Wide, Filed, Chained, Headed;
      if stats == null {
        return false;
      }
      Shapes(Z(), chunks, stats[..], frees, freelists[..]);
      var i := 1;
      while i <= maxSize
        invariant 1 <= i <= maxSize + 1
        invariant forall k :: 1 <= k < i ==> stats[k].gets == 0
      {
        if stats[i].gets != 0 {
          SomeLive(Z(), chunks, i);
          return true;
        }
        i := i + 1;
      }
      NoneLive(Z(), chunks, stats[..], frees);
      return false;
    }

    /** The program stores words that reach into an allocation: they may hold anything, and the allocator stands. */
    method Store(p: int, size: nat, words: map<int, int>)
      requires Ready() && p in chunks && chunks[p] == Live(size)
      requires forall w :: w in words ==> p - P_SIZE < w < p + size
      modifies `mem
      ensures Ready() && mem == old(mem) + words
    {
      hide Sound, Wide, Filed, Counted, Headed;
      StoredElsewhere(Z(), chunks, blocks, frees, basics, mem, p, words);
      mem := mem + words;
    }
  }

  /** The last piece is linked to the list there was. */
  lemma {:induction false} LinkEnd(was: map<int, int>, mem: map<int, int>, start: int, c: nat, n: nat, l: seq<int>,
                                   tail: int)
    requires n >= 1 && c > 0 && Linked(was, l) && tail == Rest(l, 0) && (forall a :: a in Frags(start, c, n) ==> a !in l)
    requires LinkedUpTo(was, mem, start, c, n, n - 1)
    ensures var end := mem[start + (n - 1) * c := tail];
            && Linked(end, Frags(start, c, n) + l)
            && forall a :: a in was && a !in Frags(start, c, n) ==> a in end && end[a] == was[a]
  {
    var f, last := Frags(start, c, n), start + (n - 1) * c;
    var end := mem[last := tail];
    assert f[n - 1] == last;
    forall i | 0 <= i < |f + l|
      ensures (f + l)[i] in end && end[(f + l)[i]] == Rest(f + l, i + 1)
    {
      if i < n - 1 {
        Grows(i, n - 1, c);
        assert f[i] == start + i * c && f[i + 1] == start + (i + 1) * c == start + i * c + c;
        assert start + i * c in mem;
      } else if i >= n {
        var a := l[i - n];
        assert a in was && a in l && a !in f;
      }
    }
  }

  lemma {:induction false} LinkStart(mem: map<int, int>, start: int, c: nat, n: nat)
    ensures LinkedUpTo(mem, mem, start, c, n, 0)
  {
  }

  lemma {:induction false} Shapes(z: Sizes, m: Chunks, stats: seq<Stats>, frees: seq<seq<int>>, freelists: seq<int>)
    requires Counted(z, m, stats, frees) && Headed(freelists, frees)
    ensures |frees| == |freelists| == z.maxSize && |stats| == z.maxSize + 1
  {
  }

  /** A list that is not empty has fragments to lose. */
  lemma {:induction false} SomeFragments(z: Sizes, m: Chunks, stats: seq<Stats>, frees: seq<seq<int>>, c: nat)
    requires Counted(z, m, stats, frees) && c < |frees| && frees[c] != []
    ensures stats[c].freefrags > 0
  {
  }

  lemma {:induction false} SomeLive(z: Sizes, m: Chunks, k: nat)
    requires |LiveAt(z, m, k)| != 0
    ensures Allocations(m) != map[]
  {
    var a := AnyOf(LiveAt(z, m, k));
    assert a in Allocations(m);
  }

  ghost function AnyOf<T>(s: set<T>): (x: T)
    requires |s| != 0
    ensures x in s
  {
    var x :| x in s;
    x
  }

  lemma {:induction false} LiveCounted(z: Sizes, m: Chunks, a: int)
    requires a in m && m[a].Live?
    ensures |LiveAt(z, m, Slot(z, m[a].size))| > 0
  {
    assert a in LiveAt(z, m, Slot(z, m[a].size));
  }

  /** Without counts from the first slot on there are no allocations. */
  lemma {:induction false} NoneLive(z: Sizes, m: Chunks, stats: seq<Stats>, frees: seq<seq<int>>)
    requires Counted(z, m, stats, frees) && Wide(z, m) && z.maxSize > 0
    requires forall k :: 1 <= k <= z.maxSize ==> stats[k].gets == 0
    ensures Allocations(m) == map[]
  {
    forall a | a in m
      ensures !m[a].Live?
    {
      if m[a].Live? {
        LiveCounted(z, m, a);
      }
    }
  }

  /** Stores into an allocation do not reach the links of the free pieces. */
  lemma {:induction false} StoredElsewhere(z: Sizes, m: Chunks, blocks: set<(int, nat)>, frees: seq<seq<int>>,
                                           basics: seq<int>, mem: map<int, int>, p: int, words: map<int, int>)
    requires Sound(z, m, blocks) && Wide(z, m) && Filed(z, m, frees, basics) && Chained(mem, frees, basics)
    requires p in m && m[p].Live? && forall w :: w in words ==> p - P_SIZE < w < p + m[p].size
    ensures Chained(mem + words, frees, basics)
  {
    StoredApart(z, m, blocks, basics, Basic, mem, p, words);
    forall c | 0 <= c < |frees|
      ensures Linked(mem + words, frees[c])
    {
      StoredApart(z, m, blocks, frees[c], Free(c), mem, p, words);
    }
  }

  lemma {:induction false} StoredApart(z: Sizes, m: Chunks, blocks: set<(int, nat)>, l: seq<int>, u: Use,
                                       mem: map<int, int>, p: int, words: map<int, int>)
    requires Sound(z, m, blocks) && Wide(z, m) && Listing(m, l, u) && Linked(mem, l) && !u.Live?
    requires p in m && m[p].Live? && forall w :: w in words ==> p - P_SIZE < w < p + m[p].size
    ensures Linked(mem + words, l)
  {
    forall i | 0 <= i < |l|
      ensures l[i] !in words
    {
      assert l[i] in l && Apart(z, p, m[p], l[i], m[l[i]]);
      assert z.Len(m[p]) >= m[p].size && z.Len(u) >= P_SIZE;
    }
    LinkedSame(mem, mem + words, l);
  }

  lemma {:induction false} DefaultRoom()
    ensures Roomy(Sizes(DEF_MAX_SIZE, DEF_MEM_TARGET))
  {
  }

  lemma {:induction false} NothingThere(z: Sizes, a: int)
    ensures forall n :: Unused(z, map[], a, n)
  {
  }

  lemma {:induction false} SomeBlocks(a: int, memTarget: nat)
    ensures Frags(a, memTarget, NUM_BASIC_BLOCKS) != []
  {
  }

  /** The null pointer is no piece: a list head that is null means an empty list. */
  lemma {:induction false} RestZero(z: Sizes, m: Chunks, blocks: set<(int, nat)>, l: seq<int>, u: Use)
    requires Sound(z, m, blocks) && Listing(m, l, u)
    ensures Rest(l, 0) == 0 <==> l == []
  {
    if l != [] {
      assert l[0] in l;
    }
  }

  lemma {:induction false} HeadsNull(z: Sizes, m: Chunks, blocks: set<(int, nat)>, frees: seq<seq<int>>, basics: seq<int>,
                                     c: nat)
    requires Sound(z, m, blocks) && Filed(z, m, frees, basics) && c < |frees|
    ensures Rest(frees[c], 0) == 0 <==> frees[c] == []
    ensures Rest(basics, 0) == 0 <==> basics == []
  {
    RestZero(z, m, blocks, frees[c], Free(c));
    RestZero(z, m, blocks, basics, Basic);
  }

  lemma {:induction false} RestNone()
    ensures Rest([], 0) == 0
  {
  }

  lemma {:induction false} RestFirst(l: seq<int>)
    requires l != []
    ensures Rest(l, 0) == l[0]
  {
  }

  lemma {:induction false} Quotient(total: nat, c: nat)
    requires 0 < c <= total
    ensures total / c >= 1 && total / c * c <= total
  {
    assert total / c * c + total % c == total;
  }

  /** The state without the first basic block. */
  lemma {:induction false} FirstBlock(z: Sizes, m: Chunks, blocks: set<(int, nat)>, frees: seq<seq<int>>, basics: seq<int>,
                                      mem: map<int, int>, stats: seq<Stats>)
    requires Sound(z, m, blocks) && Wide(z, m) && Filed(z, m, frees, basics) && Chained(mem, frees, basics)
    requires Counted(z, m, stats, frees) && basics != []
    ensures var p := basics[0];
            && p in m && m[p] == Basic && p > 0 && p in mem && mem[p] == Rest(basics[1..], 0)
            && Sound(z, m - {p}, blocks) && Unused(z, m - {p}, p, z.memTarget) && Wide(z, m - {p})
            && Filed(z, m - {p}, frees, basics[1..]) && Chained(mem, frees, basics[1..])
            && Counted(z, m - {p}, stats, frees) && Allocations(m - {p}) == Allocations(m)
  {
    var p := basics[0];
    BlockTaken(z, m, frees, basics, stats);
    DropSound(z, m, blocks, p);
    LinkedTail(mem, basics);
    assert Obtained(z, m, blocks);
    hide Sound, Wide, Filed, Counted, Allocations, Unused;
  }

  /** The pieces, lists and counts when the first block is cut into fragments for the empty list c. */
  lemma {:induction false} CutChunks(z: Sizes, m: Chunks, blocks: set<(int, nat)>, frees: seq<seq<int>>, basics: seq<int>,
                                     mem: map<int, int>, stats: seq<Stats>, c: nat, n: nat)
    requires Sound(z, m, blocks) && Wide(z, m) && Filed(z, m, frees, basics) && Chained(mem, frees, basics)
    requires Counted(z, m, stats, frees) && basics != []
    requires P_SIZE <= c < z.maxSize && n * c <= z.memTarget && |frees| == z.maxSize && frees[c] == []
    ensures var p, f := basics[0], Frags(basics[0], c, n);
            var rest, k := m - {p}, Carved(m - {p}, p, c, n, Free(c));
            && p in mem && mem[p] == Rest(basics[1..], 0)
            && Filed(z, rest, frees, basics[1..]) && Chained(mem, frees, basics[1..]) && (forall a :: a in f ==> a !in rest)
            && Sound(z, k, blocks) && Wide(z, k) && Filed(z, k, frees[c := f], basics[1..]) && Counted(z, k, stats, frees)
            && Allocations(k) == Allocations(m)
  {
    hide Sound, Wide, Filed, Chained, Counted, Unused, Frags, Carved, Allocations, Linked, Rest;
    var p, f := basics[0], Frags(basics[0], c, n);
    FirstBlock(z, m, blocks, frees, basics, mem, stats);
    var rest := m - {p};
    Lengths(z, rest, blocks);
    FragsNew(z, rest, p, c, n, z.memTarget);
    var block := BlockOf(z, m, blocks, p);
    CarveSound(z, rest, blocks, p, c, n, z.memTarget, Free(c), block);
    WideCarved(z, rest, p, c, n, Free(c));
    FiledFragments(z, rest, blocks, p, c, n, z.memTarget, frees, basics[1..]);
    CountedCarved(z, rest, p, c, n, Free(c), stats, frees);
    assert f + [] == f;
  }

  ghost function BlockOf(z: Sizes, m: Chunks, blocks: set<(int, nat)>, p: int): (b: (int, nat))
    requires Sound(z, m, blocks) && p in m && m[p] == Basic
    ensures b in blocks && Inside(p, z.memTarget, b)
  {
    var b :| b in blocks && Inside(p, z.Len(m[p]), b);
    b
  }

  lemma {:induction false} HeadOf(freelists: seq<int>, frees: seq<seq<int>>, c: nat)
    requires Headed(freelists, frees) && c < |frees|
    ensures c < |freelists| && freelists[c] == Rest(frees[c], 0)
  {
  }

  lemma {:induction false} HeadedNow(before: seq<int>, after: seq<int>, frees: seq<seq<int>>, c: nat, l: seq<int>)
    requires Headed(before, frees) && c < |frees| && |after| == |before| && after == before[c := Rest(l, 0)]
    ensures Headed(after, frees[c := l])
  {
  }

  lemma {:induction false} ChainedList(mem: map<int, int>, frees: seq<seq<int>>, basics: seq<int>, c: nat, l: seq<int>)
    requires Chained(mem, frees, basics) && Linked(mem, l) && c < |frees|
    ensures Chained(mem, frees[c := l], basics)
  {
  }

  lemma {:induction false} CountedMore(z: Sizes, m: Chunks, before: seq<Stats>, after: seq<Stats>, frees: seq<seq<int>>,
                                       left: seq<seq<int>>, c: nat)
    requires Counted(z, m, before, frees) && c < |frees| && |after| == |before| && |left| == |frees|
    requires forall k :: 0 <= k < |before| ==> after[k].gets == before[k].gets
    requires forall k :: 0 <= k < |frees| ==> after[k].freefrags - |left[k]| == before[k].freefrags - |frees[k]|
    ensures Counted(z, m, after, left)
  {
    hide LiveAt;
  }

  /** The lists after the fragments f, which are no pieces of m yet, have been linked for the empty list c. */
  lemma {:induction false} CutState(z: Sizes, m: Chunks, was: map<int, int>, mem: map<int, int>, frees: seq<seq<int>>,
                                    basics: seq<int>, c: nat, f: seq<int>, frags: nat, counts: seq<Stats>,
                                    stats: seq<Stats>, heads: seq<int>, freelists: seq<int>, k: Chunks)
    requires Filed(z, m, frees, basics) && Chained(was, frees, basics) && Linked(mem, f) && |f| == frags > 0
    requires (forall a :: a in f ==> a !in m) && c < |frees| && frees[c] == []
    requires forall a :: a in was && a !in f ==> a in mem && mem[a] == was[a]
    requires Counted(z, k, counts, frees) && Headed(heads, frees)
    requires stats == counts[c := counts[c].(blocks := counts[c].blocks + 1, freefrags := counts[c].freefrags + frags)]
    requires freelists == heads[c := f[0]]
    ensures Chained(mem, frees[c := f], basics) && Counted(z, k, stats, frees[c := f]) && Headed(freelists, frees[c := f])
  {
    hide Filed, Chained, Linked;
    ChainedApart(z, m, frees, basics, was, mem, f);
    ChainedList(mem, frees, basics, c, f);
    CountedMore(z, k, counts, stats, frees, frees[c := f], c);
    HeadedNow(heads, freelists, frees, c, f);
  }

  lemma {:induction false} LinkedNone(mem: map<int, int>)
    ensures Linked(mem, [])
  {
  }

  lemma {:induction false} ChainedBasics(mem: map<int, int>, frees: seq<seq<int>>, basics: seq<int>, l: seq<int>)
    requires Chained(mem, frees, basics) && Linked(mem, l)
    ensures Chained(mem, frees, l)
  {
  }

  lemma {:induction false} FragsFirst(start: int, c: nat, n: nat)
    requires n > 0
    ensures Frags(start, c, n)[0] == start
  {
  }

  /** One more piece is linked to its neighbour. */
  lemma {:induction false} LinkStep(was: map<int, int>, mem: map<int, int>, start: int, c: nat, n: nat, i: nat, to: int)
    requires i < n && c > 0 && LinkedUpTo(was, mem, start, c, n, i) && to == start + i * c + c
    ensures LinkedUpTo(was, mem[start + i * c := to], start, c, n, i + 1)
    ensures start + i * c + c == start + (i + 1) * c
  {
    assert Frags(start, c, n)[i] == start + i * c;
    forall j {:trigger start + j * c} | 0 <= j < i
      ensures start + j * c != start + i * c
    {
      Grows(j, i, c);
    }
  }
}
