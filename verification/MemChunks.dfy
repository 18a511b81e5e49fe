/** The pieces into which the memory of the allocator is cut (isc/memcluster.c). */
module MemChunks {
  /** `sizeof(void *)` */
  const P_SIZE := 8

  /** `quantize`: the size rounded up to a multiple of the size of a pointer. */
  function Quantize(size: nat): (n: nat)
    ensures n % P_SIZE == 0 && size <= n < size + P_SIZE
  {
    var remainder := size % P_SIZE;
    if remainder != 0 then size + (P_SIZE - remainder) else size
  }

  /** What a piece of memory is used for: a block that is not cut yet, a fragment on the free list of its size, or
      an allocation of the size given. */
  datatype Use = Basic | Free(fragment: nat) | Live(size: nat)

  /** The parameters of the allocator: allocations are fragments below maxSize, and blocks have memTarget bytes. */
  datatype Sizes = Sizes(maxSize: nat, memTarget: nat) {
    predicate Large(size: nat) {
      Quantize(size) >= maxSize
    }

    /** The number of bytes of a piece. */
    function Len(u: Use): nat {
      match u
      case Basic => memTarget
      case Free(c) => c
      case Live(size) => if Large(size) then size else Quantize(size)
    }
  }

  type Chunks = map<int, Use>

  /** The pieces at two addresses do not overlap. */
  predicate Apart(z: Sizes, a: int, u: Use, b: int, v: Use) {
    a + z.Len(u) <= b || b + z.Len(v) <= a
  }

  /** The n bytes at a are not used by any piece. */
  ghost predicate Unused(z: Sizes, m: Chunks, a: int, n: nat) {
    forall b :: b in m ==> a + n <= b || b + z.Len(m[b]) <= a
  }

  ghost predicate Disjoint(z: Sizes, m: Chunks) {
    forall a, b :: a in m && b in m && a != b ==> Apart(z, a, m[a], b, m[b])
  }

  /** A piece lies inside a block that was obtained from malloc. */
  predicate Inside(a: int, n: nat, block: (int, nat)) {
    block.0 <= a && a + n <= block.0 + block.1
  }

  /** Pieces have addresses and are not empty; all but the large allocations are parts of blocks. */
  ghost predicate Obtained(z: Sizes, m: Chunks, blocks: set<(int, nat)>) {
    forall a :: a in m ==>
      a > 0 && z.Len(m[a]) > 0
      && ((m[a].Live? && z.Large(m[a].size)) || exists b :: b in blocks && Inside(a, z.Len(m[a]), b))
  }

  ghost predicate Sound(z: Sizes, m: Chunks, blocks: set<(int, nat)>) {
    Disjoint(z, m) && Obtained(z, m, blocks)
  }

  /** The addresses of n pieces of c bytes, one after the other. */
  function Frags(start: int, c: nat, n: nat): (s: seq<int>)
    ensures |s| == n
  {
    seq(n, i => start + i * c)
  }

  lemma {:induction false} Grows(i: nat, j: nat, c: nat)
    requires i < j
    ensures i * c + c <= j * c
  {
    assert (j - 1) * c + c == j * c;
    if i < j - 1 {
      Grows(i, j - 1, c);
    }
  }

  lemma {:induction false} FragsApart(start: int, c: nat, n: nat, i: nat, j: nat)
    requires i < j < n
    ensures Frags(start, c, n)[i] + c <= Frags(start, c, n)[j]
  {
    Grows(i, j, c);
  }

  lemma {:induction false} FragsInside(start: int, c: nat, n: nat, total: nat, i: nat)
    requires i < n && n * c <= total
    ensures start <= Frags(start, c, n)[i] && Frags(start, c, n)[i] + c <= start + total
  {
    Grows(i, n, c);
  }

  /** n new pieces of c bytes each, from start on. */
  ghost function Carved(m: Chunks, start: int, c: nat, n: nat, u: Use): Chunks {
    m + map a | a in Frags(start, c, n) :: u
  }

  lemma {:induction false} CarvedIs(m: Chunks, start: int, c: nat, n: nat, u: Use, a: int)
    ensures a in Carved(m, start, c, n, u) <==> a in Frags(start, c, n) || a in m
    ensures a in Frags(start, c, n) ==> Carved(m, start, c, n, u)[a] == u
    ensures a in m && a !in Frags(start, c, n) ==> Carved(m, start, c, n, u)[a] == m[a]
  {
  }

  /** The new pieces are not where the old ones are. */
  lemma {:induction false} FragUnused(z: Sizes, m: Chunks, start: int, c: nat, n: nat, total: nat, a: int, b: int)
    requires Unused(z, m, start, total) && n * c <= total && a in Frags(start, c, n) && b in m
    ensures start <= a && a + c <= start + total
    ensures a + c <= b || b + z.Len(m[b]) <= a
  {
    var i :| 0 <= i < n && Frags(start, c, n)[i] == a;
    FragsInside(start, c, n, total, i);
  }

  lemma {:induction false} FragsDistinct(start: int, c: nat, n: nat, a: int, b: int)
    requires a in Frags(start, c, n) && b in Frags(start, c, n) && a != b
    ensures a + c <= b || b + c <= a
  {
    var i :| 0 <= i < n && Frags(start, c, n)[i] == a;
    var j :| 0 <= j < n && Frags(start, c, n)[j] == b;
    if i < j {
      FragsApart(start, c, n, i, j);
    } else if j < i {
      FragsApart(start, c, n, j, i);
    }
  }

  /** Unused memory may be cut into pieces. */
  lemma {:induction false} CarveSound(z: Sizes, m: Chunks, blocks: set<(int, nat)>, start: int, c: nat, n: nat,
                                      total: nat, u: Use, block: (int, nat))
    requires Sound(z, m, blocks) && Unused(z, m, start, total) && n * c <= total && start > 0
    requires z.Len(u) == c && c > 0 && block in blocks && Inside(start, total, block)
    ensures Sound(z, Carved(m, start, c, n, u), blocks)
  {
    var k := Carved(m, start, c, n, u);
    forall a, b | a in k && b in k && a != b
      ensures Apart(z, a, k[a], b, k[b])
    {
      CarveApart(z, m, start, c, n, total, u, a, b);
    }
    forall a | a in k
      ensures a > 0 && z.Len(k[a]) > 0
      ensures (k[a].Live? && z.Large(k[a].size)) || exists b :: b in blocks && Inside(a, z.Len(k[a]), b)
    {
      CarvedIs(m, start, c, n, u, a);
      if a in Frags(start, c, n) {
        var i :| 0 <= i < n && Frags(start, c, n)[i] == a;
        FragsInside(start, c, n, total, i);
        assert Inside(a, z.Len(k[a]), block);
      }
    }
  }

  lemma {:induction false} CarveApart(z: Sizes, m: Chunks, start: int, c: nat, n: nat, total: nat, u: Use, a: int, b: int)
    requires Disjoint(z, m) && Unused(z, m, start, total) && n * c <= total && z.Len(u) == c
    requires a in Carved(m, start, c, n, u) && b in Carved(m, start, c, n, u) && a != b
    ensures Apart(z, a, Carved(m, start, c, n, u)[a], b, Carved(m, start, c, n, u)[b])
  {
    CarvedIs(m, start, c, n, u, a);
    CarvedIs(m, start, c, n, u, b);
    hide Carved, Frags;
    if a in Frags(start, c, n) {
      if b in Frags(start, c, n) {
        FragsDistinct(start, c, n, a, b);
      } else {
        FragUnused(z, m, start, c, n, total, a, b);
      }
    } else if b in Frags(start, c, n) {
      FragUnused(z, m, start, c, n, total, b, a);
    }
  }

  /** A piece may be put to another use of the same length. */
  lemma {:induction false} ReuseSound(z: Sizes, m: Chunks, blocks: set<(int, nat)>, p: int, u: Use)
    requires Sound(z, m, blocks) && p in m && z.Len(u) == z.Len(m[p])
    requires m[p].Live? && z.Large(m[p].size) ==> u.Live? && z.Large(u.size)
    ensures Sound(z, m[p := u], blocks)
  {
    var k := m[p := u];
    forall a, b | a in k && b in k && a != b
      ensures Apart(z, a, k[a], b, k[b])
    {
      assert Apart(z, a, m[a], b, m[b]);
    }
  }

  /** A piece may be given up, and then its memory is unused. */
  lemma {:induction false} DropSound(z: Sizes, m: Chunks, blocks: set<(int, nat)>, p: int)
    requires Sound(z, m, blocks) && p in m
    ensures Sound(z, m - {p}, blocks) && Unused(z, m - {p}, p, z.Len(m[p]))
  {
    var k := m - {p};
    forall a, b | a in k && b in k && a != b
      ensures Apart(z, a, k[a], b, k[b])
    {
      assert Apart(z, a, m[a], b, m[b]);
    }
    forall b | b in k
      ensures p + z.Len(m[p]) <= b || b + z.Len(k[b]) <= p
    {
      assert Apart(z, p, m[p], b, m[b]);
    }
  }

  /** A large allocation is a block of its own. */
  lemma {:induction false} LargeSound(z: Sizes, m: Chunks, blocks: set<(int, nat)>, p: int, size: nat)
    requires Sound(z, m, blocks) && Unused(z, m, p, size) && p > 0 && size > 0 && z.Large(size)
    ensures Sound(z, m[p := Live(size)], blocks) && p !in m
  {
    var k := m[p := Live(size)];
    forall a, b | a in k && b in k && a != b
      ensures Apart(z, a, k[a], b, k[b])
    {
      if a in m && b in m && a != p && b != p {
        assert Apart(z, a, m[a], b, m[b]);
      }
    }
  }
}
