/** The registrations of file descriptors and the two lists that run through them (isc/eventlib_p.h, isc/ev_files.c). */
module EvFileList {
  import opened Scan

  datatype Kind = Read | Write | Except

  const ALL: set<Kind> := {Read, Write, Except}

  /** `evFile` */
  class EvFile {
    const fd: int
    const eventmask: set<Kind>
    const func: nat  // func and uap
    var prev: EvFile?
    var next: EvFile?
    var fdprev: EvFile?
    var fdnext: EvFile?

    constructor (fd: int, eventmask: set<Kind>, func: nat)
      ensures this.fd == fd && this.eventmask == eventmask && this.func == func
    {
      this.fd, this.eventmask, this.func := fd, eventmask, func;
      prev, next, fdprev, fdnext := null, null, null, null;
    }
  }

  /** The first registration of fd from position i on. */
  function NextSame(l: seq<EvFile>, i: nat, fd: int): EvFile?
    decreases |l| - i
  {
    if i >= |l| then null else if l[i].fd == fd then l[i] else NextSame(l, i + 1, fd)
  }

  /** The last registration of fd before position i. */
  function PrevSame(l: seq<EvFile>, i: nat, fd: int): EvFile?
    requires i <= |l|
  {
    if i == 0 then null else if l[i - 1].fd == fd then l[i - 1] else PrevSame(l, i - 1, fd)
  }

  function At(l: seq<EvFile>, i: int): EvFile? {
    if 0 <= i < |l| then l[i] else null
  }

  lemma {:induction false} NextSameIs(l: seq<EvFile>, i: nat, j: nat, fd: int)
    requires i <= j <= |l| && forall k :: i <= k < j ==> l[k].fd != fd
    ensures NextSame(l, i, fd) == NextSame(l, j, fd)
    decreases j - i
  {
    if i < j {
      NextSameIs(l, i + 1, j, fd);
    }
  }

  /** Either there is no further registration of fd, or it is found at a position. */
  lemma {:induction false} NextSameAt(l: seq<EvFile>, i: nat, fd: int) returns (j: nat)
    requires i <= |l|
    ensures i <= j <= |l| && forall k :: i <= k < j ==> l[k].fd != fd
    ensures NextSame(l, i, fd) == At(l, j) && (j < |l| ==> l[j].fd == fd)
    decreases |l| - i
  {
    j := i;
    if i < |l| && l[i].fd != fd {
      j := NextSameAt(l, i + 1, fd);
    }
  }

  lemma {:induction false} PrevSameAt(l: seq<EvFile>, i: nat, fd: int) returns (j: int)
    requires i <= |l|
    ensures -1 <= j < i && forall k :: j < k < i ==> l[k].fd != fd
    ensures PrevSame(l, i, fd) == At(l, j) && (j >= 0 ==> l[j].fd == fd)
  {
    j := i - 1;
    if i > 0 && l[i - 1].fd != fd {
      j := PrevSameAt(l, i - 1, fd);
    }
  }

  lemma {:induction false} PrevSameIs(l: seq<EvFile>, i: nat, j: nat, fd: int)
    requires j <= i <= |l| && forall k :: j <= k < i ==> l[k].fd != fd
    ensures PrevSame(l, i, fd) == PrevSame(l, j, fd)
  {
    if j < i {
      PrevSameIs(l, i - 1, j, fd);
    }
  }

  /** A new head shifts the list by one. */
  lemma {:induction false} NextSamePushed(l: seq<EvFile>, f: EvFile, i: nat, fd: int)
    ensures NextSame([f] + l, i + 1, fd) == NextSame(l, i, fd)
    decreases |l| - i
  {
    if i < |l| {
      NextSamePushed(l, f, i + 1, fd);
    }
  }

  lemma {:induction false} PrevSamePushed(l: seq<EvFile>, f: EvFile, i: nat, fd: int)
    requires i <= |l|
    ensures PrevSame([f] + l, i + 1, fd) ==
            if PrevSame(l, i, fd) == null && f.fd == fd then f else PrevSame(l, i, fd)
  {
    if i > 0 {
      PrevSamePushed(l, f, i - 1, fd);
    } else {
      assert PrevSame([f] + l, 0, fd) == null;
    }
  }

  /** Without element p the search skips it. */
  lemma {:induction false} NextSameWithout(l: seq<EvFile>, p: nat, i: nat, fd: int)
    requires p < |l| && i <= |l| && Distinct(l)
    ensures i > p ==> NextSame(Without(l, p), i - 1, fd) == NextSame(l, i, fd)
    ensures i <= p ==> NextSame(Without(l, p), i, fd) ==
                       if NextSame(l, i, fd) == l[p] then NextSame(l, p + 1, fd) else NextSame(l, i, fd)
    decreases |l| - i
  {
    var w := Without(l, p);
    if i < |l| {
      NextSameWithout(l, p, i + 1, fd);
      if i < p {
        assert w[i] == l[i] && l[i] != l[p];
      } else if i > p {
        assert w[i - 1] == l[i];
      } else {
        var j := NextSameAt(l, p + 1, fd);
      }
    }
  }

  lemma {:induction false} PrevSameWithout(l: seq<EvFile>, p: nat, i: nat, fd: int)
    requires p < |l| && i <= |l| && Distinct(l)
    ensures i <= p ==> PrevSame(Without(l, p), i, fd) == PrevSame(l, i, fd)
    ensures i > p ==> PrevSame(Without(l, p), i - 1, fd) ==
                      if PrevSame(l, i, fd) == l[p] then PrevSame(l, p, fd) else PrevSame(l, i, fd)
  {
    var w := Without(l, p);
    if i > 0 {
      PrevSameWithout(l, p, i - 1, fd);
      if i <= p {
        assert w[i - 1] == l[i - 1];
      } else if i > p + 1 {
        assert w[i - 2] == l[i - 1] && l[i - 1] != l[p];
      } else {
        var j := PrevSameAt(l, p, fd);
      }
    }
  }

  /** The two directions fit together. */
  lemma {:induction false} NextIsPrev(l: seq<EvFile>, i: nat, p: nat)
    requires i < |l| && p < |l| && Distinct(l)
    ensures NextSame(l, i + 1, l[i].fd) == l[p] <==> PrevSame(l, p, l[p].fd) == l[i]
  {
    var j := NextSameAt(l, i + 1, l[i].fd);
    var k := PrevSameAt(l, p, l[p].fd);
    if j == p {
      PrevSameIs(l, p, i + 1, l[p].fd);
    }
    if k == i {
      NextSameIs(l, i + 1, p, l[i].fd);
    }
  }

  /** The head of the list of a descriptor is the registration without a predecessor there. */
  lemma {:induction false} FirstIsHead(l: seq<EvFile>, p: nat)
    requires p < |l| && Distinct(l)
    ensures NextSame(l, 0, l[p].fd) == l[p] <==> PrevSame(l, p, l[p].fd) == null
  {
    var j := NextSameAt(l, 0, l[p].fd);
    var k := PrevSameAt(l, p, l[p].fd);
    if j == p {
      PrevSameIs(l, p, 0, l[p].fd);
    }
    if k == -1 {
      NextSameIs(l, 0, p, l[p].fd);
    }
  }

  /** For every element the next, and the previous, registration of its descriptor. */
  function Nexts(l: seq<EvFile>): (r: seq<EvFile?>)
    ensures |r| == |l|
  {
    seq(|l|, i requires 0 <= i < |l| => NextSame(l, i + 1, l[i].fd))
  }

  function Prevs(l: seq<EvFile>): (r: seq<EvFile?>)
    ensures |r| == |l|
  {
    seq(|l|, i requires 0 <= i < |l| => PrevSame(l, i, l[i].fd))
  }

  /** The table of the first registrations of the descriptors. */
  function Heads(l: seq<EvFile>, n: nat): (r: seq<EvFile?>)
    ensures |r| == n
  {
    seq(n, fd => NextSame(l, 0, fd))
  }

  /** s with x at position i, when there is such a position. */
  function Put<T>(s: seq<T>, i: int, x: T): (r: seq<T>)
    ensures |r| == |s|
  {
    if 0 <= i < |s| then s[i := x] else s
  }

  lemma {:induction false} HeadsPushed(l: seq<EvFile>, f: EvFile, n: nat)
    requires Distinct(l) && 0 <= f.fd < n
    ensures Heads([f] + l, n) == Heads(l, n)[f.fd := f]
  {
    forall fd | 0 <= fd < n
      ensures Heads([f] + l, n)[fd] == Heads(l, n)[f.fd := f][fd]
    {
      NextSamePushed(l, f, 0, fd);
    }
  }

  /** The neighbours after a new head f comes before j, the first registration of its descriptor. */
  lemma {:induction false} NeighboursPushed(l: seq<EvFile>, f: EvFile, j: nat)
    requires Distinct(l) && j <= |l| && NextSame(l, 0, f.fd) == At(l, j) && (j < |l| ==> l[j].fd == f.fd)
    ensures Nexts([f] + l) == [At(l, j)] + Nexts(l)
    ensures Prevs([f] + l) == [null] + Put(Prevs(l), j, f)
  {
    var m := [f] + l;
    forall i | 0 <= i < |m|
      ensures Nexts(m)[i] == ([At(l, j)] + Nexts(l))[i]
      ensures Prevs(m)[i] == ([null] + Put(Prevs(l), j, f))[i]
    {
      NextSamePushed(l, f, i, m[i].fd);
      if i > 0 {
        assert m[i] == l[i - 1];
        PrevSamePushed(l, f, i - 1, m[i].fd);
        FirstIsHead(l, i - 1);
        assert l[i - 1] == At(l, j) <==> i - 1 == j;
      }
    }
  }

  lemma {:induction false} HeadsWithout(l: seq<EvFile>, p: nat, n: nat)
    requires Distinct(l) && p < |l| && 0 <= l[p].fd < n
    ensures Heads(Without(l, p), n) ==
            Put(Heads(l, n), if PrevSame(l, p, l[p].fd) == null then l[p].fd else -1, NextSame(l, p + 1, l[p].fd))
  {
    FirstIsHead(l, p);
    forall fd | 0 <= fd < n
      ensures Heads(Without(l, p), n)[fd] ==
              Put(Heads(l, n), if PrevSame(l, p, l[p].fd) == null then l[p].fd else -1, NextSame(l, p + 1, l[p].fd))[fd]
    {
      NextSameWithout(l, p, 0, fd);
      var j := NextSameAt(l, 0, fd);
    }
  }

  lemma {:induction false} NeighbourWithout(l: seq<EvFile>, p: nat, j: nat, k: int, at: nat)
    requires Distinct(l) && p < j <= |l| && -1 <= k < p && at < |l| && at != p
    requires NextSame(l, p + 1, l[p].fd) == At(l, j) && PrevSame(l, p, l[p].fd) == At(l, k)
    requires (j < |l| ==> l[j].fd == l[p].fd) && (k >= 0 ==> l[k].fd == l[p].fd)
    ensures var i := if at < p then at else at - 1;
            && NextSame(Without(l, p), i + 1, l[at].fd) == (if at == k then At(l, j) else NextSame(l, at + 1, l[at].fd))
            && PrevSame(Without(l, p), i, l[at].fd) == (if at == j then At(l, k) else PrevSame(l, at, l[at].fd))
  {
    NextSameWithout(l, p, at + 1, l[at].fd);
    PrevSameWithout(l, p, at, l[at].fd);
    NextIsPrev(l, at, p);
    NextIsPrev(l, p, at);
    hide NextSame, PrevSame;
    assert At(l, j) == l[at] ==> j == at;
    assert At(l, k) == l[at] ==> k == at;
    var m := NextSameAt(l, at + 1, l[at].fd);
    var n := PrevSameAt(l, at, l[at].fd);
  }

  lemma {:induction false} WithoutIs<T>(s: seq<T>, p: nat, r: seq<T>)
    requires p < |s| && |r| == |s| - 1
    requires forall at :: 0 <= at < |s| && at != p ==> r[if at < p then at else at - 1] == s[at]
    ensures r == Without(s, p)
  {
    forall i | 0 <= i < |r|
      ensures r[i] == Without(s, p)[i]
    {
      assert s[if i < p then i else i + 1] == r[i];
    }
  }

  /** The neighbours without element p, which was between k and j. */
  lemma {:induction false} NeighboursWithout(l: seq<EvFile>, p: nat, j: nat, k: int)
    requires Distinct(l) && p < j <= |l| && -1 <= k < p
    requires NextSame(l, p + 1, l[p].fd) == At(l, j) && PrevSame(l, p, l[p].fd) == At(l, k)
    requires (j < |l| ==> l[j].fd == l[p].fd) && (k >= 0 ==> l[k].fd == l[p].fd)
    ensures Nexts(Without(l, p)) == Without(Put(Nexts(l), k, At(l, j)), p)
    ensures Prevs(Without(l, p)) == Without(Put(Prevs(l), j, At(l, k)), p)
  {
    hide NextSame, PrevSame, Distinct, Without;
    var w, n, q := Without(l, p), Put(Nexts(l), k, At(l, j)), Put(Prevs(l), j, At(l, k));
    forall at | 0 <= at < |l| && at != p
      ensures Nexts(w)[if at < p then at else at - 1] == n[at]
      ensures Prevs(w)[if at < p then at else at - 1] == q[at]
    {
      NeighbourWithout(l, p, j, k, at);
      WithoutAt(l, p, at);
    }
    WithoutIs(n, p, Nexts(w));
    WithoutIs(q, p, Prevs(w));
  }

  lemma {:induction false} WithoutAt<T>(s: seq<T>, p: nat, at: nat)
    requires p < |s| && at < |s| && at != p
    ensures Without(s, p)[if at < p then at else at - 1] == s[at]
  {
  }
}
