/** Insertion into and removal from the list of all registrations, and the lists of each descriptor
    (the list handling in `evSelectFD` and `evDeselectFD`, isc/ev_files.c). */
module EvThreads {
  import opened Scan
  import opened EvFileList

  /** next and prev lead through l. */
  ghost predicate Threaded(l: seq<EvFile>, files: EvFile?)
    reads l`next, l`prev
  {
    && files == At(l, 0)
    && (forall i {:trigger l[i].next} :: 0 <= i < |l| ==> l[i].next == At(l, i + 1))
    && (forall i {:trigger l[i].prev} :: 0 <= i < |l| ==> l[i].prev == At(l, i - 1))
  }

  /** fdnext and fdprev of the registrations. */
  ghost predicate Pointers(l: seq<EvFile>, nexts: seq<EvFile?>, prevs: seq<EvFile?>)
    reads l`fdnext, l`fdprev
  {
    && |l| == |nexts| == |prevs|
    && forall i :: 0 <= i < |l| ==> l[i].fdnext == nexts[i] && l[i].fdprev == prevs[i]
  }

  /** From any registration fdnext and fdprev lead to the neighbours with the same descriptor, and the table
      leads to the first ones. */
  ghost predicate FdThreaded(l: seq<EvFile>, table: array<EvFile?>)
    reads l`fdnext, l`fdprev, table
  {
    Pointers(l, Nexts(l), Prevs(l)) && table[..] == Heads(l, table.Length)
  }

  lemma {:induction false} FollowedBy(l: seq<EvFile>, files: EvFile?, p: nat)
    requires Threaded(l, files) && p < |l|
    ensures l[p].next == At(l, p + 1)
  {
  }

  /** Insertion at the head of the list of files. */
  method Push(files: EvFile?, id: EvFile, ghost l: seq<EvFile>)
    requires Threaded(l, files) && Distinct([id] + l)
    modifies id`prev, id`next, l`prev
    ensures Threaded([id] + l, id)
  {
    if files != null {
      files.prev := id;
    }
    id.prev := null;
    id.next := files;
  }

  /** Removal from the list of files; the result is the new head. */
  method Unlink(files: EvFile?, del: EvFile, ghost l: seq<EvFile>, ghost p: nat) returns (head: EvFile?)
    requires Threaded(l, files) && Distinct(l) && p < |l| && l[p] == del
    modifies l`next, l`prev
    ensures Threaded(Without(l, p), head)
    ensures del.next == old(del.next) && del.prev == old(del.prev)
  {
    head := files;
    if del.prev != null {
      assert del.prev == l[p - 1];
      del.prev.next := del.next;
    } else {
      head := del.next;
    }
    if del.next != null {
      assert del.next == l[p + 1];
      del.next.prev := del.prev;
    }
  }

  /** A store to the fdprev of element j, if there is such an element. */
  method SetFdPrev(f: EvFile?, x: EvFile?, ghost l: seq<EvFile>, ghost nexts: seq<EvFile?>, ghost prevs: seq<EvFile?>,
                   ghost j: int)
    requires Pointers(l, nexts, prevs) && Distinct(l) && f == At(l, j)
    modifies (if f == null then {} else {f})`fdprev
    ensures Pointers(l, nexts, Put(prevs, j, x))
  {
    if f != null {
      f.fdprev := x;
    }
  }

  method SetFdNext(f: EvFile?, x: EvFile?, ghost l: seq<EvFile>, ghost nexts: seq<EvFile?>, ghost prevs: seq<EvFile?>,
                   ghost k: int)
    requires Pointers(l, nexts, prevs) && Distinct(l) && f == At(l, k)
    modifies (if f == null then {} else {f})`fdnext
    ensures Pointers(l, Put(nexts, k, x), prevs)
  {
    if f != null {
      f.fdnext := x;
    }
  }

  lemma {:induction false} PointersPushed(l: seq<EvFile>, f: EvFile, nexts: seq<EvFile?>, prevs: seq<EvFile?>)
    requires Pointers(l, nexts, prevs)
    ensures Pointers([f] + l, [f.fdnext] + nexts, [f.fdprev] + prevs)
  {
  }

  lemma {:induction false} PointersWithout(l: seq<EvFile>, p: nat, nexts: seq<EvFile?>, prevs: seq<EvFile?>)
    requires Pointers(l, nexts, prevs) && p < |l|
    ensures Pointers(Without(l, p), Without(nexts, p), Without(prevs, p))
  {
  }

  /** Insertion at the head of the list of the descriptor. */
  method FdPush(table: array<EvFile?>, id: EvFile, ghost l: seq<EvFile>)
    requires FdThreaded(l, table) && Distinct(l) && id !in l && 0 <= id.fd < table.Length
    modifies table, id`fdprev, id`fdnext, l`fdprev
    ensures FdThreaded([id] + l, table)
  {
    ghost var j := NextSameAt(l, 0, id.fd);
    assert table[..][id.fd] == NextSame(l, 0, id.fd);
    HeadsPushed(l, id, table.Length);
    NeighboursPushed(l, id, j);
    hide NextSame, PrevSame, Nexts, Prevs, Heads, Pointers, Distinct, Put;
    ghost var heads := table[..];
    SetFdPrev(table[id.fd], id, l, Nexts(l), Prevs(l), j);
    id.fdprev := null;
    id.fdnext := table[id.fd];
    table[id.fd] := id;
    PointersPushed(l, id, Nexts(l), Put(Prevs(l), j, id));
    assert table[..] == heads[id.fd := id];
  }

  lemma {:induction false} Neighbours(l: seq<EvFile>, p: nat)
    requires Pointers(l, Nexts(l), Prevs(l)) && p < |l|
    ensures l[p].fdnext == NextSame(l, p + 1, l[p].fd) && l[p].fdprev == PrevSame(l, p, l[p].fd)
  {
    assert l[p].fdnext == Nexts(l)[p];
  }

  lemma {:induction false} Apart(l: seq<EvFile>, k: int, p: nat)
    requires Distinct(l) && p < |l| && k != p
    ensures At(l, k) != l[p]
  {
  }

  lemma {:induction false} HeadOf(l: seq<EvFile>, table: array<EvFile?>, fd: int)
    requires FdThreaded(l, table) && 0 <= fd < table.Length
    ensures table[fd] == NextSame(l, 0, fd)
  {
    assert table[..][fd] == NextSame(l, 0, fd);
  }

  method SetHead(table: array<EvFile?>, del: EvFile)
    requires 0 <= del.fd < table.Length
    modifies table
    ensures table[..] == Put(old(table[..]), if del.fdprev == null then del.fd else -1, del.fdnext)
  {
    if del.fdprev == null {
      table[del.fd] := del.fdnext;
    }
  }

  /** Removal from the list of the descriptor. */
  method FdUnlink(table: array<EvFile?>, del: EvFile, ghost l: seq<EvFile>, ghost p: nat)
    requires FdThreaded(l, table) && Distinct(l) && p < |l| && l[p] == del && 0 <= del.fd < table.Length
    modifies table, l`fdnext, l`fdprev
    ensures FdThreaded(Without(l, p), table)
  {
    hide NextSame, PrevSame, Nexts, Prevs, Heads, Pointers, Distinct, Without, Put;
    ghost var j := NextSameAt(l, p + 1, del.fd);
    ghost var k := PrevSameAt(l, p, del.fd);
    HeadsWithout(l, p, table.Length);
    NeighboursWithout(l, p, j, k);
    Neighbours(l, p);
    Apart(l, k, p);
    SetHead(table, del);
    SetFdNext(del.fdprev, del.fdnext, l, Nexts(l), Prevs(l), k);
    SetFdPrev(del.fdnext, del.fdprev, l, Put(Nexts(l), k, At(l, j)), Prevs(l), j);
    PointersWithout(l, p, Put(Nexts(l), k, At(l, j)), Put(Prevs(l), j, At(l, k)));
  }

  /** The registrations of fd from position i on, in the order of the list. */
  function Chain(l: seq<EvFile>, i: nat, fd: int): seq<EvFile>
    decreases |l| - i
  {
    if i >= |l| then [] else if l[i].fd == fd then [l[i]] + Chain(l, i + 1, fd) else Chain(l, i + 1, fd)
  }

  /** From f the pointers fdnext lead through c and then to null. */
  ghost predicate Leads(f: EvFile?, c: seq<EvFile>)
    reads c`fdnext
  {
    if c == [] then f == null else f == c[0] && Leads(c[0].fdnext, c[1..])
  }

  lemma {:induction false} LeadsOn(f: EvFile, c: seq<EvFile>)
    requires Leads(f.fdnext, c)
    ensures Leads(f, [f] + c)
  {
    assert ([f] + c)[1..] == c;
  }

  lemma {:induction false} ChainStep(l: seq<EvFile>, i: nat, fd: int)
    requires i < |l|
    ensures Chain(l, i, fd) == if l[i].fd == fd then [l[i]] + Chain(l, i + 1, fd) else Chain(l, i + 1, fd)
    ensures NextSame(l, i, fd) == if l[i].fd == fd then l[i] else NextSame(l, i + 1, fd)
  {
  }

  lemma {:induction false} ChainEnd(l: seq<EvFile>, fd: int)
    ensures Leads(NextSame(l, |l|, fd), Chain(l, |l|, fd))
  {
  }

  lemma {:induction false} ChainFrom(l: seq<EvFile>, i: nat, fd: int)
    requires Pointers(l, Nexts(l), Prevs(l)) && i <= |l|
    ensures Leads(NextSame(l, i, fd), Chain(l, i, fd))
    decreases |l| - i
  {
    hide NextSame, PrevSame, Nexts, Prevs, Chain, Leads, Pointers;
    if i == |l| {
      ChainEnd(l, fd);
    } else {
      ChainFrom(l, i + 1, fd);
      ChainStep(l, i, fd);
      if l[i].fd == fd {
        Neighbours(l, i);
        LeadsOn(l[i], Chain(l, i + 1, fd));
      }
    }
  }

  /** The list in the table for a descriptor is the list of files without those of other descriptors. */
  lemma {:induction false} TableLeads(l: seq<EvFile>, table: array<EvFile?>, fd: int)
    requires FdThreaded(l, table) && 0 <= fd < table.Length
    ensures Leads(table[fd], Chain(l, 0, fd))
  {
    HeadOf(l, table, fd);
    ChainFrom(l, 0, fd);
  }
}
