/** The registry of file descriptors of an event context (isc/ev_files.c). */
module EvFiles {
  import opened Options
  import opened Scan
  import opened EvFileList
  import opened EvThreads

  /** Three of the `fd_set` fields of the context. */
  datatype FdSets = FdSets(rd: set<int>, wr: set<int>, ex: set<int>) {
    function Of(k: Kind): set<int> {
      match k case Read => rd case Write => wr case Except => ex
    }

    /** The number of bits that are set. */
    function Count(): nat {
      |rd| + |wr| + |ex|
    }

    /** FD_CLR */
    function Clr(k: Kind, fd: int): FdSets {
      match k
      case Read => FdSets(rd - {fd}, wr, ex)
      case Write => FdSets(rd, wr - {fd}, ex)
      case Except => FdSets(rd, wr, ex - {fd})
    }

    /** FD_SET for every bit of the mask. */
    function Set(mask: set<Kind>, fd: int): FdSets {
      FdSets(if Read in mask then rd + {fd} else rd, if Write in mask then wr + {fd} else wr,
             if Except in mask then ex + {fd} else ex)
    }
  }

  lemma {:induction false} ClrIs(s: FdSets, k: Kind, fd: int)
    ensures forall j :: s.Clr(k, fd).Of(j) == if j == k then s.Of(j) - {fd} else s.Of(j)
    ensures s.Clr(k, fd).Count() == s.Count() - if fd in s.Of(k) then 1 else 0
  {
    assert fd !in s.Of(k) ==> s.Of(k) - {fd} == s.Of(k);
  }

  lemma {:induction false} SetIs(s: FdSets, mask: set<Kind>, fd: int)
    ensures forall k :: s.Set(mask, fd).Of(k) == s.Of(k) + if k in mask then {fd} else {}
  {
  }

  /** The descriptors of the process and their O_NONBLOCK flags. */
  class Kernel {
    var open: set<int>
    var nonblock: set<int>

    /** fcntl with F_GETFL: the flag, or an error (EBADF). */
    method GetFlags(fd: int) returns (mode: Option<bool>)
      ensures mode == if fd in open then Some(fd in nonblock) else None
    {
      mode := if fd in open then Some(fd in nonblock) else None;
    }

    /** fcntl with F_SETFL */
    method SetFlags(fd: int, on: bool)
      modifies `nonblock
      ensures nonblock == if on then old(nonblock) + {fd} else old(nonblock) - {fd}
    {
      nonblock := if on then nonblock + {fd} else nonblock - {fd};
    }
  }

  datatype Status = Ok | EINVAL | EBADF | ETOOMANYREFS

  /** The bits of an event mask. */
  function Kinds(mask: int): (s: set<Kind>)
    requires 0 <= mask <= 7
    ensures s == {} <==> mask == 0
  {
    (if mask % 2 == 1 then {Read} else {}) + (if mask / 2 % 2 == 1 then {Write} else {})
    + (if mask / 4 == 1 then {Except} else {})
  }

  /** EV_READ, EV_WRITE and EV_EXCEPT are the bits 1, 2 and 4. */
  lemma {:induction false} KindsAreBits(mask: bv3)
    ensures var s := Kinds(mask as int);
            && (Read in s <==> mask & 1 != 0) && (Write in s <==> mask & 2 != 0) && (Except in s <==> mask & 4 != 0)
  {
    if mask & 1 == 0 {
      if mask & 2 == 0 {
        if mask & 4 == 0 { assert mask == 0; } else { assert mask == 4; }
      } else {
        if mask & 4 == 0 { assert mask == 2; } else { assert mask == 6; }
      }
    } else {
      if mask & 2 == 0 {
        if mask & 4 == 0 { assert mask == 1; } else { assert mask == 5; }
      } else {
        if mask & 4 == 0 { assert mask == 3; } else { assert mask == 7; }
      }
    }
  }

  /** The events for which the registrations of fd from position i on are waiting. */
  function Masks(l: seq<EvFile>, i: nat, fd: int): set<Kind>
    decreases |l| - i
  {
    if i >= |l| then {} else (if l[i].fd == fd then l[i].eventmask else {}) + Masks(l, i + 1, fd)
  }

  lemma {:induction false} MasksAt(l: seq<EvFile>, i: nat, fd: int, k: Kind)
    ensures k in Masks(l, i, fd) <==> exists j :: i <= j < |l| && l[j].fd == fd && k in l[j].eventmask
    decreases |l| - i
  {
    if i < |l| {
      MasksAt(l, i + 1, fd, k);
    }
  }

  lemma {:induction false} MasksPushed(l: seq<EvFile>, f: EvFile, i: nat, fd: int)
    ensures Masks([f] + l, i + 1, fd) == Masks(l, i, fd)
    decreases |l| - i
  {
    if i < |l| {
      MasksPushed(l, f, i + 1, fd);
    }
  }

  /** Without element p the masks of other descriptors are as before. */
  lemma {:induction false} MasksWithout(l: seq<EvFile>, p: nat, fd: int)
    requires p < |l| && fd != l[p].fd
    ensures Masks(Without(l, p), 0, fd) == Masks(l, 0, fd)
  {
    forall k
      ensures k in Masks(Without(l, p), 0, fd) <==> k in Masks(l, 0, fd)
    {
      MasksAt(l, 0, fd, k);
      MasksAt(Without(l, p), 0, fd, k);
      forall j | 0 <= j < |l| && j != p
        ensures Without(l, p)[if j < p then j else j - 1] == l[j]
      {
        WithoutAt(l, p, j);
      }
    }
  }

  /** No two registrations of a descriptor wait for the same event. */
  ghost predicate Exclusive(l: seq<EvFile>) {
    forall i, j :: 0 <= i < j < |l| && l[i].fd == l[j].fd ==> l[i].eventmask * l[j].eventmask == {}
  }

  ghost predicate InRange(l: seq<EvFile>, n: nat) {
    forall i :: 0 <= i < |l| ==> 0 <= l[i].fd < n && l[i].eventmask != {}
  }

  /** m is the largest descriptor registered, or -1. */
  ghost predicate IsMax(l: seq<EvFile>, m: int) {
    m >= -1 && (forall i :: 0 <= i < |l| ==> l[i].fd <= m) && (m >= 0 ==> exists i :: 0 <= i < |l| && l[i].fd == m)
  }

  /** The Next sets are the union of the registered masks. */
  ghost predicate Waiting(l: seq<EvFile>, next: FdSets) {
    forall k, fd :: fd in next.Of(k) <==> k in Masks(l, 0, fd)
  }

  /** The flags remembered for the registered descriptors are their original ones. */
  ghost predicate Before(l: seq<EvFile>, original: map<int, bool>, nonblockBefore: set<int>) {
    forall i :: 0 <= i < |l| ==> l[i].fd in original && (original[l[i].fd] <==> l[i].fd in nonblockBefore)
  }

  lemma {:induction false} WaitingPushed(l: seq<EvFile>, f: EvFile, next: FdSets)
    requires Waiting(l, next)
    ensures Waiting([f] + l, next.Set(f.eventmask, f.fd))
    ensures forall k :: next.Of(k) <= next.Set(f.eventmask, f.fd).Of(k)
  {
    SetIs(next, f.eventmask, f.fd);
    var m := [f] + l;
    forall k, fd
      ensures fd in next.Set(f.eventmask, f.fd).Of(k) <==> k in Masks(m, 0, fd)
    {
      MasksPushed(l, f, 0, fd);
      assert Masks(m, 0, fd) == (if f.fd == fd then f.eventmask else {}) + Masks(m, 1, fd);
    }
  }

  /** A registration of an event that nobody waits for keeps the masks apart. */
  lemma {:induction false} ExclusivePushed(l: seq<EvFile>, f: EvFile)
    requires Exclusive(l) && Masks(l, 0, f.fd) * f.eventmask == {}
    ensures Exclusive([f] + l)
  {
    forall j | 0 <= j < |l| && l[j].fd == f.fd
      ensures f.eventmask * l[j].eventmask == {}
    {
      forall k | k in l[j].eventmask
        ensures k !in f.eventmask
      {
        MasksAt(l, 0, f.fd, k);
        assert k !in Masks(l, 0, f.fd) * f.eventmask;
      }
    }
  }

  /** The masks of a descriptor meet the mask given where a search for it ends. */
  lemma {:induction false} FoundMasks(l: seq<EvFile>, j: nat, fd: int, mask: set<Kind>)
    requires j <= |l| && forall i :: 0 <= i < j && l[i].fd == fd ==> l[i].eventmask * mask == {}
    requires j < |l| ==> l[j].fd == fd && l[j].eventmask * mask != {}
    ensures Masks(l, 0, fd) * mask == {} <==> j == |l|
  {
    if j < |l| {
      var k :| k in l[j].eventmask * mask;
      MasksAt(l, 0, fd, k);
      assert k in Masks(l, 0, fd) * mask;
    } else {
      forall k | k in mask
        ensures k !in Masks(l, 0, fd)
      {
        MasksAt(l, 0, fd, k);
        assert forall i :: 0 <= i < |l| && l[i].fd == fd ==> k !in l[i].eventmask * mask;
      }
    }
  }

  lemma {:induction false} MaskAll(mask: set<Kind>)
    ensures mask * ALL == mask
  {
    forall k | k in mask
      ensures k in ALL
    {
      match k case Read => case Write => case Except =>
    }
  }

  lemma {:induction false} LonelyPushed(l: seq<EvFile>, f: EvFile, n: nat)
    requires Distinct(l) && InRange(l, n) && f !in l && 0 <= f.fd < n && f.eventmask != {}
    ensures Distinct([f] + l) && InRange([f] + l, n)
  {
  }

  lemma {:induction false} MaxPushed(l: seq<EvFile>, f: EvFile, m: int)
    requires IsMax(l, m) && f.fd >= 0
    ensures IsMax([f] + l, if f.fd > m then f.fd else m)
  {
    assert ([f] + l)[0] == f;
    assert forall i :: 0 <= i < |l| ==> ([f] + l)[i + 1] == l[i];
  }

  /** A descriptor that nobody uses may be remembered anew. */
  lemma {:induction false} BeforeFirst(l: seq<EvFile>, n: nat, original: map<int, bool>, nonblockBefore: set<int>,
                                       fd: int, on: bool)
    requires Before(l, original, nonblockBefore) && InRange(l, n) && Masks(l, 0, fd) == {}
    ensures Before(l, original[fd := on], if on then nonblockBefore + {fd} else nonblockBefore - {fd})
  {
    forall i | 0 <= i < |l|
      ensures l[i].fd != fd
    {
      var k :| k in l[i].eventmask;
      MasksAt(l, 0, l[i].fd, k);
      assert k in Masks(l, 0, l[i].fd);
    }
  }

  lemma {:induction false} BeforeKnown(l: seq<EvFile>, original: map<int, bool>, nonblockBefore: set<int>, fd: int)
    requires Before(l, original, nonblockBefore) && Masks(l, 0, fd) != {}
    ensures fd in original && (original[fd] <==> fd in nonblockBefore)
  {
    var k :| k in Masks(l, 0, fd);
    MasksAt(l, 0, fd, k);
  }

  lemma {:induction false} BeforePushed(l: seq<EvFile>, original: map<int, bool>, nonblockBefore: set<int>, f: EvFile)
    requires Before(l, original, nonblockBefore)
    requires f.fd in original && (original[f.fd] <==> f.fd in nonblockBefore)
    ensures Before([f] + l, original, nonblockBefore)
  {
  }

  lemma {:induction false} MasksShifted(l: seq<EvFile>, p: nat, fd: int, k: Kind)
    requires p < |l|
    ensures k in Masks(Without(l, p), 0, fd) ==> k in Masks(l, 0, fd)
  {
    MasksAt(l, 0, fd, k);
    MasksAt(Without(l, p), 0, fd, k);
    assert forall j :: 0 <= j < |l| - 1 ==> Without(l, p)[j] == l[if j < p then j else j + 1];
  }

  function ClrUnless(s: FdSets, k: Kind, fd: int, mask: set<Kind>): FdSets {
    if k in mask then s else s.Clr(k, fd)
  }

  /** The bits of fd that are left when those outside the mask are cleared. */
  function Rest(s: FdSets, fd: int, mask: set<Kind>): FdSets {
    ClrUnless(ClrUnless(ClrUnless(s, Read, fd, mask), Write, fd, mask), Except, fd, mask)
  }

  lemma {:induction false} RestIs(s: FdSets, fd: int, mask: set<Kind>, k: Kind)
    ensures Rest(s, fd, mask).Of(k) == if k in mask then s.Of(k) else s.Of(k) - {fd}
  {
  }

  /** The bits of fd are cleared for the events that nobody waits for, and no others. */
  ghost predicate Cleared(l: seq<EvFile>, fd: int, s: FdSets, t: FdSets) {
    forall k :: t.Of(k) == if k in Masks(l, 0, fd) then s.Of(k) else s.Of(k) - {fd}
  }

  lemma {:induction false} RestCleared(l: seq<EvFile>, fd: int, s: FdSets)
    ensures Cleared(l, fd, s, Rest(s, fd, Masks(l, 0, fd)))
  {
    forall k
      ensures Rest(s, fd, Masks(l, 0, fd)).Of(k) == if k in Masks(l, 0, fd) then s.Of(k) else s.Of(k) - {fd}
    {
      RestIs(s, fd, Masks(l, 0, fd), k);
    }
  }

  /** The Next sets, when the bits of the descriptor are cleared for which nobody waits any more. */
  lemma {:induction false} WaitingWithout(l: seq<EvFile>, p: nat, next: FdSets, cleared: FdSets)
    requires p < |l| && Waiting(l, next)
    requires Cleared(Without(l, p), l[p].fd, next, cleared)
    ensures Waiting(Without(l, p), cleared)
  {
    forall k, fd
      ensures fd in cleared.Of(k) <==> k in Masks(Without(l, p), 0, fd)
    {
      if fd == l[p].fd {
        MasksShifted(l, p, fd, k);
      } else {
        MasksWithout(l, p, fd);
      }
    }
  }

  lemma {:induction false} LonelyWithout(l: seq<EvFile>, p: nat, n: nat)
    requires Distinct(l) && InRange(l, n) && Exclusive(l) && p < |l|
    ensures Distinct(Without(l, p)) && InRange(Without(l, p), n) && Exclusive(Without(l, p))
  {
  }

  lemma {:induction false} BeforeWithout(l: seq<EvFile>, p: nat, original: map<int, bool>, nonblockBefore: set<int>)
    requires Before(l, original, nonblockBefore) && p < |l|
    ensures Before(Without(l, p), original, nonblockBefore)
  {
  }

  lemma {:induction false} MaxWithout(l: seq<EvFile>, p: nat, m: int)
    requires IsMax(l, m) && p < |l| && l[p].fd != m
    ensures IsMax(Without(l, p), m)
  {
    if m >= 0 {
      var i :| 0 <= i < |l| && l[i].fd == m;
      WithoutAt(l, p, i);
    }
  }

  lemma {:induction false} RangeAt(l: seq<EvFile>, n: nat, p: nat)
    requires InRange(l, n) && p < |l|
    ensures 0 <= l[p].fd < n
  {
  }

  lemma {:induction false} BeforeAt(l: seq<EvFile>, original: map<int, bool>, nonblockBefore: set<int>, p: nat)
    requires Before(l, original, nonblockBefore) && p < |l|
    ensures l[p].fd in original && (original[l[p].fd] <==> l[p].fd in nonblockBefore)
  {
  }

  lemma {:induction false} InWithout(l: seq<EvFile>, p: nat, f: EvFile)
    requires p < |l| && f in l && f != l[p]
    ensures f in Without(l, p)
  {
    var i :| 0 <= i < |l| && l[i] == f;
    WithoutAt(l, p, i);
  }

  /** The file part of `evContext_p`. */
  class Files {
    const fdTable: array<EvFile?>
    const highestFD: int
    var files: EvFile?
    var fdNext: EvFile?
    var next: FdSets  // rdNext, wrNext, exNext
    var last: FdSets  // rdLast, wrLast, exLast
    var nonblockBefore: set<int>
    var fdMax: int
    var fdCount: int

    /** The registrations, in the order of the list of files. */
    ghost var list: seq<EvFile>

    /** The O_NONBLOCK flags of the registered descriptors before their first registrations. */
    ghost var original: map<int, bool>

    ghost predicate Linked()
      reads `files, `list, fdTable, list
    {
      && highestFD + 1 == fdTable.Length && Distinct(list) && InRange(list, fdTable.Length)
      && Threaded(list, files) && FdThreaded(list, fdTable)
    }

    ghost predicate Recorded()
      reads `list, `next, `fdMax, `fdNext, `original, `nonblockBefore
    {
      && Exclusive(list) && IsMax(list, fdMax) && (fdNext == null || fdNext in list)
      && Waiting(list, next) && Before(list, original, nonblockBefore)
    }

    /** The events that are counted as ready have their bits set, and someone waits for them. */
    ghost predicate Accounted()
      reads `fdCount, `last, `next
    {
      && fdCount <= last.Count()
      && (fdCount > 0 ==> forall k :: last.Of(k) <= next.Of(k))
    }

    ghost predicate Valid()
      reads this, fdTable, list
    {
      Linked() && Recorded() && Accounted()
    }

    /** `evCreate`, which leaves the Last sets as they are in the memory it gets. */
    constructor (highestFD: int, garbage: FdSets)
      requires highestFD >= -1
      ensures Valid() && list == [] && fdCount == 0 && fresh(fdTable)
    {
      this.highestFD := highestFD;
      fdTable := new EvFile?[highestFD + 1](_ => null);
      files, fdNext, nonblockBefore, fdMax, fdCount := null, null, {}, -1, 0;
      next, last := FdSets({}, {}, {}), garbage;
      list, original := [], map[];
      new;
      assert fdTable[..] == Heads([], fdTable.Length);
    }

    /** `FindFD`: the first registration of fd with an event of the mask. */
    method FindFD(fd: int, mask: set<Kind>) returns (id: EvFile?, ghost j: nat)
      requires Linked() && 0 <= fd < fdTable.Length
      ensures j <= |list| && id == At(list, j)
      ensures forall i :: 0 <= i < j && list[i].fd == fd ==> list[i].eventmask * mask == {}
      ensures j < |list| ==> list[j].fd == fd && list[j].eventmask * mask != {}
      ensures id != null ==> id in list && id.fd == fd && id.eventmask * mask != {}
      ensures id == null ==> forall i :: 0 <= i < |list| && list[i].fd == fd ==> list[i].eventmask * mask == {}
    {
      hide NextSame, PrevSame, Nexts, Prevs, Heads, Pointers, Threaded, Distinct, InRange;
      HeadOf(list, fdTable, fd);
      id := fdTable[fd];
      j := NextSameAt(list, 0, fd);
      while id != null && !(id.fd == fd && id.eventmask * mask != {})
        invariant j <= |list|
        invariant id == At(list, j)
        invariant (j < |list| ==> list[j].fd == fd)
        invariant forall i :: 0 <= i < j && list[i].fd == fd ==> list[i].eventmask * mask == {}
        decreases |list| - j
      {
        assert Pointers(list, Nexts(list), Prevs(list));
        Neighbours(list, j);
        id := id.fdnext;
        j := NextSameAt(list, j + 1, fd);
      }
    }

    /** The end of `evSelectFD`: the new registration comes first everywhere. */
    method Register(id: EvFile)
      requires Linked() && Exclusive(list) && IsMax(list, fdMax) && Waiting(list, next) && Accounted()
      requires id !in list && 0 <= id.fd < fdTable.Length && id.eventmask != {}
      requires Masks(list, 0, id.fd) * id.eventmask == {}
      modifies `files, `next, `fdMax, `list, fdTable, id, list
      ensures Linked() && list == [id] + old(list)
      ensures Exclusive(list) && IsMax(list, fdMax) && Waiting(list, next) && Accounted()
    {
      hide Threaded, FdThreaded, Waiting, Exclusive, Masks, IsMax, Distinct, InRange;
      LonelyPushed(list, id, fdTable.Length);
      ExclusivePushed(list, id);
      WaitingPushed(list, id, next);
      MaxPushed(list, id, fdMax);
      Push(files, id, list);
      files := id;
      FdPush(fdTable, id, list);
      next := next.Set(id.eventmask, id.fd);
      if id.fd > fdMax {
        fdMax := id.fd;
      }
      list := [id] + list;
    }

    /** The part of `evSelectFD` for a descriptor that is not registered: it is made non-blocking. */
    method FirstUse(kernel: Kernel, fd: int, mode: bool)
      requires Before(list, original, nonblockBefore) && InRange(list, fdTable.Length) && Masks(list, 0, fd) == {}
      requires mode == (fd in kernel.nonblock)
      modifies `original, `nonblockBefore, kernel`nonblock
      ensures Before(list, original, nonblockBefore)
      ensures original == old(original)[fd := mode] && kernel.nonblock == old(kernel.nonblock) + {fd}
      ensures fd in original && (original[fd] <==> fd in nonblockBefore)
    {
      BeforeFirst(list, fdTable.Length, original, nonblockBefore, fd, mode);
      hide Before, InRange, Masks;
      if mode {
        nonblockBefore := nonblockBefore + {fd};
      } else {
        kernel.SetFlags(fd, true);
        nonblockBefore := nonblockBefore - {fd};
      }
      original := original[fd := mode];
    }

    /** The checks of `evSelectFD`, before anything changes. */
    method MaySelect(kernel: Kernel, fd: int, eventmask: int) returns (r: Status, first: bool, mode: bool)
      requires Linked() && forall d :: d in kernel.open ==> d >= 0
      ensures r == if eventmask == 0 || !(0 <= eventmask <= 7) || fd > highestFD then EINVAL
                   else if fd !in kernel.open then EBADF
                   else if Masks(list, 0, fd) * Kinds(eventmask) != {} then ETOOMANYREFS
                   else Ok
      ensures r == Ok ==> mode == (fd in kernel.nonblock) && first == (Masks(list, 0, fd) == {})
    {
      hide Threaded, FdThreaded, Distinct, Masks, InRange;
      first, mode := false, false;
      if eventmask == 0 || !(0 <= eventmask <= 7) {
        return EINVAL, first, mode;
      }
      if fd > highestFD {
        return EINVAL, first, mode;
      }
      var flags := kernel.GetFlags(fd);
      if flags.None? {
        return EBADF, first, mode;
      }
      mode := flags.value;
      var used, j := FindFD(fd, ALL);
      FoundMasks(list, j, fd, ALL);
      MaskAll(Masks(list, 0, fd));
      first := used == null;
      if used != null {
        var taken, t := FindFD(fd, Kinds(eventmask));
        FoundMasks(list, t, fd, Kinds(eventmask));
        if taken != null {
          return ETOOMANYREFS, first, mode;
        }
      }
      return Ok, first, mode;
    }

    /** `evSelectFD` */
    method SelectFD(kernel: Kernel, fd: int, eventmask: int, func: nat) returns (r: Status, id: EvFile?)
      requires Valid() && forall d :: d in kernel.open ==> d >= 0
      modifies `files, `next, `fdMax, `list, `original, `nonblockBefore, fdTable, list, kernel`nonblock
      ensures Valid()
      ensures r == if eventmask == 0 || !(0 <= eventmask <= 7) || fd > highestFD then EINVAL
                   else if fd !in kernel.open then EBADF
                   else if Masks(old(list), 0, fd) * Kinds(eventmask) != {} then ETOOMANYREFS
                   else Ok
      ensures r != Ok ==> id == null && list == old(list) && next == old(next)
      ensures r != Ok ==> original == old(original) && kernel.nonblock == old(kernel.nonblock)
      ensures r == Ok ==> id != null && fresh(id) && list == [id] + old(list)
      ensures r == Ok ==> id.fd == fd && id.eventmask == Kinds(eventmask) && id.func == func
      ensures r == Ok && Masks(old(list), 0, fd) == {} ==>
                kernel.nonblock == old(kernel.nonblock) + {fd} && original == old(original)[fd := fd in old(kernel.nonblock)]
      ensures r == Ok && Masks(old(list), 0, fd) != {} ==>
                kernel.nonblock == old(kernel.nonblock) && original == old(original)
    {
      hide Threaded, FdThreaded, Distinct, Waiting, Exclusive, Masks, IsMax, Before, InRange;
      id := null;
      var first, mode;
      r, first, mode := MaySelect(kernel, fd, eventmask);
      if r == Ok {
        if first {
          FirstUse(kernel, fd, mode);
        } else {
          BeforeKnown(list, original, nonblockBefore, fd);
        }
        id := new EvFile(fd, Kinds(eventmask), func);
        BeforePushed(list, original, nonblockBefore, id);
        Register(id);
      }
    }

    /** The scan in `evDeselectFD` for the events that others wait for, from the first registration of fd on. */
    method RemainingMask(first: EvFile?, ghost j: nat, fd: int) returns (eventmask: set<Kind>)
      requires Threaded(list, files) && j <= |list| && first == At(list, j)
      requires forall i :: 0 <= i < j ==> list[i].fd != fd
      ensures eventmask == Masks(list, 0, fd)
    {
      MasksFrom(list, 0, j, fd);
      hide Masks;
      eventmask := {};
      var cur := first;
      ghost var i := j;
      while cur != null && eventmask != ALL
        invariant i <= |list| && cur == At(list, i)
        invariant eventmask + Masks(list, i, fd) == Masks(list, 0, fd)
        decreases |list| - i
      {
        MasksStep(list, i, fd);
        if cur.fd == fd {
          eventmask := eventmask + cur.eventmask;
        }
        cur := cur.next;
        i := i + 1;
      }
      if cur == null {
        MasksFrom(list, |list|, |list|, fd);
        MasksEnd(list, fd);
      } else {
        MaskAll(Masks(list, i, fd));
      }
    }

    /** FD_CLR for an event that nobody waits for, in the Next and the Last set. */
    method ClearKind(k: Kind, fd: int, eventmask: set<Kind>)
      requires Accounted()
      modifies `next, `last, `fdCount
      ensures Accounted()
      ensures next == if k in eventmask then old(next) else old(next).Clr(k, fd)
      ensures last == if k in eventmask then old(last) else old(last).Clr(k, fd)
      ensures fdCount - last.Count() == old(fdCount) - old(last.Count())
    {
      if k !in eventmask {
        ClrIs(last, k, fd);
        ClrIs(next, k, fd);
        next := next.Clr(k, fd);
        if fd in last.Of(k) {
          fdCount := fdCount - 1;
        }
        last := last.Clr(k, fd);
      }
    }

    /** The clearing of bits in `evDeselectFD`. */
    method ClearKinds(fd: int, eventmask: set<Kind>)
      requires Accounted() && Linked()
      modifies `next, `last, `fdCount
      ensures Linked() && Accounted() && next == Rest(old(next), fd, eventmask) && last == Rest(old(last), fd, eventmask)
      ensures fdCount - last.Count() == old(fdCount) - old(last.Count())
    {
      hide Accounted, FdSets.Clr, FdSets.Count, Linked;
      ClearKind(Read, fd, eventmask);
      ClearKind(Write, fd, eventmask);
      ClearKind(Except, fd, eventmask);
    }

    /** The new largest descriptor. */
    method FindMax() returns (m: int)
      requires Threaded(list, files) && InRange(list, fdTable.Length)
      ensures IsMax(list, m)
    {
      m := -1;
      var cur := files;
      ghost var i := 0;
      while cur != null
        invariant i <= |list| && cur == At(list, i) && m >= -1
        invariant forall k :: 0 <= k < i ==> list[k].fd <= m
        invariant m >= 0 ==> exists k :: 0 <= k < i && list[k].fd == m
        decreases |list| - i
      {
        if cur.fd > m {
          m := cur.fd;
        }
        cur := cur.next;
        i := i + 1;
      }
    }

    /** The list handling of `evDeselectFD`. */
    method Remove(del: EvFile, ghost p: nat)
      requires Linked() && p < |list| && list[p] == del
      requires Exclusive(list) && Before(list, original, nonblockBefore)
      modifies `files, `list, fdTable, list
      ensures Linked() && list == Without(old(list), p) && del.next == old(At(list, p + 1))
      ensures Exclusive(list) && Before(list, original, nonblockBefore)
    {
      hide Threaded, FdThreaded, Distinct, InRange, Without, Exclusive, Before, At;
      FollowedBy(list, files, p);
      RangeAt(list, fdTable.Length, p);
      LonelyWithout(list, p, fdTable.Length);
      BeforeWithout(list, p, original, nonblockBefore);
      files := Unlink(files, del, list, p);
      ghost var rest := Without(list, p);
      assert Threaded(rest, files);
      FdUnlink(fdTable, del, list, p);
      assert Threaded(rest, files);
      list := Without(list, p);
    }

    /** The end of the use of a descriptor in `evDeselectFD`: if nobody else is registered for it, it gets its
        original mode back, unless it has been closed. The result is the mask that others wait for. */
    method Restore(kernel: Kernel, fd: int) returns (eventmask: set<Kind>)
      requires Linked() && 0 <= fd < fdTable.Length
      modifies kernel`nonblock
      ensures Linked() && eventmask == Masks(list, 0, fd)
      ensures kernel.nonblock == if eventmask == {} && fd !in nonblockBefore && fd in kernel.open
                                 then old(kernel.nonblock) - {fd} else old(kernel.nonblock)
    {
      hide FdThreaded, Distinct, Masks;
      var mode := kernel.GetFlags(fd);
      var cur, j := FindFD(fd, ALL);
      FoundMasks(list, j, fd, ALL);
      MaskAll(Masks(list, 0, fd));
      assert forall i :: 0 <= i < j ==> list[i].eventmask != {} && (list[i].fd == fd ==> list[i].eventmask * ALL == {});
      forall i | 0 <= i < j
        ensures list[i].fd != fd
      {
        MaskAll(list[i].eventmask);
      }
      hide Threaded, InRange;
      if cur == null && fd !in nonblockBefore && mode.Some? {
        kernel.SetFlags(fd, false);
      }
      eventmask := RemainingMask(cur, j, fd);
    }

    /** The end of `evDeselectFD`: the largest descriptor and the place of the scan. */
    method Renew(del: EvFile, ghost was: seq<EvFile>, ghost p: nat)
      requires Linked() && IsMax(was, fdMax)
      requires p < |was| && was[p] == del && list == Without(was, p) && del.next == At(was, p + 1)
      requires fdNext == null || fdNext in was
      modifies `fdMax, `fdNext
      ensures Linked() && IsMax(list, fdMax) && (fdNext == null || fdNext in list)
      ensures fdNext == if old(fdNext) == del then At(was, p + 1) else old(fdNext)
    {
      hide Threaded, FdThreaded, Distinct, InRange;
      if del.fd == fdMax {
        fdMax := FindMax();
      } else {
        MaxWithout(was, p, fdMax);
      }
      if fdNext != null {
        if del == fdNext {
          fdNext := del.next;
          if p + 1 < |was| {
            WithoutAt(was, p, p + 1);
          }
        } else {
          InWithout(was, p, fdNext);
        }
      }
    }

    /** `evDeselectFD`, for a registration that is in effect. */
    method DeselectFD(kernel: Kernel, del: EvFile?) returns (r: Status, ghost p: nat)
      requires Valid() && (del != null ==> del in list)
      modifies `files, `next, `last, `fdMax, `fdCount, `fdNext, `list, fdTable, list, kernel`nonblock
      ensures Valid() && r == if del == null then EINVAL else Ok
      ensures r != Ok ==> list == old(list) && next == old(next) && last == old(last) && fdCount == old(fdCount)
      ensures r == Ok ==> p < |old(list)| && old(list)[p] == del && list == Without(old(list), p)
      ensures r == Ok ==> fdNext == if old(fdNext) == del then old(At(list, p + 1)) else old(fdNext)
      ensures r == Ok ==> Cleared(list, del.fd, old(last), last)
      ensures r == Ok ==> fdCount - last.Count() == old(fdCount) - old(last.Count())
      ensures r == Ok ==> del.fd in original
      ensures kernel.nonblock == if r == Ok && Masks(list, 0, del.fd) == {} && !original[del.fd] && del.fd in kernel.open
                                 then old(kernel.nonblock) - {del.fd} else old(kernel.nonblock)
    {
      hide Threaded, FdThreaded, Distinct, InRange, Masks, Exclusive, Waiting, IsMax, Before, Cleared, At;
      p := 0;
      if del == null {
        return EINVAL, p;
      }
      p :| p < |list| && list[p] == del;
      Withdraw(kernel, del, p);
      r := Ok;
    }

    /** The middle of `evDeselectFD`: the mode of the descriptor, and the bits that nobody waits for. */
    method Clear(kernel: Kernel, del: EvFile, ghost was: seq<EvFile>, ghost p: nat)
      requires Linked() && Accounted() && Waiting(was, next) && 0 <= del.fd < fdTable.Length
      requires p < |was| && was[p] == del && list == Without(was, p)
      modifies `next, `last, `fdCount, kernel`nonblock
      ensures Linked() && Accounted() && Waiting(list, next) && Cleared(list, del.fd, old(last), last)
      ensures fdCount - last.Count() == old(fdCount) - old(last.Count())
      ensures kernel.nonblock == if Masks(list, 0, del.fd) == {} && del.fd !in nonblockBefore && del.fd in kernel.open
                                 then old(kernel.nonblock) - {del.fd} else old(kernel.nonblock)
    {
      hide Linked, Accounted, Waiting, Cleared, Masks, Without;
      var eventmask := Restore(kernel, del.fd);
      RestCleared(list, del.fd, next);
      RestCleared(list, del.fd, last);
      WaitingWithout(was, p, next, Rest(next, del.fd, eventmask));
      ClearKinds(del.fd, eventmask);
    }

    method Withdraw(kernel: Kernel, del: EvFile, ghost p: nat)
      requires Valid() && p < |list| && list[p] == del
      modifies `files, `next, `last, `fdMax, `fdCount, `fdNext, `list, fdTable, list, kernel`nonblock
      ensures Valid() && list == Without(old(list), p)
      ensures fdNext == if old(fdNext) == del then old(At(list, p + 1)) else old(fdNext)
      ensures Cleared(list, del.fd, old(last), last)
      ensures fdCount - last.Count() == old(fdCount) - old(last.Count())
      ensures del.fd in original
      ensures kernel.nonblock == if Masks(list, 0, del.fd) == {} && !original[del.fd] && del.fd in kernel.open
                                 then old(kernel.nonblock) - {del.fd} else old(kernel.nonblock)
    {
      hide Threaded, FdThreaded, Distinct, Masks, Exclusive, Accounted, Waiting, IsMax, Before, Cleared, At, InRange;
      ghost var was := list;
      RangeAt(list, fdTable.Length, p);
      BeforeAt(list, original, nonblockBefore, p);
      hide Linked;
      Remove(del, p);
      Clear(kernel, del, was, p);
      Renew(del, was, p);
    }
  }

  lemma {:induction false} MasksStep(l: seq<EvFile>, i: nat, fd: int)
    requires i < |l|
    ensures Masks(l, i, fd) == (if l[i].fd == fd then l[i].eventmask else {}) + Masks(l, i + 1, fd)
  {
  }

  lemma {:induction false} MasksEnd(l: seq<EvFile>, fd: int)
    ensures Masks(l, |l|, fd) == {}
  {
  }

  lemma {:induction false} MasksFrom(l: seq<EvFile>, i: nat, j: nat, fd: int)
    requires i <= j <= |l| && forall k :: i <= k < j ==> l[k].fd != fd
    ensures Masks(l, i, fd) == Masks(l, j, fd)
    decreases j - i
  {
    if i < j {
      MasksFrom(l, i + 1, j, fd);
    }
  }
}
