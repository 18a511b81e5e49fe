/** The search of `evGetNext` for a descriptor that is ready (isc/eventlib.c). */
module EvScan {
  import opened Options
  import opened EvFileList
  import opened EvThreads
  import opened EvFiles

  /** The events that f waits for and that are marked as ready. */
  function ReadyMask(last: FdSets, f: EvFile): set<Kind> {
    set k | k in f.eventmask && f.fd in last.Of(k)
  }

  /** None of the registrations from i to j is ready. */
  ghost predicate NoneReady(last: FdSets, l: seq<EvFile>, i: nat, j: nat)
    requires j <= |l|
  {
    forall q :: i <= q < j ==> ReadyMask(last, l[q]) == {}
  }

  /** Position q comes first among those that are ready, from position s on and then from the start. */
  ghost predicate FirstReady(last: FdSets, l: seq<EvFile>, s: nat, q: nat) {
    && q < |l| && ReadyMask(last, l[q]) != {}
    && if s <= q then NoneReady(last, l, s, q) else NoneReady(last, l, s, |l|) && NoneReady(last, l, 0, q)
  }

  /** The position of the next registration to look at. */
  ghost predicate Place(f: Files, s: nat)
    reads f`fdNext, f`list
  {
    s <= |f.list| && f.fdNext == At(f.list, s)
  }

  /** The bits of the mask are taken from the sets. */
  function Taken(last: FdSets, fd: int, mask: set<Kind>): FdSets {
    FdSets(if Read in mask then last.rd - {fd} else last.rd, if Write in mask then last.wr - {fd} else last.wr,
           if Except in mask then last.ex - {fd} else last.ex)
  }

  /** The number of events in a mask. */
  function Size(mask: set<Kind>): nat {
    (if Read in mask then 1 else 0) + (if Write in mask then 1 else 0) + (if Except in mask then 1 else 0)
  }

  lemma {:induction false} TakenIs(last: FdSets, f: EvFile)
    ensures Taken(last, f.fd, ReadyMask(last, f)).Count() == last.Count() - Size(ReadyMask(last, f))
    ensures forall k :: Taken(last, f.fd, ReadyMask(last, f)).Of(k) <= last.Of(k)
  {
    ReadyMaskIs(last, f, Read);
    ReadyMaskIs(last, f, Write);
    ReadyMaskIs(last, f, Except);
    hide ReadyMask;
  }

  lemma {:induction false} ReadyMaskIs(last: FdSets, f: EvFile, k: Kind)
    ensures k in ReadyMask(last, f) <==> k in f.eventmask && f.fd in last.Of(k)
  {
  }

  lemma {:induction false} WaiterOf(l: seq<EvFile>, fd: int, k: Kind) returns (q: nat)
    requires k in Masks(l, 0, fd)
    ensures q < |l| && l[q].fd == fd && k in l[q].eventmask
  {
    MasksAt(l, 0, fd, k);
    var j :| 0 <= j < |l| && l[j].fd == fd && k in l[j].eventmask;
    q := j;
  }

  lemma {:induction false} BitSet(s: FdSets) returns (k: Kind, fd: int)
    requires s.Count() > 0
    ensures fd in s.Of(k)
  {
    if s.rd != {} {
      k := Read;
      fd := Member(s.rd);
    } else if s.wr != {} {
      k := Write;
      fd := Member(s.wr);
    } else {
      k := Except;
      fd := Member(s.ex);
    }
  }

  lemma {:induction false} Member<T>(s: set<T>) returns (x: T)
    requires s != {}
    ensures x in s
  {
    x :| x in s;
  }

  /** When an event is counted, some registration is ready. */
  lemma {:induction false} SomeoneReady(f: Files) returns (q: nat)
    requires f.Recorded() && f.Accounted() && f.fdCount > 0
    ensures q < |f.list| && ReadyMask(f.last, f.list[q]) != {}
  {
    var k, fd := BitSet(f.last);
    assert fd in f.next.Of(k);
    q := WaiterOf(f.list, fd, k);
    ReadyMaskIs(f.last, f.list[q], k);
  }

  /** The look at one registration: the ready events it waits for, taken from the sets and from the count. */
  method Take(f: Files, fid: EvFile) returns (eventmask: set<Kind>)
    modifies f`last, f`fdCount
    ensures eventmask == ReadyMask(old(f.last), fid)
    ensures f.last == Taken(old(f.last), fid.fd, eventmask) && f.fdCount == old(f.fdCount) - Size(eventmask)
  {
    eventmask := {};
    if fid.fd in f.last.rd {
      eventmask := eventmask + {Read};
    }
    if fid.fd in f.last.wr {
      eventmask := eventmask + {Write};
    }
    if fid.fd in f.last.ex {
      eventmask := eventmask + {Except};
    }
    eventmask := eventmask * fid.eventmask;
    if eventmask != {} {
      if Read in eventmask {
        f.last := f.last.Clr(Read, fid.fd);
        f.fdCount := f.fdCount - 1;
      }
      if Write in eventmask {
        f.last := f.last.Clr(Write, fid.fd);
        f.fdCount := f.fdCount - 1;
      }
      if Except in eventmask {
        f.last := f.last.Clr(Except, fid.fd);
        f.fdCount := f.fdCount - 1;
      }
    }
  }

  lemma {:induction false} StartOfList(f: Files)
    requires f.Linked()
    ensures Threaded(f.list, f.files) && f.files == At(f.list, 0)
  {
  }

  /** One registration is looked at, and the place moves on. */
  method Look(f: Files, ghost s: nat) returns (fid: EvFile, eventmask: set<Kind>)
    requires Threaded(f.list, f.files) && Place(f, s) && s < |f.list|
    modifies f`fdNext, f`last, f`fdCount
    ensures Threaded(f.list, f.files) && Place(f, s + 1)
    ensures fid == f.list[s] && eventmask == ReadyMask(old(f.last), fid)
    ensures f.last == Taken(old(f.last), fid.fd, eventmask) && f.fdCount == old(f.fdCount) - Size(eventmask)
    ensures eventmask == {} ==> f.last == old(f.last) && f.fdCount == old(f.fdCount)
  {
    hide Threaded, ReadyMask;
    FollowedBy(f.list, f.files, s);
    fid := f.fdNext;
    f.fdNext := fid.next;
    eventmask := Take(f, fid);
  }

  /** The loop over the registrations. It hits the end twice just when events are counted but none is ready. */
  method Scan(f: Files, ghost s0: nat) returns (fid: EvFile?, eventmask: set<Kind>, ghost q: nat, ghost twice: bool)
    requires f.Linked() && Place(f, s0) && (f.fdCount > 0 ==> f.list != [])
    modifies f`fdNext, f`last, f`fdCount
    ensures f.Linked()
    ensures fid != null ==>
              && FirstReady(old(f.last), f.list, s0, q) && fid == f.list[q]
              && eventmask == ReadyMask(old(f.last), fid) && eventmask != {}
              && f.last == Taken(old(f.last), fid.fd, eventmask) && f.fdCount == old(f.fdCount) - Size(eventmask)
              && Place(f, q + 1) && !twice && old(f.fdCount) > 0
    ensures fid == null ==> f.last == old(f.last) && f.fdCount == (if old(f.fdCount) > 0 then 0 else old(f.fdCount))
    ensures fid == null ==> q <= |f.list| && Place(f, q) && (old(f.fdCount) <= 0 ==> f.fdNext == old(f.fdNext))
    ensures twice <==> fid == null && old(f.fdCount) > 0
    ensures twice ==> NoneReady(f.last, f.list, 0, |f.list|)
  {
    hide Files.Linked, Threaded, Taken, ReadyMask, Size;
    StartOfList(f);
    fid, eventmask, q, twice := null, {}, s0, false;
    var x := 0;
    while f.fdCount > 0
      invariant f.Linked() && Threaded(f.list, f.files) && f.files == At(f.list, 0)
      invariant 0 <= x <= 1 && Place(f, q) && f.last == old(f.last) && f.fdCount == old(f.fdCount)
      invariant f.fdCount <= 0 ==> f.fdNext == old(f.fdNext)
      invariant x == 0 ==> s0 <= q && NoneReady(f.last, f.list, s0, q)
      invariant x == 1 ==> NoneReady(f.last, f.list, s0, |f.list|) && NoneReady(f.last, f.list, 0, q)
      decreases 1 - x, |f.list| - q
    {
      if f.fdNext == null {
        x := x + 1;
        if x == 2 {
          f.fdCount := 0;
          twice := true;
          return;
        }
        f.fdNext := f.files;
        q := 0;
      }
      var id;
      id, eventmask := Look(f, q);
      if eventmask != {} {
        fid := id;
        return;
      }
      q := q + 1;
    }
  }

  /** The loop in a context whose accounts are in order: when events are counted one is found, in one round. */
  method FindReady(f: Files, ghost s: nat) returns (fid: EvFile?, eventmask: set<Kind>, ghost q: nat, ghost twice: bool)
    requires f.Valid() && Place(f, s)
    modifies f`fdNext, f`last, f`fdCount
    ensures f.Valid() && !twice && (fid != null <==> old(f.fdCount) > 0)
    ensures fid != null ==>
              && FirstReady(old(f.last), f.list, s, q) && fid == f.list[q]
              && eventmask == ReadyMask(old(f.last), fid) && eventmask != {}
              && f.last == Taken(old(f.last), fid.fd, eventmask) && f.fdCount == old(f.fdCount) - Size(eventmask)
              && Place(f, q + 1)
    ensures fid == null ==> f.last == old(f.last) && f.fdCount == old(f.fdCount) && f.fdNext == old(f.fdNext)
  {
    hide Files.Linked, Exclusive, IsMax, Waiting, Before, ReadyMask, Taken, Size;
    ghost var someone := 0;
    if f.fdCount > 0 {
      someone := SomeoneReady(f);
    }
    fid, eventmask, q, twice := Scan(f, s);
    if fid != null {
      TakenIs(old(f.last), fid);
    }
  }
}
