/** The choice of the next event (`evGetNext`, isc/eventlib.c). */
module EvLoop {
  import opened Options
  import opened EvTime
  import opened EvHeapOrder
  import opened EvHeap
  import EvTimers
  import opened EvFileList
  import opened EvThreads
  import opened EvFiles
  import opened EvScan

  /** `evEvent_p`; accepted connections, streams and waits are numbers here. */
  datatype Event =
    | Accept(a: nat)
    | Stream(s: nat)
    | Wait(w: nat)
    | TimerEvent(t: Timer)
    | FileEvent(f: EvFile, eventmask: set<Kind>)
    | Null

  datatype Errno = EINTR | EBADF | OtherError(code: nat)

  /** What happens in a call of pselect: the descriptors that have become ready, or a failure; and the time then. */
  datatype Answer =
    | Ready(ready: FdSets, now: Timespec)
    | Failed(error: Errno, now: Timespec)

  /** The results of `evGetNext`, a failed assertion or abort, and a call of pselect that does not return. */
  datatype Outcome =
    | Got(ev: Event)
    | InvalidOptions
    | NoEvents
    | WouldBlock
    | SelectError(error: Errno)
    | Aborted
    | Asleep

  datatype Mode = JustPoll | Block | UntilTimer

  /** The bits that an exact pselect leaves: requested, below the limit, and ready. */
  function Selected(next: FdSets, nfds: int, ready: FdSets): FdSets {
    FdSets(set d | d in next.rd && d in ready.rd && d < nfds, set d | d in next.wr && d in ready.wr && d < nfds,
           set d | d in next.ex && d in ready.ex && d < nfds)
  }

  ghost predicate Clocked(world: seq<Answer>) {
    forall i :: 0 <= i < |world| ==> !EvTimers.BadTime(world[i].now)
  }

  /** No timer of the heap is due. */
  ghost predicate NoneDue(heap: Heap, now: Timespec)
    reads heap`members, heap.members`due
  {
    forall t :: t in heap.members ==> Cmp(t.due, now) > 0
  }

  /** The time that the context keeps after n answers: it is looked at again behind a call of pselect that may have
      waited, and a call waits unless it is a poll or a timer is due. */
  ghost function Clock(heap: Heap, poll: bool, now: Timespec, world: seq<Answer>, n: nat): Timespec
    requires n <= |world|
    reads heap`members, heap.members`due
  {
    if n == 0 then now
    else
      var t := Clock(heap, poll, now, world, n - 1);
      if poll || !NoneDue(heap, t) then t else world[n - 1].now
  }

  lemma {:induction false} ClockStep(heap: Heap, poll: bool, now: Timespec, world: seq<Answer>, n: nat)
    requires n < |world|
    ensures var t := Clock(heap, poll, now, world, n);
            Clock(heap, poll, now, world, n + 1) == if poll || !NoneDue(heap, t) then t else world[n].now
  {
  }

  /** `evContext_p` */
  class Context {
    const files: Files
    const timers: EvTimers.Timers
    var accepts: seq<nat>
    var strDone: seq<nat>
    var waitDone: seq<nat>

    ghost predicate Valid()
      reads this, files, files.fdTable, files.list, timers, timers.timers, timers.timers.heap,
            timers.timers.members, timers.timers.v
    {
      files.Valid() && timers.Valid()
    }

    constructor (highestFD: int, garbage: FdSets, now: Timespec)
      requires highestFD >= -1 && !EvTimers.BadTime(now)
      ensures Valid() && files.list == [] && timers.timers.members == {}
    {
      files := new Files(highestFD, garbage);
      timers := new EvTimers.Timers(now);
      accepts, strDone, waitDone := [], [], [];
    }

    /** One call of pselect. The time is looked at again behind a call that may have waited. */
    method Pselect(m: Mode, answer: Answer) returns (x: int)
      requires Valid() && !EvTimers.BadTime(answer.now) && files.fdCount == 0
      modifies files`last, timers`lastEventTime
      ensures Valid() && timers.lastEventTime == if m == JustPoll then old(timers.lastEventTime) else answer.now
      ensures answer.Ready? ==>
                files.last == Selected(files.next, files.fdMax + 1, answer.ready) && x == files.last.Count()
      ensures answer.Failed? ==> x == -1
    {
      hide Files.Linked, Files.Recorded, Heap.Valid;
      files.last := files.next;
      if answer.Ready? {
        files.last := Selected(files.next, files.fdMax + 1, answer.ready);
        x := files.last.Count();
      } else {
        x := -1;
      }
      if m != JustPoll {
        timers.lastEventTime := answer.now;
      }
    }

    /** An answer behind which pselect is called again: nothing is ready and the first timer is not due. */
    predicate Early(m: Mode, nextTime: Timespec, a: Answer)
      reads files`next, files`fdMax
    {
      && m == UntilTimer && a.Ready? && Selected(files.next, files.fdMax + 1, a.ready).Count() == 0
      && Cmp(a.now, nextTime) < 0
    }

    /** The calls of pselect until there is something to do. */
    method WaitForFiles(m: Mode, nextTime: Timespec, world: seq<Answer>, n0: nat)
      returns (x: int, n: nat, a: Option<Answer>)
      requires Valid() && n0 <= |world| && Clocked(world) && files.fdCount == 0
      modifies files`last, timers`lastEventTime
      ensures Valid() && n0 <= n <= |world|
      ensures a.None? ==> n == |world| && forall i :: n0 <= i < n ==> Early(m, nextTime, world[i])
      ensures a.Some? ==> n0 < n && a.value == world[n - 1] && !Early(m, nextTime, a.value)
      ensures a.Some? ==> forall i :: n0 <= i < n - 1 ==> Early(m, nextTime, world[i])
      ensures a.Some? && a.value.Ready? ==>
                files.last == Selected(files.next, files.fdMax + 1, a.value.ready) && x == files.last.Count()
      ensures a.Some? && a.value.Failed? ==> x == -1
      ensures timers.lastEventTime == if m == JustPoll || n == n0 then old(timers.lastEventTime) else world[n - 1].now
    {
      hide Valid, Selected;
      n, a, x := n0, None, 0;
      while true
        invariant Valid() && n0 <= n <= |world| && files.fdCount == 0
        invariant timers.lastEventTime == if m == JustPoll || n == n0 then old(timers.lastEventTime) else world[n - 1].now
        invariant forall i :: n0 <= i < n ==> Early(m, nextTime, world[i])
        decreases |world| - n
      {
        if n == |world| {
          return x, n, None;
        }
        a := Some(world[n]);
        n := n + 1;
        x := Pselect(m, a.value);
        if !(x == 0 && m == UntilTimer && Cmp(timers.lastEventTime, nextTime) < 0) {
          return x, n, a;
        }
      }
    }

    /** Events that do not need a pselect, in their order. */
    method Dequeue() returns (ev: Option<Event>)
      modifies `accepts, `strDone, `waitDone
      ensures ev == if old(accepts) != [] then Some(Accept(old(accepts)[0]))
                    else if old(strDone) != [] then Some(Stream(old(strDone)[0]))
                    else if old(waitDone) != [] then Some(Wait(old(waitDone)[0]))
                    else None
      ensures accepts == if old(accepts) != [] then old(accepts)[1..] else []
      ensures strDone == if old(accepts) == [] && old(strDone) != [] then old(strDone)[1..] else old(strDone)
      ensures waitDone == if old(accepts) == [] && old(strDone) == [] && old(waitDone) != []
                          then old(waitDone)[1..] else old(waitDone)
    {
      ev := None;
      if accepts != [] {
        ev, accepts := Some(Accept(accepts[0])), accepts[1..];
      } else if strDone != [] {
        ev, strDone := Some(Stream(strDone[0])), strDone[1..];
      } else if waitDone != [] {
        ev, waitDone := Some(Wait(waitDone[0])), waitDone[1..];
      }
    }

    lemma {:induction false} NoFiles()
      requires Valid()
      ensures files.fdMax == -1 <==> files.list == []
    {
      if files.list != [] {
        assert files.list[0].fd <= files.fdMax;
      }
    }

    /** There is nothing to wait for. */
    ghost predicate Idle(poll: bool)
      reads files`list, timers.timers`members
    {
      !poll && timers.timers.members == {} && files.list == []
    }

    /** The bits that pselect leaves for an answer. */
    ghost function Bits(a: Answer): FdSets
      requires a.Ready?
      reads files`next, files`fdMax
    {
      Selected(files.next, files.fdMax + 1, a.ready)
    }

    /** Answer i decides nothing, and pselect is called once more: it was interrupted and the caller did not want to
        know, or nothing is ready, and the caller waits for timers of which none is due. */
    ghost predicate Passed(poll: bool, nullOk: bool, now: Timespec, world: seq<Answer>, i: nat)
      requires i < |world|
      reads files`next, files`fdMax, timers.timers`members, timers.timers.members`due
    {
      match world[i]
      case Failed(error, _) => error == Errno.EINTR && nullOk
      case Ready(_, _) =>
        && !poll && timers.timers.members != {} && Bits(world[i]).Count() == 0
        && NoneDue(timers.timers, Clock(timers.timers, poll, now, world, i + 1))
    }

    ghost predicate AllPassed(poll: bool, nullOk: bool, now: Timespec, world: seq<Answer>, n0: nat, n: nat)
      requires n <= |world|
      reads files`next, files`fdMax, timers.timers`members, timers.timers.members`due
    {
      forall i :: n0 <= i < n ==> Passed(poll, nullOk, now, world, i)
    }

    /** The times while pselect is called again and again are those of the answers. */
    lemma {:induction false} Waiting(poll: bool, m: Mode, nextTimer: Timer?, nextTime: Timespec, now: Timespec, world: seq<Answer>,
                                     n0: nat, n: nat)
      requires Valid() && n0 <= n <= |world|
      requires nextTimer == if timers.timers.v == [] then null else timers.timers.v[0]
      requires var t := Clock(timers.timers, poll, now, world, n0);
        m == if poll then JustPoll else if nextTimer == null then Block else if !NoneDue(timers.timers, t) then JustPoll else UntilTimer
      requires nextTimer != null ==> nextTime == nextTimer.due
      requires forall i :: n0 <= i < n - 1 ==> Early(m, nextTime, world[i])
      ensures Clock(timers.timers, poll, now, world, n) ==
                if m == JustPoll || n == n0 then Clock(timers.timers, poll, now, world, n0) else world[n - 1].now
      decreases n - n0
    {
      hide Valid, NoneDue;
      NoneDueIs(Clock(timers.timers, poll, now, world, n0));
      if n > n0 {
        Waiting(poll, m, nextTimer, nextTime, now, world, n0, n - 1);
        ClockStep(timers.timers, poll, now, world, n - 1);
        NoneDueIs(Clock(timers.timers, poll, now, world, n - 1));
      }
    }

    /** What the answer that ends the waiting comes to: an outcome, another round, or a new count. */
    ghost predicate Refilled(a: Answer, poll: bool, nullOk: bool, r: Option<Outcome>, again: bool)
      reads files`next, files`fdMax, files`last, files`fdCount, timers`lastEventTime,
            timers.timers`members, timers.timers.members`due
    {
      match a
      case Failed(EINTR, _) => files.fdCount == 0 && again == nullOk && r == if nullOk then None else Some(Got(Null))
      case Failed(EBADF, _) => files.fdCount == 0 && !again && r == Some(Aborted)
      case Failed(OtherError(_), _) => files.fdCount == 0 && !again && r == Some(SelectError(a.error))
      case Ready(_, _) =>
        && !again && files.fdCount == Bits(a).Count() && files.last == Bits(a)
        && r == if Bits(a).Count() == 0 && poll && NoneDue(timers.timers, timers.lastEventTime) then Some(WouldBlock) else None
    }

    /** The part of `evGetNext` that asks pselect, when no ready descriptors are left from the last time. */
    method Refill(poll: bool, nullOk: bool, nextTimer: Timer?, timerPast: bool, world: seq<Answer>, n0: nat, ghost now: Timespec)
      returns (n: nat, r: Option<Outcome>, again: bool)
      requires Valid() && n0 <= |world| && Clocked(world) && files.fdCount == 0
      requires nextTimer == if timers.timers.v == [] then null else timers.timers.v[0]
      requires timerPast == (nextTimer != null && Cmp(nextTimer.due, timers.lastEventTime) <= 0)
      requires timers.lastEventTime == Clock(timers.timers, poll, now, world, n0)
      modifies files`last, files`fdCount, timers`lastEventTime
      ensures Valid() && n0 <= n <= |world| && timers.lastEventTime == Clock(timers.timers, poll, now, world, n)
      ensures Idle(poll) ==> n == n0 && r == Some(NoEvents)
      ensures !Idle(poll) && r == Some(Asleep) ==> n == |world| && AllPassed(poll, nullOk, now, world, n0, n)
      ensures !Idle(poll) && r != Some(Asleep) ==>
                && n0 < n && AllPassed(poll, nullOk, now, world, n0, n - 1) && Refilled(world[n - 1], poll, nullOk, r, again)
                && (Passed(poll, nullOk, now, world, n - 1) ==> again)
      ensures again ==> r == None
    {
      hide Files.Linked, Files.Recorded, Heap.Valid, Selected, NoneDue, Clock;
      r, n, again := None, n0, false;
      NoFiles();
      NoTimers();
      NoneDueIs(timers.lastEventTime);
      if !poll && nextTimer == null && files.fdMax == -1 {
        r := Some(NoEvents);
        return;
      }
      var m := if poll then JustPoll else if nextTimer == null then Block else if timerPast then JustPoll else UntilTimer;
      var nextTime := if nextTimer == null then NO_TIME else nextTimer.due;
      var x, a;
      x, n, a := WaitForFiles(m, nextTime, world, n0);
      AllEarly(poll, nullOk, m, nextTimer, nextTime, now, world, n0, n, if a.None? then n else n - 1);
      NoneDueIs(timers.lastEventTime);
      if a.None? {
        r := Some(Asleep);
      } else if x < 0 {
        match a.value.error {
          case EINTR =>
            if nullOk {
              again := true;
            } else {
              r := Some(Got(Null));
            }
          case EBADF =>
            r := Some(Aborted);
          case OtherError(_) =>
            r := Some(SelectError(a.value.error));
        }
      } else if x == 0 && (nextTimer == null || !timerPast) && poll {
        r := Some(WouldBlock);
      } else {
        SelectedInside(files.next, files.fdMax + 1, a.value.ready);
        files.fdCount := x;
      }
    }

    lemma {:induction false} FirstSoonest()
      requires Valid() && timers.timers.v != []
      ensures timers.timers.v[0] in timers.timers.members
      ensures forall u :: u in timers.timers.members ==> !Sooner(u.due, timers.timers.v[0].due)
    {
      timers.timers.First();
    }

    lemma {:induction false} NoTimers()
      requires Valid()
      ensures timers.timers.v == [] <==> timers.timers.members == {}
    {
      timers.timers.First();
    }

    /** The answers behind which pselect is called again are passed over. */
    lemma {:induction false} AllEarly(poll: bool, nullOk: bool, m: Mode, nextTimer: Timer?, nextTime: Timespec, now: Timespec,
                                      world: seq<Answer>, n0: nat, n: nat, e: nat)
      requires Valid() && n0 <= n <= |world| && e <= n <= e + 1
      requires nextTimer == if timers.timers.v == [] then null else timers.timers.v[0]
      requires var t := Clock(timers.timers, poll, now, world, n0);
        m == if poll then JustPoll else if nextTimer == null then Block else if !NoneDue(timers.timers, t) then JustPoll else UntilTimer
      requires nextTimer != null ==> nextTime == nextTimer.due
      requires forall i :: n0 <= i < e ==> Early(m, nextTime, world[i])
      ensures Clock(timers.timers, poll, now, world, n) ==
                if m == JustPoll || n == n0 then Clock(timers.timers, poll, now, world, n0) else world[n - 1].now
      ensures AllPassed(poll, nullOk, now, world, n0, e)
    {
      hide Valid, NoneDue, Selected;
      NoTimers();
      Waiting(poll, m, nextTimer, nextTime, now, world, n0, n);
      forall i | n0 <= i < e
        ensures Passed(poll, nullOk, now, world, i)
      {
        Waiting(poll, m, nextTimer, nextTime, now, world, n0, i + 1);
        NoneDueIs(Clock(timers.timers, poll, now, world, i + 1));
      }
    }

    /** The end of a round of `evGetNext`: the first timer if it is due, and otherwise a ready descriptor. */
    method Choose(nextTimer: Timer?, ghost s: nat) returns (r: Option<Event>, ghost q: nat)
      requires Valid() && Place(files, s)
      requires nextTimer == if timers.timers.v == [] then null else timers.timers.v[0]
      modifies files`fdNext, files`last, files`fdCount
      ensures Valid() && (r.None? ==> files.fdCount == old(files.fdCount) && files.fdCount <= 0 && Place(files, s))
      ensures r.Some? ==> r.value.TimerEvent? || r.value.FileEvent?
      ensures r.Some? && r.value.TimerEvent? ==> r.value.t == nextTimer
      ensures nextTimer != null && Cmp(nextTimer.due, timers.lastEventTime) <= 0 <==> r.Some? && r.value.TimerEvent?
      ensures r.Some? && r.value.FileEvent? ==>
                && FirstReady(old(files.last), files.list, s, q) && old(files.fdCount) > 0
                && r.value == FileEvent(files.list[q], ReadyMask(old(files.last), files.list[q]))
                && files.last == Taken(old(files.last), files.list[q].fd, r.value.eventmask)
                && files.fdCount == old(files.fdCount) - Size(r.value.eventmask)
                && Place(files, q + 1)
      ensures r.Some? && r.value.FileEvent? ==>
                && NoneDue(timers.timers, timers.lastEventTime)
                && r.value.f in files.list && r.value.eventmask != {} && r.value.eventmask <= r.value.f.eventmask
    {
      hide Files.Linked, Files.Recorded, Heap.Valid, NoneDue;
      r, q := None, 0;
      if nextTimer != null && Cmp(nextTimer.due, timers.lastEventTime) <= 0 {
        r := Some(TimerEvent(nextTimer));
        return;
      }
      NotDue(timers.lastEventTime);
      var fid, eventmask;
      ghost var twice;
      fid, eventmask, q, twice := FindReady(files, s);
      if fid != null {
        r := Some(FileEvent(fid, eventmask));
      }
    }

    /** The first element of the heap; without one there are no timers. */
    method FirstTimer() returns (t: Timer?)
      requires Valid()
      ensures t == if timers.timers.v == [] then null else timers.timers.v[0]
      ensures t == null ==> timers.timers.members == {}
      ensures t != null ==> t in timers.timers.members && forall u :: u in timers.timers.members ==> !Sooner(u.due, t.due)
    {
      t := timers.timers.Element(1);
      timers.timers.First();
    }

    method SetTime(now: Timespec)
      requires Valid() && !EvTimers.BadTime(now)
      modifies timers`lastEventTime
      ensures Valid() && timers.lastEventTime == now
    {
      hide Files.Linked, Files.Recorded, Heap.Valid;
      timers.lastEventTime := now;
    }

    /** When the first timer is not due no timer is. */
    lemma {:induction false} NotDue(now: Timespec)
      requires timers.timers.Valid()
      ensures timers.timers.v == [] || Cmp(timers.timers.v[0].due, now) > 0 <==> NoneDue(timers.timers, now)
    {
      timers.timers.First();
    }

    lemma {:induction false} NoneDueIs(now: Timespec)
      requires Valid()
      ensures timers.timers.v == [] || Cmp(timers.timers.v[0].due, now) > 0 <==> NoneDue(timers.timers, now)
    {
      NotDue(now);
    }

    /** A count below zero is reset. */
    method ResetCount()
      requires Valid() && files.fdCount <= 0
      modifies files`fdCount
      ensures Valid() && files.fdCount == 0
    {
      hide Files.Linked, Files.Recorded, Heap.Valid;
      if files.fdCount < 0 {
        files.fdCount := 0;
      }
    }

    ghost predicate SoundEvent(r: Outcome)
      reads files`list, timers`lastEventTime, timers.timers`members, timers.timers.members`due
    {
      match r
      case Got(TimerEvent(t)) =>
        && t in timers.timers.members && Cmp(t.due, timers.lastEventTime) <= 0
        && forall u :: u in timers.timers.members ==> !Sooner(u.due, t.due)
      case Got(FileEvent(f, eventmask)) =>
        && NoneDue(timers.timers, timers.lastEventTime)
        && f in files.list && eventmask != {} && eventmask <= f.eventmask
      case _ => false
    }

    /** What is said of any outcome, when the answers from n0 to n were used.
        The timer delivered is due, and it is one of the earliest. A descriptor is delivered only when no timer is
        due, with events that were asked for. There are no events only without timers and registrations. An abort
        means that a descriptor is bad, or that pselect returned nothing without a time limit. A poll would block
        only if nothing is ready and no timer is due. The null event stands for an interruption. */
    ghost predicate Sound(r: Outcome, poll: bool, nullOk: bool, world: seq<Answer>, n0: nat, n: nat)
      requires n0 <= n <= |world|
      reads files`list, files`next, files`fdMax, timers`lastEventTime, timers.timers`members, timers.timers.members`due
    {
      match r
      case Got(TimerEvent(_)) => SoundEvent(r)
      case Got(FileEvent(_, _)) => SoundEvent(r)
      case Got(Accept(_)) => n == n0
      case Got(Stream(_)) => n == n0
      case Got(Wait(_)) => n == n0
      case Got(Null) =>
        n0 < n && world[n - 1].Failed? && world[n - 1].error == Errno.EINTR && !nullOk
      case NoEvents =>
        n == n0 && Idle(poll)
      case WouldBlock =>
        && n0 < n && poll && world[n - 1].Ready? && Bits(world[n - 1]).Count() == 0
        && NoneDue(timers.timers, timers.lastEventTime)
      case SelectError(e) =>
        n0 < n && world[n - 1].Failed? && world[n - 1].error == e && e.OtherError?
      case Aborted =>
        && n0 < n
        && (match world[n - 1]
            case Failed(error, _) => error == Errno.EBADF
            case Ready(_, _) => timers.timers.members == {} && !poll && Bits(world[n - 1]).Count() == 0)
      case Asleep => n == |world|
      case InvalidOptions => false
    }

    /** The event counted as ready that comes first, round the list from s on, has been delivered. */
    ghost predicate Delivered(r: Outcome, was: FdSets, count: int, s: nat, q: nat)
      reads files`list, files`fdNext, files`last, files`fdCount
    {
      && FirstReady(was, files.list, s, q) && Place(files, q + 1)
      && r == Got(FileEvent(files.list[q], ReadyMask(was, files.list[q])))
      && files.last == Taken(was, files.list[q].fd, r.ev.eventmask)
      && files.fdCount == count - Size(r.ev.eventmask)
    }

    ghost predicate TimerDelivered(r: Option<Outcome>)
      reads timers`lastEventTime, timers.timers`members, timers.timers.members`due
    {
      r.Some? && r.value.Got? && r.value.ev.TimerEvent? && r.value.ev.t in timers.timers.members
      && Cmp(r.value.ev.t.due, timers.lastEventTime) <= 0
    }

    /** What the answer that ends the waiting decides. */
    ghost predicate Settled(a: Answer, poll: bool, nullOk: bool, r: Option<Outcome>, s: nat, q: nat)
      reads files`list, files`fdNext, files`next, files`fdMax, files`last, files`fdCount, timers`lastEventTime,
            timers.timers`members, timers.timers.members`due
    {
      match a
      case Failed(EINTR, _) => r == if nullOk then None else Some(Got(Null))
      case Failed(EBADF, _) => r == Some(Aborted)
      case Failed(OtherError(_), _) => r == Some(SelectError(a.error))
      case Ready(_, _) =>
        if !NoneDue(timers.timers, timers.lastEventTime) then TimerDelivered(r)
        else if Bits(a).Count() > 0 then r.Some? && Delivered(r.value, Bits(a), Bits(a).Count(), s, q)
        else if poll then r == Some(WouldBlock)
        else r == Some(Aborted) && timers.timers.members == {}
    }

    /** What becomes of the answers from n0 on, when nothing was counted as ready. */
    ghost predicate Asked(poll: bool, nullOk: bool, now: Timespec, world: seq<Answer>, n0: nat, n: nat,
                          r: Option<Outcome>, s: nat, q: nat)
      requires n0 <= n <= |world|
      reads files`list, files`fdNext, files`next, files`fdMax, files`last, files`fdCount, timers`lastEventTime,
            timers.timers`members, timers.timers.members`due
    {
      if Idle(poll) then n == n0 && r == Some(NoEvents)
      else if r == Some(Asleep) then n == |world| && AllPassed(poll, nullOk, now, world, n0, n)
      else
        && n0 < n && AllPassed(poll, nullOk, now, world, n0, n - 1)
        && Settled(world[n - 1], poll, nullOk, r, s, q) && (r.None? <==> Passed(poll, nullOk, now, world, n - 1))
    }

    /** One round of `evGetNext`, between two jumps to its label. */
    method Round(poll: bool, nullOk: bool, world: seq<Answer>, n0: nat, ghost s: nat, ghost now: Timespec)
      returns (r: Option<Outcome>, n: nat, ghost q: nat)
      requires Valid() && Clocked(world) && Place(files, s) && n0 <= |world|
      requires timers.lastEventTime == Clock(timers.timers, poll, now, world, n0)
      modifies this, files`fdNext, files`last, files`fdCount, timers`lastEventTime
      ensures Valid() && n0 <= n <= |world| && timers.lastEventTime == Clock(timers.timers, poll, now, world, n)
      ensures r.Some? ==> Sound(r.value, poll, nullOk, world, n0, n)
      ensures r == Some(NoEvents) ==> Idle(poll)
      ensures r.Some? && r.value.Got? && (r.value.ev.Accept? || r.value.ev.Stream? || r.value.ev.Wait?) ==>
                !Quiet(old(accepts), old(strDone), old(waitDone))
      ensures r.None? ==> Place(files, s) && files.fdCount == 0 && (n0 < n || old(files.fdCount) < 0)
      ensures r.None? ==> Quiet(old(accepts), old(strDone), old(waitDone)) && Quiet(accepts, strDone, waitDone)
      ensures !Quiet(old(accepts), old(strDone), old(waitDone)) ==>
                n == n0 && r == Some(Got(Queued(old(accepts), old(strDone), old(waitDone))))
      ensures Quiet(old(accepts), old(strDone), old(waitDone)) ==>
                if old(files.fdCount) == 0 then Asked(poll, nullOk, now, world, n0, n, r, s, q)
                else
                  && n == n0
                  && if !NoneDue(timers.timers, timers.lastEventTime) then TimerDelivered(r)
                     else if old(files.fdCount) > 0 then
                       r.Some? && Delivered(r.value, old(files.last), old(files.fdCount), s, q)
                     else r.None?
    {
      hide Files.Valid, EvTimers.Timers.Valid, NoneDue, Place, Delivered, Selected, Clock, AllPassed, SoundEvent;
      n, q, r := n0, 0, None;
      var ev := Dequeue();
      if ev.Some? {
        return Some(Got(ev.value)), n, q;
      }
      var nextTimer := FirstTimer();
      if files.fdCount == 0 {
        r, n, q := Ask(poll, nullOk, nextTimer, world, n, s, now);
      } else {
        r, q := Finish(nextTimer, s);
      }
    }

    /** A round in which pselect is asked. */
    method Ask(poll: bool, nullOk: bool, nextTimer: Timer?, world: seq<Answer>, n0: nat, ghost s: nat, ghost now: Timespec)
      returns (r: Option<Outcome>, n: nat, ghost q: nat)
      requires Valid() && Clocked(world) && Place(files, s) && n0 <= |world| && files.fdCount == 0
      requires nextTimer == if timers.timers.v == [] then null else timers.timers.v[0]
      requires timers.lastEventTime == Clock(timers.timers, poll, now, world, n0)
      modifies files`fdNext, files`last, files`fdCount, timers`lastEventTime
      ensures Valid() && n0 <= n <= |world| && timers.lastEventTime == Clock(timers.timers, poll, now, world, n)
      ensures Asked(poll, nullOk, now, world, n0, n, r, s, q)
      ensures r.None? ==> Place(files, s) && files.fdCount == 0 && n0 < n
      ensures r.Some? ==> Sound(r.value, poll, nullOk, world, n0, n)
      ensures r.Some? && r.value.Got? ==> !r.value.ev.Accept? && !r.value.ev.Stream? && !r.value.ev.Wait?
      ensures r == Some(NoEvents) ==> Idle(poll)
    {
      hide Files.Valid, EvTimers.Timers.Valid, NoneDue, Place, Delivered, Selected, Clock, AllPassed, SoundEvent;
      q := 0;
      NoTimers();
      var again;
      n, r, again := Refill(poll, nullOk, nextTimer, nextTimer != null && Cmp(nextTimer.due, timers.lastEventTime) <= 0, world, n0, now);
      if r.Some? || again {
        if again {
          InterruptedOnly(poll, nullOk, now, world, n - 1);
        }
        return;
      }
      r, q := Finish(nextTimer, s);
    }

    lemma {:induction false} InterruptedOnly(poll: bool, nullOk: bool, now: Timespec, world: seq<Answer>, i: nat)
      requires i < |world| && world[i].Failed? && world[i].error == Errno.EINTR && nullOk
      ensures Passed(poll, nullOk, now, world, i)
    {
    }

    /** The end of a round: the assertion, and what is chosen. */
    method Finish(nextTimer: Timer?, ghost s: nat) returns (r: Option<Outcome>, ghost q: nat)
      requires Valid() && Place(files, s)
      requires nextTimer == if timers.timers.v == [] then null else timers.timers.v[0]
      modifies files`fdNext, files`last, files`fdCount
      ensures Valid()
      ensures r.Some? ==>
                || (r.value.Aborted? && old(files.fdCount) == 0 && timers.timers.members == {} && NoneDue(timers.timers, timers.lastEventTime))
                || (r.value.Got? && (r.value.ev.TimerEvent? || r.value.ev.FileEvent?) && SoundEvent(r.value))
      ensures if !NoneDue(timers.timers, timers.lastEventTime) then TimerDelivered(r)
              else if old(files.fdCount) > 0 then r.Some? && Delivered(r.value, old(files.last), old(files.fdCount), s, q)
              else if old(files.fdCount) == 0 && timers.timers.members == {} then r == Some(Aborted)
              else r.None? && files.fdCount == 0 && Place(files, s)
    {
      hide Files.Valid, EvTimers.Timers.Valid, NoneDue, Place, FirstReady, ReadyMask, Taken, Selected, Size;
      q := 0;
      NoTimers();
      NoneDueIs(timers.lastEventTime);
      if nextTimer == null && files.fdCount == 0 {
        return Some(Aborted), q;
      }
      if nextTimer != null {
        FirstSoonest();
      }
      var ev;
      ev, q := Choose(nextTimer, s);
      if ev.Some? {
        return Some(Got(ev.value)), q;
      }
      ResetCount();
      r := None;
    }

    /** `evGetNext`. The world answers the calls of pselect one after the other; n answers are used up.
        What is queued comes first. Without it a timer that is due or an event that is counted as ready is delivered at
        once, without a further pselect. Otherwise the outcome is decided by the first answer that is not passed over. */
    method GetNext(poll: bool, wait: bool, nullOk: bool, now: Timespec, world: seq<Answer>, ghost s: nat)
      returns (r: Outcome, n: nat, ghost q: nat)
      requires Valid() && Clocked(world) && !EvTimers.BadTime(now) && Place(files, s)
      modifies this, files`fdNext, files`last, files`fdCount, timers`lastEventTime
      ensures Valid() && n <= |world| && (r == InvalidOptions <==> poll == wait)
      ensures r != InvalidOptions ==>
                Sound(r, poll, nullOk, world, 0, n) && timers.lastEventTime == Clock(timers.timers, poll, now, world, n)
      ensures poll != wait && !Quiet(old(accepts), old(strDone), old(waitDone)) ==>
                n == 0 && r == Got(Queued(old(accepts), old(strDone), old(waitDone)))
      ensures poll != wait && Quiet(old(accepts), old(strDone), old(waitDone)) ==>
                if old(files.fdCount) != 0 && !NoneDue(timers.timers, now) then n == 0 && TimerDelivered(Some(r))
                else if old(files.fdCount) > 0 then n == 0 && Delivered(r, old(files.last), old(files.fdCount), s, q)
                else Asked(poll, nullOk, now, world, 0, n, Some(r), s, q)
    {
      hide Files.Valid, EvTimers.Timers.Valid, NoneDue, Place, Sound, Delivered, Quiet, Queued, Settled;
      hide Clock, Passed, Idle;
      n, q := 0, 0;
      if poll == wait {
        r := InvalidOptions;
        return;
      }
      SetTime(now);
      ghost var first := true;
      assert Clock(timers.timers, poll, now, world, 0) == now by {
        ClockStarts(timers.timers, poll, now, world);
      }
      while true
        invariant Valid() && n <= |world| && Place(files, s)
        invariant timers.lastEventTime == Clock(timers.timers, poll, now, world, n)
        invariant first ==> n == 0 && files.fdCount == old(files.fdCount) && files.last == old(files.last)
        invariant first ==> timers.lastEventTime == now
        invariant first ==> accepts == old(accepts) && strDone == old(strDone) && waitDone == old(waitDone)
        invariant !first ==> Quiet(accepts, strDone, waitDone) && Quiet(old(accepts), old(strDone), old(waitDone))
        invariant !first ==> files.fdCount == 0 && (old(files.fdCount) == 0 || (old(files.fdCount) < 0 && NoneDue(timers.timers, now)))
        invariant AllPassed(poll, nullOk, now, world, 0, n) && (n > 0 ==> !Idle(poll))
        decreases |world| - n, files.fdCount < 0
      {
        var stop;
        ghost var n0 := n;
        stop, n, q := Round(poll, nullOk, world, n, s, now);
        if stop.Some? {
          SoundEarlier(stop.value, poll, nullOk, world, n0, n);
          return stop.value, n, q;
        }
        first := false;
      }
    }

    /** Nothing is queued behind the first round. */
    lemma {:induction false} SoundEarlier(r: Outcome, poll: bool, nullOk: bool, world: seq<Answer>, n0: nat, n: nat)
      requires n0 <= n <= |world| && Sound(r, poll, nullOk, world, n0, n)
      requires n0 > 0 ==> !(r.Got? && (r.ev.Accept? || r.ev.Stream? || r.ev.Wait?)) && r != NoEvents
      ensures Sound(r, poll, nullOk, world, 0, n)
    {
    }
  }

  lemma {:induction false} ClockStarts(heap: Heap, poll: bool, now: Timespec, world: seq<Answer>)
    ensures Clock(heap, poll, now, world, 0) == now
  {
  }

  /** Nothing is queued that does not need a pselect. */
  ghost predicate Quiet(accepts: seq<nat>, strDone: seq<nat>, waitDone: seq<nat>) {
    accepts == [] && strDone == [] && waitDone == []
  }

  /** The event that is delivered from the queues. */
  ghost function Queued(accepts: seq<nat>, strDone: seq<nat>, waitDone: seq<nat>): Event {
    if accepts != [] then Accept(accepts[0])
    else if strDone != [] then Stream(strDone[0])
    else if waitDone != [] then Wait(waitDone[0])
    else Null
  }

  lemma {:induction false} SelectedInside(next: FdSets, nfds: int, ready: FdSets)
    ensures forall k :: Selected(next, nfds, ready).Of(k) <= next.Of(k)
  {
  }
}
