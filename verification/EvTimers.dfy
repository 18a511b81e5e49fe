/** Timers and idle timers of an event context (isc/ev_timers.c, and the timer part of isc/eventlib.c). */
module EvTimers {
  import opened Options
  import opened EvTime
  import opened EvHeapOrder
  import opened EvHeap

  datatype Status = Ok | EINVAL | ENOENT

  /** What `evSetTimer` and `evResetTimer` refuse. */
  predicate BadTime(t: Timespec) {
    t.sec < 0 || t.nsec < 0 || t.nsec >= BILLION
  }

  lemma {:induction false} GoodSum(a: Timespec, b: Timespec)
    requires !BadTime(a) && !BadTime(b)
    ensures !BadTime(Add(a, b))
  {
  }

  /** The timer part of `evContext_p`. */
  class Timers {
    const timers: Heap
    var lastEventTime: Timespec
    var cur: Timer?  // the timer of the event being dispatched

    ghost predicate Valid()
      reads this, timers, timers.heap, timers.members, timers.v
    {
      && timers.Valid() && !BadTime(lastEventTime)
      && forall t :: t in timers.members ==> !BadTime(t.due) && !BadTime(t.inter)
    }

    /** `evCreate` and `evCreateTimers` */
    constructor (now: Timespec)
      requires !BadTime(now)
      ensures Valid() && timers.members == {} && lastEventTime == now && cur == null
      ensures fresh(timers) && fresh(timers.heap)
    {
      timers := new Heap(2048);
      lastEventTime, cur := now, null;
    }

    /** `evSetTimer`; the time zero stands for now. */
    method SetTimer(func: Handler, due0: Timespec, inter: Timespec, now: Timespec, rate: bool, index: int)
      returns (r: Status, id: Timer?)
      requires Valid() && !BadTime(now)
      modifies timers, timers.heap, timers.members`index
      ensures Valid() && (timers.heap == old(timers.heap) || fresh(timers.heap))
      ensures r == if BadTime(due0) || BadTime(inter) then EINVAL else Ok
      ensures r != Ok ==> timers.members == old(timers.members)
      ensures r == Ok ==> id != null && fresh(id) && timers.members == old(timers.members) + {id}
      ensures r == Ok ==> id.func == func && id.due == (if due0 == NO_TIME then now else due0) && id.inter == inter
      ensures r == Ok ==> id.rate == rate
    {
      hide Ordered, Numbered;
      if BadTime(due0) || BadTime(inter) {
        return EINVAL, null;
      }
      var due := if due0 == NO_TIME then now else due0;
      id := new Timer(func, due, inter, rate, index);
      timers.Insert(id);
      r := Ok;
    }

    /** Whether the timer is in the heap, as the library finds out. */
    method Listed(t: Timer) returns (b: bool)
      requires Valid()
      ensures b == (t in timers.members)
    {
      timers.FoundByIndex(t);
      hide Ordered, Numbered;
      var e := timers.Element(t.index);
      b := e == t;
    }

    /** `evClearTimer`; a timer that is being dispatched is left to `evDrop`. */
    method ClearTimer(del: Timer) returns (r: Status)
      requires Valid()
      modifies timers, timers.heap, timers.members`index, del`inter
      ensures Valid() && timers.heap == old(timers.heap)
      ensures r == if cur == del || del in old(timers.members) then Ok else ENOENT
      ensures timers.members == old(timers.members) - (if cur == del then {} else {del})
      ensures del.inter == if cur == del then NO_TIME else old(del.inter)
    {
      hide Ordered, Numbered;
      if cur == del {
        del.inter := NO_TIME;
        return Ok;
      }
      var listed := Listed(del);
      if !listed {
        return ENOENT;
      }
      timers.Located(del);
      var done := timers.Delete(del.index);
      r := Ok;
    }

    /** `evConfigTimer` */
    method ConfigTimer(timer: Timer, param: string) returns (r: Status)
      requires Valid()
      modifies timer`rate
      ensures Valid()
      ensures r == if timer !in timers.members then ENOENT else if param in {"rate", "interval"} then Ok else EINVAL
      ensures timer.rate == if r == Ok then param == "rate" else old(timer.rate)
    {
      var listed := Listed(timer);
      hide Ordered, Numbered;
      if !listed {
        return ENOENT;
      }
      if param == "rate" {
        timer.rate := true;
      } else if param == "interval" {
        timer.rate := false;
      } else {
        return EINVAL;
      }
      return Ok;
    }

    /** The end of `evResetTimer`: the timer had the due time oldDue when the heap was in order. */
    method Reorder(timer: Timer, oldDue: Timespec, ghost d: seq<Timespec>)
      requires timer.index >= 0 && timers.Disturbed(timer.index, d) && timers.v[timer.index - 1] == timer && d[timer.index - 1] == oldDue
      modifies timers`v, timers.heap, timers.members`index
      ensures timers.Valid()
    {
      hide Ordered, Numbered, Dues;
      var c := Cmp(timer.due, oldDue);
      if c < 0 {
        timers.Increased(timer.index, d);
      } else if c == 0 {
        DuesOnly(timers.v, d);
      } else {
        timers.Decreased(timer.index, d);
      }
    }

    /** `evResetTimer` */
    method ResetTimer(timer: Timer, func: Handler, due: Timespec, inter: Timespec) returns (r: Status)
      requires Valid()
      modifies timers, timers.heap, timers.members`index, timer`func, timer`due, timer`inter
      ensures Valid() && timers.heap == old(timers.heap) && timers.members == old(timers.members)
      ensures r == if timer !in timers.members then ENOENT else if BadTime(due) || BadTime(inter) then EINVAL else Ok
      ensures if r == Ok then timer.func == func && timer.due == due && timer.inter == inter
              else timer.func == old(timer.func) && timer.due == old(timer.due) && timer.inter == old(timer.inter)
    {
      hide Ordered, Numbered, Dues, BadTime;
      var listed := Listed(timer);
      if !listed {
        return ENOENT;
      }
      if BadTime(due) || BadTime(inter) {
        return EINVAL;
      }
      timers.Located(timer);
      ghost var d := Dues(timers.v);
      DuesAre(timers.v);
      var oldDue := timer.due;
      timer.func, timer.due, timer.inter := func, due, inter;
      Reorder(timer, oldDue, d);
      return Ok;
    }

    /** `evDrop` of a timer event. */
    method Drop(t: Timer)
      requires Valid()
      modifies timers, timers.heap, timers.members`index, t`func, t`due, t`inter
      ensures Valid() && timers.heap == old(timers.heap)
      ensures t.func == old(t.func)
      ensures t !in old(timers.members) ==> timers.members == old(timers.members) && t.due == old(t.due)
      ensures t in old(timers.members) && old(t.inter) == NO_TIME ==>
                timers.members == old(timers.members) - (if cur == t then {} else {t})
      ensures t in old(timers.members) && old(t.inter) != NO_TIME ==>
                && timers.members == old(timers.members) && t.inter == old(t.inter)
                && t.due == Add(if t.rate then old(t.due) else lastEventTime, old(t.inter))
    {
      var listed := Listed(t);
      hide Ordered, Numbered;
      if !listed {
        return;
      }
      if t.inter == NO_TIME {
        var r := ClearTimer(t);
      } else {
        GoodSum(if t.rate then t.due else lastEventTime, t.inter);
        var r := ResetTimer(t, t.func, Add(if t.rate then t.due else lastEventTime, t.inter), t.inter);
      }
    }

    /** `evSetIdleTimer` */
    method SetIdleTimer(func: nat, maxIdle: Timespec, now: Timespec, rate: bool, index: int)
      returns (r: Status, id: Timer?)
      requires Valid() && !BadTime(now)
      modifies timers, timers.heap, timers.members`index
      ensures Valid() && r == if BadTime(Add(lastEventTime, maxIdle)) || BadTime(maxIdle) then EINVAL else Ok
      ensures r != Ok ==> timers.members == old(timers.members)
      ensures r == Ok ==> id != null && fresh(id) && timers.members == old(timers.members) + {id} && id.rate == rate
      ensures r == Ok ==> IdlePair(id) && fresh(id.func.tt) && id.func.tt.func == func
      ensures r == Ok ==> id.func.tt.lastTouched == lastEventTime && id.func.tt.maxIdle == maxIdle
      ensures r == Ok && Add(lastEventTime, maxIdle) != NO_TIME ==> id.due == Deadline(id.func.tt)
    {
      hide Ordered, Numbered;
      var tt := new IdleTimer(func, lastEventTime, maxIdle);
      r, id := SetTimer(Handler.IdleTimeout(tt), Add(lastEventTime, maxIdle), maxIdle, now, rate, index);
      if r == Ok {
        tt.timer := id;
      }
    }

    /** `evClearIdleTimer`, which also frees the record. */
    method ClearIdleTimer(id: Timer) returns (r: Status)
      requires Valid()
      modifies timers, timers.heap, timers.members`index, id`inter
      ensures Valid() && r == if cur == id || id in old(timers.members) then Ok else ENOENT
      ensures timers.members == old(timers.members) - (if cur == id then {} else {id})
    {
      r := ClearTimer(id);
    }

    /** `evResetIdleTimer`; the record of the idle timer changes even when the times are refused. */
    method ResetIdleTimer(id: Timer, func: nat, maxIdle: Timespec) returns (r: Status)
      requires Valid() && IdlePair(id)
      modifies timers, timers.heap, timers.members`index, id`func, id`due, id`inter, id.func.tt
      ensures Valid() && IdlePair(id) && id.func == old(id.func) && timers.members == old(timers.members)
      ensures id.func.tt.func == func && id.func.tt.lastTouched == lastEventTime && id.func.tt.maxIdle == maxIdle
      ensures r == if id !in timers.members then ENOENT
                   else if BadTime(Add(lastEventTime, maxIdle)) || BadTime(maxIdle) then EINVAL else Ok
      ensures id.due == if r == Ok then Deadline(id.func.tt) else old(id.due)
    {
      hide Ordered, Numbered;
      var tt := id.func.tt;
      tt.func, tt.lastTouched, tt.maxIdle := func, lastEventTime, maxIdle;
      r := ResetTimer(id, Handler.IdleTimeout(tt), Add(lastEventTime, maxIdle), maxIdle);
    }

    /** `evTouchIdleTimer` */
    method TouchIdleTimer(id: Timer)
      requires id.func.IdleTimeout?
      modifies id.func.tt`lastTouched
      ensures id.func.tt.lastTouched == lastEventTime
    {
      id.func.tt.lastTouched := lastEventTime;
    }

    /** `idle_timeout`, as far as the call of the user's function, whose code is the result. */
    method IdleTimeout(tt: IdleTimer) returns (ran: Option<nat>)
      requires tt.timer != null
      modifies tt.timer`inter
      ensures Cmp(Sub(lastEventTime, tt.lastTouched), tt.maxIdle) >= 0 ==> ran == Some(tt.func) && tt.timer.inter == NO_TIME
      ensures Cmp(Sub(lastEventTime, tt.lastTouched), tt.maxIdle) < 0 ==>
                ran == None && tt.timer.inter == Sub(tt.maxIdle, Sub(lastEventTime, tt.lastTouched))
    {
      var idle := Sub(lastEventTime, tt.lastTouched);
      if Cmp(idle, tt.maxIdle) >= 0 {
        ran := Some(tt.func);
        tt.timer.inter := NO_TIME;
      } else {
        ran := None;
        tt.timer.inter := Sub(tt.maxIdle, idle);
      }
    }

    /** `evDispatch` of a timer event, for a user's function that leaves the timers alone: its code is the result.
        An idle timer expires when its time has passed, and otherwise it is set for the time of its expiry,
        unless its mode is EV_TMR_RATE. */
    method Dispatch(t: Timer) returns (ran: Option<nat>)
      requires Valid() && t in timers.members && (t.func.IdleTimeout? ==> IdlePair(t) && Past(t.func.tt))
      modifies `cur, timers, timers.heap, timers.members`index, t`func, t`due, t`inter
      ensures Valid() && cur == null && t.func == old(t.func) && timers.heap == old(timers.heap)
      ensures t.func.User? ==> ran == Some(t.func.code)
      ensures t.func.User? && old(t.inter) == NO_TIME ==> timers.members == old(timers.members) - {t}
      ensures t.func.User? && old(t.inter) != NO_TIME ==>
                && timers.members == old(timers.members) && t.inter == old(t.inter)
                && t.due == Add(if t.rate then old(t.due) else lastEventTime, old(t.inter))
      ensures t.func.IdleTimeout? ==>
                ran == if Nanos(lastEventTime) >= Nanos(Deadline(t.func.tt)) then Some(t.func.tt.func) else None
      ensures t.func.IdleTimeout? && ran.Some? ==> timers.members == old(timers.members) - {t}
      ensures t.func.IdleTimeout? && ran.None? ==> timers.members == old(timers.members)
      ensures t.func.IdleTimeout? && ran.None? && !t.rate ==> t.due == Deadline(t.func.tt)
      ensures t.func.IdleTimeout? && ran.None? && t.rate ==>
                Nanos(t.due) == Nanos(Deadline(t.func.tt)) - (Nanos(lastEventTime) - Nanos(old(t.due)))
    {
      hide Ordered, Numbered;
      cur := t;
      match t.func {
        case User(code) =>
          ran := Some(code);
        case IdleTimeout(tt) =>
          LeftOver(lastEventTime, tt.lastTouched, tt.maxIdle);
          ran := IdleTimeout(tt);
      }
      cur := null;
      Drop(t);
    }
  }

  /** The idle timer and its record refer to each other. */
  ghost predicate IdlePair(t: Timer)
    reads t`func, (if t.func.IdleTimeout? then {t.func.tt} else {})`timer
  {
    t.func.IdleTimeout? && t.func.tt.timer == t
  }

  /** The record holds usable times. */
  ghost predicate Past(tt: IdleTimer)
    reads tt`lastTouched, tt`maxIdle
  {
    !BadTime(tt.lastTouched) && !BadTime(tt.maxIdle)
  }

  /** The time of expiry. */
  function Deadline(tt: IdleTimer): Timespec
    reads tt`lastTouched, tt`maxIdle
  {
    Add(tt.lastTouched, tt.maxIdle)
  }

  /** The interval that `idle_timeout` leaves for `evDrop`. */
  lemma {:induction false} LeftOver(now: Timespec, touched: Timespec, maxIdle: Timespec)
    requires !BadTime(now) && !BadTime(touched) && !BadTime(maxIdle)
    ensures Cmp(Sub(now, touched), maxIdle) >= 0 <==> Nanos(now) >= Nanos(Add(touched, maxIdle))
    ensures var left := Sub(maxIdle, Sub(now, touched));
            Cmp(Sub(now, touched), maxIdle) < 0 ==>
              !BadTime(left) && left != NO_TIME && Add(now, left) == Add(touched, maxIdle)
  {
    var idle := Sub(now, touched);
    CmpIs(idle, maxIdle);
    var left := Sub(maxIdle, idle);
    if Cmp(idle, maxIdle) < 0 {
      assert Nanos(left) > 0;
      SameTime(Add(now, left), Add(touched, maxIdle));
    }
  }
}
