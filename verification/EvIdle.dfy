/** The life of an idle timer: when its function is called, over all runs of touches and polls (isc/ev_timers.c). */
module EvIdle {
  import opened Options
  import opened EvTime
  import opened EvHeapOrder
  import opened EvHeap
  import opened EvTimers

  /** At a time, the timer is touched, or the context is asked for an event and dispatches it. */
  datatype Step = Touch(now: Timespec) | Poll(now: Timespec)

  /** The clock does not run backwards. */
  ghost predicate Monotone(steps: seq<Step>, start: Timespec) {
    && (forall k :: 0 <= k < |steps| ==> !BadTime(steps[k].now) && Nanos(start) <= Nanos(steps[k].now))
    && (forall j, k :: 0 <= j <= k < |steps| ==> Nanos(steps[j].now) <= Nanos(steps[k].now))
  }

  /** The last touch before step i. */
  function LastTouch(steps: seq<Step>, touched: Timespec, i: nat): Timespec
    requires i <= |steps|
  {
    if i == 0 then touched
    else if steps[i - 1].Touch? then steps[i - 1].now
    else LastTouch(steps, touched, i - 1)
  }

  /** Step i is a poll, and since the last touch before it the time allowed has passed. */
  predicate Expires(steps: seq<Step>, touched: Timespec, maxIdle: Timespec, i: nat)
    requires i < |steps|
  {
    steps[i].Poll? && Nanos(steps[i].now) - Nanos(LastTouch(steps, touched, i)) >= Nanos(maxIdle)
  }

  /** An idle timer among others: it is due no later than it may expire. */
  ghost predicate Alive(ctx: Timers, t: Timer, tt: IdleTimer)
    reads ctx, ctx.timers, ctx.timers.heap, ctx.timers.members, ctx.timers.v, t, tt
    reads set m | m in ctx.timers.members && m.func.IdleTimeout? :: m.func.tt
  {
    && ctx.Valid() && t in ctx.timers.members && t.func == IdleTimeout(tt) && AllPaired(ctx.timers.members)
    && Nanos(t.due) <= Nanos(Deadline(tt)) && Nanos(tt.lastTouched) <= Nanos(ctx.lastEventTime)
  }

  /** All idle timers have records of their own, with usable times. */
  ghost predicate AllPaired(members: set<Timer>)
    reads members, set m | m in members && m.func.IdleTimeout? :: m.func.tt
  {
    forall m :: m in members && m.func.IdleTimeout? ==> IdlePair(m) && Past(m.func.tt)
  }

  /** `evGetNext` and `evDispatch`, when there are timers only: the first one is dispatched if it is due. */
  method PollOnce(ctx: Timers, t: Timer, tt: IdleTimer) returns (first: Timer?, called: bool)
    requires Alive(ctx, t, tt)
    modifies ctx`cur, ctx.timers, ctx.timers.heap, ctx.timers.members
    ensures first != null ==> first in old(ctx.timers.members) && Nanos(old(first.due)) <= Nanos(ctx.lastEventTime)
    ensures forall m :: m in old(ctx.timers.members) ==>
              if first != null then Nanos(old(first.due)) <= Nanos(old(m.due)) else Nanos(old(m.due)) > Nanos(ctx.lastEventTime)
    ensures called == (first == t && Nanos(ctx.lastEventTime) >= Nanos(Deadline(tt)))
    ensures !called ==> Alive(ctx, t, tt) && ctx.timers.members <= old(ctx.timers.members)
    ensures ctx.timers.heap == old(ctx.timers.heap)
  {
    hide Ordered, Numbered, Dues, BadTime;
    called := false;
    ctx.timers.FirstIsEarliest(t);
    first := ctx.timers.Element(1);
    FirstDue(ctx);
    Usable(ctx, first);
    CmpIs(first.due, ctx.lastEventTime);
    if Cmp(first.due, ctx.lastEventTime) <= 0 {
      var ran := ctx.Dispatch(first);
      called := first == t && ran.Some?;
    } else {
      first := null;
    }
  }

  lemma {:induction false} FirstDue(ctx: Timers)
    requires ctx.Valid() && ctx.timers.members != {}
    ensures ctx.timers.v != [] && ctx.timers.v[0] in ctx.timers.members
    ensures forall m :: m in ctx.timers.members ==> Nanos(ctx.timers.v[0].due) <= Nanos(m.due)
  {
    hide Ordered, Numbered, Dues;
    ctx.timers.First();
    var first := ctx.timers.v[0];
    forall m | m in ctx.timers.members
      ensures Nanos(first.due) <= Nanos(m.due)
    {
      Usable(ctx, m);
      Usable(ctx, first);
      CmpIs(m.due, first.due);
    }
  }

  lemma {:induction false} Usable(ctx: Timers, t: Timer)
    requires ctx.Valid() && t in ctx.timers.members
    ensures Normal(t.due) && Normal(ctx.lastEventTime)
  {
  }

  /** One step. */
  method Do(ctx: Timers, t: Timer, tt: IdleTimer, step: Step) returns (first: Timer?, called: bool)
    requires Alive(ctx, t, tt) && !BadTime(step.now) && Nanos(ctx.lastEventTime) <= Nanos(step.now)
    modifies ctx, ctx.timers, ctx.timers.heap, ctx.timers.members, tt`lastTouched
    ensures ctx.lastEventTime == step.now && ctx.timers.heap == old(ctx.timers.heap)
    ensures step.Touch? ==> first == null && !called && tt.lastTouched == step.now
    ensures step.Poll? ==>
              && tt.lastTouched == old(tt.lastTouched)
              && (called <==> first == t && Nanos(step.now) - Nanos(tt.lastTouched) >= Nanos(tt.maxIdle))
              && (Nanos(step.now) - Nanos(tt.lastTouched) >= Nanos(tt.maxIdle) ==> first != null)
    ensures !called ==> Alive(ctx, t, tt) && ctx.timers.members <= old(ctx.timers.members)
  {
    hide Ordered, Numbered, Dues, Heap.Valid;
    ctx.lastEventTime := step.now;
    first, called := null, false;
    if step.Touch? {
      ctx.TouchIdleTimer(t);
    } else {
      first, called := PollOnce(ctx, t, tt);
    }
  }

  /** The function of an idle timer is called at the first poll that comes when the time allowed has passed since the
      last touch and that finds no other timer due before it, and at no other: whatever the mode of the timer is,
      and whatever other timers there are. What was dispatched at each step is the last result. */
  method Life(ctx: Timers, t: Timer, tt: IdleTimer, steps: seq<Step>) returns (at: Option<nat>, ran: seq<Timer?>)
    requires Alive(ctx, t, tt) && Monotone(steps, ctx.lastEventTime)
    modifies ctx, ctx.timers, ctx.timers.heap, ctx.timers.members, tt`lastTouched
    ensures |ran| <= |steps| && forall i :: 0 <= i < |ran| && ran[i] != null ==> steps[i].Poll?
    ensures at.Some? ==> |ran| == at.value + 1 && ran[at.value] == t && Expires(steps, old(tt.lastTouched), tt.maxIdle, at.value)
    ensures at.None? ==> |ran| == |steps|
    ensures forall i :: 0 <= i < |ran| && Expires(steps, old(tt.lastTouched), tt.maxIdle, i) ==>
              ran[i] != null && (ran[i] == t ==> at == Some(i))
  {
    hide Alive, Timers.Valid;
    ghost var touched := tt.lastTouched;
    ran, at := [], None;
    while |ran| < |steps|
      invariant |ran| <= |steps| && at.None?
      invariant Alive(ctx, t, tt) && ctx.timers.heap == old(ctx.timers.heap) && ctx.timers.members <= old(ctx.timers.members)
      invariant tt.lastTouched == LastTouch(steps, touched, |ran|)
      invariant forall i :: 0 <= i < |ran| && ran[i] != null ==> steps[i].Poll?
      invariant forall k :: 0 <= k < |ran| && Expires(steps, touched, tt.maxIdle, k) ==> ran[k] != null && ran[k] != t
      invariant forall k :: |ran| <= k < |steps| ==> Nanos(ctx.lastEventTime) <= Nanos(steps[k].now)
    {
      var first, called := Do(ctx, t, tt, steps[|ran|]);
      ran := ran + [first];
      if called {
        return Some(|ran| - 1), ran;
      }
    }
  }
}
