/** Times of the event library (isc/ev_timers.c): a second and a nanosecond part. */
module EvTime {
  const BILLION := 1_000_000_000

  datatype Timespec = Timespec(sec: int, nsec: int)

  const NO_TIME := Timespec(0, 0)

  /** The nanosecond part lies inside one second. */
  predicate Normal(t: Timespec) {
    0 <= t.nsec < BILLION
  }

  /** The time as one number of nanoseconds. */
  function Nanos(t: Timespec): int {
    t.sec * BILLION + t.nsec
  }

  /** `evAddTime` */
  function Add(a: Timespec, b: Timespec): (x: Timespec)
    ensures Nanos(x) == Nanos(a) + Nanos(b)
    ensures Normal(a) && Normal(b) ==> Normal(x)
  {
    var nsec := a.nsec + b.nsec;
    if nsec >= BILLION then Timespec(a.sec + b.sec + 1, nsec - BILLION) else Timespec(a.sec + b.sec, nsec)
  }

  /** `evSubTime` */
  function Sub(a: Timespec, b: Timespec): (x: Timespec)
    ensures Nanos(x) == Nanos(a) - Nanos(b)
    ensures Normal(a) && Normal(b) ==> Normal(x)
  {
    if a.nsec >= b.nsec then
      Timespec(a.sec - b.sec, a.nsec - b.nsec)
    else
      Timespec(a.sec - b.sec - 1, BILLION - b.nsec + a.nsec)
  }

  /** `evCmpTime` */
  function Cmp(a: Timespec, b: Timespec): int {
    var x := if a.sec - b.sec == 0 then a.nsec - b.nsec else a.sec - b.sec;
    if x < 0 then -1 else if x > 0 then 1 else 0
  }

  /** The comparison is that of the nanosecond counts. */
  lemma {:induction false} CmpIs(a: Timespec, b: Timespec)
    requires Normal(a) && Normal(b)
    ensures Cmp(a, b) < 0 <==> Nanos(a) < Nanos(b)
    ensures Cmp(a, b) > 0 <==> Nanos(a) > Nanos(b)
    ensures Cmp(a, b) == 0 <==> a == b
  {
    if a.sec < b.sec {
      assert a.sec * BILLION + BILLION <= b.sec * BILLION;
    } else if b.sec < a.sec {
      assert b.sec * BILLION + BILLION <= a.sec * BILLION;
    }
  }

  /** The order of the timers: a is strictly earlier. */
  predicate Sooner(a: Timespec, b: Timespec) {
    Cmp(a, b) < 0
  }

  /** A time is determined by its nanoseconds, so that sums and differences cancel. */
  lemma {:induction false} SameTime(a: Timespec, b: Timespec)
    requires Normal(a) && Normal(b) && Nanos(a) == Nanos(b)
    ensures a == b
  {
    assert a.nsec == Nanos(a) % BILLION && b.nsec == Nanos(b) % BILLION;
  }

  lemma {:induction false} SubThenAdd(a: Timespec, b: Timespec)
    requires Normal(a) && Normal(b)
    ensures Add(Sub(a, b), b) == a && Sub(Add(a, b), b) == a
  {
    SameTime(Add(Sub(a, b), b), a);
    SameTime(Sub(Add(a, b), b), a);
  }
}
