/** The binary heap of the timers (isc/heap.c), with the callbacks of ev_timers.c: `due_sooner` and `set_index`. */
module EvHeap {
  import opened EvTime
  import opened EvHeapOrder

  datatype Handler = User(code: nat) | IdleTimeout(tt: IdleTimer)

  /** `evTimer` */
  class Timer {
    var func: Handler  // func and uap
    var due: Timespec
    var inter: Timespec
    var index: int
    var rate: bool  // EV_TMR_RATE in mode

    /** A block from the allocator: what it holds in `mode` and `index` is left as it is. */
    constructor (func: Handler, due: Timespec, inter: Timespec, rate: bool, index: int)
      ensures this.func == func && this.due == due && this.inter == inter && this.rate == rate
    {
      this.func, this.due, this.inter, this.rate, this.index := func, due, inter, rate, index;
    }
  }

  /** `idle_timer` */
  class IdleTimer {
    var func: nat
    var lastTouched: Timespec
    var maxIdle: Timespec
    var timer: Timer?

    constructor (func: nat, lastTouched: Timespec, maxIdle: Timespec)
      ensures this.func == func && this.lastTouched == lastTouched && this.maxIdle == maxIdle && timer == null
    {
      this.func, this.lastTouched, this.maxIdle, timer := func, lastTouched, maxIdle, null;
    }
  }

  /** The due times of the elements. */
  ghost function Dues(v: seq<Timer>): (d: seq<Timespec>)
    reads v`due
    ensures |d| == |v|
  {
    if v == [] then [] else Dues(v[..|v| - 1]) + [v[|v| - 1].due]
  }

  ghost predicate DueTimes(v: seq<Timer>, d: seq<Timespec>)
    reads v`due
  {
    |d| == |v| && forall k :: 0 <= k < |v| ==> v[k].due == d[k]
  }

  lemma {:induction false} DuesAre(v: seq<Timer>)
    ensures DueTimes(v, Dues(v))
  {
    if v != [] {
      DuesAre(v[..|v| - 1]);
    }
  }

  lemma {:induction false} DuesOnly(v: seq<Timer>, d: seq<Timespec>)
    requires DueTimes(v, d)
    ensures d == Dues(v)
  {
    DuesAre(v);
    assert forall k :: 0 <= k < |v| ==> v[k].due == Dues(v)[k];
  }

  lemma {:induction false} DueTimesSwapped(v: seq<Timer>, d: seq<Timespec>, i: nat, j: nat)
    requires DueTimes(v, d) && 1 <= i <= |v| && 1 <= j <= |v|
    ensures DueTimes(Swapped(v, i, j), Swapped(d, i, j))
  {
  }

  /** v with its last element in the place of element number i - 1. */
  function Filled<T>(v: seq<T>, i: nat): (w: seq<T>)
    requires 1 <= i < |v|
    ensures |w| == |v| - 1
  {
    v[..|v| - 1][i - 1 := v[|v| - 1]]
  }

  lemma {:induction false} FilledOrder(d: seq<Timespec>, i: nat)
    requires 1 <= i < |d| && Ordered(d)
    ensures Around(Filled(d, i), i)
    ensures Sooner(d[|d| - 1], d[i - 1]) ==> Below(Filled(d, i), i)
    ensures !Sooner(d[|d| - 1], d[i - 1]) ==> Kept(Filled(d, i), i)
  {
    hide Ordered, Around, Below;
    Shorter(d);
    AroundChanged(d[..|d| - 1], Filled(d, i), i);
  }

  /** Every member has its own position as its index, but for the one at position i. */
  ghost predicate Numbered(v: seq<Timer>, members: set<Timer>, i: nat)
    reads members`index
  {
    && (forall k :: 0 <= k < |v| ==> v[k] in members)
    && (forall k {:trigger v[k].index} :: 0 <= k < |v| && k != i - 1 ==> v[k].index == k + 1)
    && (forall t {:trigger t.index} ::
          t in members && (1 <= i <= |v| ==> t != v[i - 1]) ==> 1 <= t.index <= |v| && v[t.index - 1] == t)
    && (1 <= i <= |v| ==> forall k :: 0 <= k < |v| && k != i - 1 ==> v[k] != v[i - 1])
  }

  lemma {:induction false} OwnPlace(v: seq<Timer>, members: set<Timer>, i: nat)
    requires Numbered(v, members, 0) && 1 <= i <= |v|
    ensures v[i - 1] in members
    ensures forall k :: 0 <= k < |v| && k != i - 1 ==> v[k] != v[i - 1]
  {
    forall k | 0 <= k < |v|
      ensures v[k].index == k + 1
    {
    }
  }

  lemma {:induction false} NumberedFilled(v: seq<Timer>, members: set<Timer>, i: nat)
    requires Numbered(v, members, 0) && 1 <= i < |v|
    ensures Numbered(Filled(v, i), members - {v[i - 1]}, i)
  {
    OwnPlace(v, members, i);
    OwnPlace(v, members, |v|);
  }

  lemma {:induction false} NumberedShorter(v: seq<Timer>, members: set<Timer>)
    requires Numbered(v, members, 0) && v != []
    ensures Numbered(v[..|v| - 1], members - {v[|v| - 1]}, 0)
  {
    OwnPlace(v, members, |v|);
  }

  lemma {:induction false} NumberedLonger(v: seq<Timer>, members: set<Timer>, elt: Timer)
    requires Numbered(v, members, 0) && elt !in members
    ensures Numbered(v + [elt], members + {elt}, |v| + 1)
  {
  }

  /** The index callback for the element that moves from j to the free position i. */
  method Renumber(t: Timer, ghost v: seq<Timer>, ghost members: set<Timer>, i: nat, ghost j: nat)
    requires 1 <= i <= |v| && 1 <= j <= |v| && i != j && Numbered(v, members, i) && t == v[j - 1]
    modifies t`index
    ensures Numbered(Swapped(v, i, j), members, j)
  {
    assert t.index == j;
    t.index := i;
  }

  /** `struct heap_context` */
  class Heap {
    var heap: array<Timer?>
    var heapSize: nat
    const increment: nat

    /** The elements in the order of their positions, and as a set. */
    ghost var v: seq<Timer>
    ghost var members: set<Timer>

    /** The array holds the elements, but for position i. */
    ghost predicate Holds(i: nat)
      reads this, heap
    {
      && increment > 1 && |v| == heapSize && (heapSize > 0 ==> heapSize < heap.Length)
      && forall k :: 1 <= k <= heapSize && k != i ==> heap[k] == v[k - 1]
    }

    ghost predicate Valid()
      reads this, heap, members`index, v`due
    {
      Holds(0) && Numbered(v, members, 0) && Ordered(Dues(v))
    }

    /** `heap_new`. With an increment of one the first `heap_insert` would store behind its array: position 0
        is not used, and the array is grown once only. */
    constructor (increment: nat)
      requires increment != 1
      ensures Valid() && members == {} && fresh(heap)
    {
      this.increment := if increment == 0 then 512 else increment;
      heap, heapSize, v, members := new Timer?[0], 0, [], {};
    }

    /** `heap_resize`, with an allocation that succeeds. */
    method Resize()
      requires increment > 0
      modifies this`heap
      ensures fresh(heap) && heap.Length == old(heap.Length) + increment
      ensures forall k :: 0 <= k < old(heap.Length) ==> heap[k] == old(heap[k])
    {
      var bigger := new Timer?[heap.Length + increment];
      forall k | 0 <= k < heap.Length {
        bigger[k] := heap[k];
      }
      heap := bigger;
    }

    /** The element at j moves to the free position i, and j becomes the free one. */
    method Move(i: nat, j: nat)
      requires 1 <= i <= heapSize && 1 <= j <= heapSize && i != j && Holds(i) && Numbered(v, members, i)
      modifies this`v, heap, members`index
      ensures Holds(j) && Numbered(v, members, j) && v == Swapped(old(v), i, j)
    {
      assert heap[j] == v[j - 1] && v[j - 1] in members;
      hide Numbered;
      Renumber(heap[j], v, members, i, j);
      heap[i], v := heap[j], Swapped(v, i, j);
    }

    /** The element in hand goes to the free position. */
    method Place(i: nat, elt: Timer, ghost d: seq<Timespec>)
      requires 1 <= i <= heapSize && Holds(i) && Numbered(v, members, i) && v[i - 1] == elt && DueTimes(v, d) && Ordered(d)
      modifies heap, members`index
      ensures Valid()
    {
      hide Dues, Ordered;
      DuesOnly(v, d);
      heap[i] := elt;
      elt.index := i;
    }

    /** `float_up` */
    method FloatUp(i0: nat, elt: Timer, ghost d0: seq<Timespec>)
      requires 1 <= i0 <= heapSize && Holds(i0) && Numbered(v, members, i0) && v[i0 - 1] == elt && DueTimes(v, d0)
      requires Around(d0, i0) && Below(d0, i0)
      modifies this`v, heap, members`index
      ensures Valid()
    {
      hide Ordered, Around, Below, Numbered, Sooner;
      ghost var d := d0;
      var i := i0;
      var p := i / 2;
      while i > 1 && Sooner(elt.due, heap[p].due)
        invariant 1 <= i <= heapSize && p == i / 2 && |v| == |d| == heapSize
        invariant Holds(i) && Numbered(v, members, i) && v[i - 1] == elt && DueTimes(v, d)
        invariant Around(d, i) && Below(d, i)
      {
        StepUp(d, i);
        DueTimesSwapped(v, d, i, p);
        Move(i, p);
        d := Swapped(d, i, p);
        i := p;
        p := i / 2;
      }
      WholeOrder(d, i);
      Place(i, elt, d);
    }

    /** The choice in `sink_down` of the child with the earlier time. */
    method SoonerChild(i: nat, ghost d: seq<Timespec>) returns (j: nat)
      requires 1 <= i <= heapSize / 2 && Holds(i) && DueTimes(v, d)
      ensures j / 2 == i < j <= heapSize && !Sooner(d[2 * i - 1], d[j - 1])
      ensures 2 * i < heapSize ==> !Sooner(d[2 * i], d[j - 1])
      ensures heap[j] != null && heap[j].due == d[j - 1]
    {
      j := 2 * i;
      if j < heapSize && Sooner(heap[j + 1].due, heap[j].due) {
        j := j + 1;
      }
    }

    /** `sink_down` */
    method SinkDown(i0: nat, elt: Timer, ghost d0: seq<Timespec>)
      requires 1 <= i0 <= heapSize && Holds(i0) && Numbered(v, members, i0) && v[i0 - 1] == elt && DueTimes(v, d0)
      requires Around(d0, i0) && Kept(d0, i0)
      modifies this`v, heap, members`index
      ensures Valid()
    {
      hide Ordered, Around, Kept, Numbered, Sooner;
      ghost var d := d0;
      var i := i0;
      var halfSize := heapSize / 2;
      while i <= halfSize
        invariant 1 <= i <= heapSize && |v| == |d| == heapSize
        invariant Holds(i) && Numbered(v, members, i) && v[i - 1] == elt && DueTimes(v, d)
        invariant Around(d, i) && Kept(d, i)
        decreases heapSize - i
      {
        var j := SoonerChild(i, d);
        if Sooner(elt.due, heap[j].due) {
          SunkHere(d, i, j);
          Place(i, elt, d);
          return;
        }
        StepDown(d, i, j);
        DueTimesSwapped(v, d, i, j);
        Move(i, j);
        d := Swapped(d, i, j);
        i := j;
      }
      SunkHere(d, i, i);
      Place(i, elt, d);
    }

    /** `heap_insert` */
    method Insert(elt: Timer)
      requires Valid() && elt !in members
      modifies this`heap, this`heapSize, this`v, this`members, heap, members`index, elt`index
      ensures Valid() && members == old(members) + {elt}
      ensures heap == old(heap) || fresh(heap)
    {
      hide Dues, Ordered, Around, Below, Kept, Numbered;
      NumberedLonger(v, members, elt);
      ghost var d := Dues(v);
      DuesAre(v);
      Longer(d, elt.due);
      heapSize := heapSize + 1;
      if heapSize >= heap.Length {
        Resize();
      }
      v, members := v + [elt], members + {elt};
      FloatUp(heapSize, elt, d + [elt.due]);
    }

    /** The last element comes to position i, in the place of the one there. */
    method Refill(i: nat) returns (elt: Timer)
      requires Holds(0) && Numbered(v, members, 0) && 1 <= i < heapSize
      modifies this`heapSize, this`v, this`members, heap
      ensures Holds(i) && Numbered(v, members, i) && v == Filled(old(v), i) && elt == v[i - 1] && heap[i] == elt
      ensures members == old(members) - {old(v)[i - 1]}
    {
      hide Numbered;
      NumberedFilled(v, members, i);
      elt := heap[heapSize];
      heap[i], heapSize, members, v := elt, heapSize - 1, members - {v[i - 1]}, Filled(v, i);
    }

    /** The last element is dropped. */
    method DropLast()
      requires Holds(0) && Numbered(v, members, 0) && heapSize > 0
      modifies this`heapSize, this`v, this`members
      ensures Holds(0) && Numbered(v, members, 0) && v == old(v)[..|old(v)| - 1]
      ensures members == old(members) - {old(v)[|old(v)| - 1]}
    {
      hide Numbered;
      NumberedShorter(v, members);
      heapSize, members, v := heapSize - 1, members - {v[|v| - 1]}, v[..|v| - 1];
    }

    /** `heap_delete`; the element removed keeps the index it had. */
    method Delete(i: int) returns (ok: bool)
      requires Valid()
      modifies this`heapSize, this`v, this`members, heap, members`index
      ensures Valid() && ok == (1 <= i <= |old(v)|)
      ensures ok ==> members == old(members) - {old(v)[i - 1]}
      ensures !ok ==> v == old(v) && members == old(members)
    {
      hide Dues, Ordered, Around, Below, Kept, Numbered, Sooner;
      if i < 1 || i > heapSize {
        return false;
      }
      ghost var d := Dues(v);
      DuesAre(v);
      if i == heapSize {
        Shorter(d);
        DropLast();
        DuesOnly(v, d[..i - 1]);
      } else {
        FilledOrder(d, i);
        var less := Sooner(heap[heapSize].due, heap[i].due);
        var elt := Refill(i);
        if less {
          FloatUp(i, heap[i], Filled(d, i));
        } else {
          SinkDown(i, heap[i], Filled(d, i));
        }
      }
      return true;
    }

    /** The elements but for the one at position i are where a valid heap with the times d had them. */
    ghost predicate Disturbed(i: nat, d: seq<Timespec>)
      reads this, heap, members`index, v`due
    {
      && Holds(0) && Numbered(v, members, 0) && 1 <= i <= |v| == |d|
      && Ordered(d) && forall k :: 0 <= k < |v| && k != i - 1 ==> v[k].due == d[k]
    }

    /** `heap_increased`: the element at i is due no later than when the heap was valid. */
    method Increased(i: nat, ghost d: seq<Timespec>)
      requires Disturbed(i, d) && !Sooner(d[i - 1], v[i - 1].due)
      modifies this`v, heap, members`index
      ensures Valid()
    {
      hide Dues, Ordered, Around, Below, Kept, Numbered, Sooner;
      DuesAre(v);
      AroundChanged(d, Dues(v), i);
      InHand(i);
      FloatUp(i, heap[i], Dues(v));
    }

    /** `heap_decreased`: the element at i is due no sooner than when the heap was valid. */
    method Decreased(i: nat, ghost d: seq<Timespec>)
      requires Disturbed(i, d) && !Sooner(v[i - 1].due, d[i - 1])
      modifies this`v, heap, members`index
      ensures Valid()
    {
      hide Dues, Ordered, Around, Below, Kept, Numbered, Sooner;
      DuesAre(v);
      AroundChanged(d, Dues(v), i);
      InHand(i);
      SinkDown(i, heap[i], Dues(v));
    }

    lemma {:induction false} InHand(i: nat)
      requires Numbered(v, members, 0) && 1 <= i <= |v|
      ensures Numbered(v, members, i)
    {
      OwnPlace(v, members, i);
    }

    /** `heap_element` */
    method Element(i: int) returns (t: Timer?)
      requires Valid()
      ensures t == if 1 <= i <= |v| then v[i - 1] else null
    {
      t := if i < 1 || i > heapSize then null else heap[i];
    }

    /** An element is found through its own index; what is no element is not. */
    lemma {:induction false} FoundByIndex(t: Timer)
      requires Valid()
      ensures t in members <==> 1 <= t.index <= |v| && v[t.index - 1] == t
    {
    }

    /** A member is at the position that it has as its index, and at no other. */
    lemma {:induction false} Located(t: Timer)
      requires Valid() && t in members
      ensures 1 <= t.index <= |v| && v[t.index - 1] == t
      ensures forall k :: 0 <= k < |v| && k != t.index - 1 ==> v[k] != t
    {
      FoundByIndex(t);
      OwnPlace(v, members, t.index);
    }

    /** No member is due before the first element. */
    lemma {:induction false} FirstIsEarliest(t: Timer)
      requires Valid() && t in members
      ensures v != [] && !Sooner(t.due, v[0].due) && v[0] in members
    {
      FoundByIndex(t);
      DuesAre(v);
      Earliest(Dues(v), t.index);
    }

    /** The first element is one of the earliest, and there is one unless the heap is empty. */
    lemma {:induction false} First()
      requires Valid()
      ensures v == [] ==> members == {}
      ensures v != [] ==> v[0] in members && forall t :: t in members ==> !Sooner(t.due, v[0].due)
    {
      forall t | t in members
        ensures v != [] && !Sooner(t.due, v[0].due)
      {
        FirstIsEarliest(t);
      }
    }
  }
}
