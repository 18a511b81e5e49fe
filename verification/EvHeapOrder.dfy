/** The order of a binary heap, as a property of the due times at its positions 1, 2, ... (isc/heap.c). */
module EvHeapOrder {
  import opened EvTime

  /** The time at position k is not before the one at the parent position. */
  predicate Kept(d: seq<Timespec>, k: nat)
    requires 1 <= k <= |d|
  {
    k / 2 >= 1 ==> !Sooner(d[k - 1], d[k / 2 - 1])
  }

  /** The children of i are not before the parent of i. */
  predicate Skipped(d: seq<Timespec>, i: nat, k: nat)
    requires 1 <= i <= |d| && 1 <= k <= |d|
  {
    i / 2 >= 1 ==> !Sooner(d[k - 1], d[i / 2 - 1])
  }

  ghost predicate Ordered(d: seq<Timespec>) {
    forall k :: 1 <= k <= |d| ==> Kept(d, k)
  }

  /** The order holds wherever position i is not involved, and across it. */
  ghost predicate Around(d: seq<Timespec>, i: nat)
    requires 1 <= i <= |d|
  {
    && (forall k :: 1 <= k <= |d| && k != i && k / 2 != i ==> Kept(d, k))
    && (forall k :: 1 <= k <= |d| && k / 2 == i ==> Skipped(d, i, k))
  }

  /** The order holds between position i and its children. */
  ghost predicate Below(d: seq<Timespec>, i: nat)
    requires 1 <= i <= |d|
  {
    forall k :: 1 <= k <= |d| && k / 2 == i ==> Kept(d, k)
  }

  function Swapped<T>(d: seq<T>, i: nat, j: nat): seq<T>
    requires 1 <= i <= |d| && 1 <= j <= |d|
  {
    d[i - 1 := d[j - 1]][j - 1 := d[i - 1]]
  }

  lemma {:induction false} WholeOrder(d: seq<Timespec>, i: nat)
    requires 1 <= i <= |d|
    ensures Ordered(d) <==> Around(d, i) && Below(d, i) && Kept(d, i)
  {
    if Ordered(d) {
      forall k | 1 <= k <= |d| && k / 2 == i
        ensures Skipped(d, i, k)
      {
        assert Kept(d, k) && Kept(d, i);
      }
    }
  }

  /** Changing the time at i alone leaves the order around i. */
  lemma {:induction false} AroundChanged(d: seq<Timespec>, e: seq<Timespec>, i: nat)
    requires Ordered(d) && 1 <= i <= |d| == |e| && forall k :: 0 <= k < |d| && k != i - 1 ==> e[k] == d[k]
    ensures Around(e, i)
    ensures !Sooner(d[i - 1], e[i - 1]) ==> Below(e, i)
    ensures !Sooner(e[i - 1], d[i - 1]) ==> Kept(e, i)
  {
    WholeOrder(d, i);
    forall k | 1 <= k <= |e| && k != i && k / 2 != i
      ensures Kept(e, k)
    {
      assert Kept(d, k);
    }
    forall k | 1 <= k <= |e| && k / 2 == i
      ensures Skipped(e, i, k)
      ensures !Sooner(d[i - 1], e[i - 1]) ==> Kept(e, k)
    {
      assert Kept(d, k) && Skipped(d, i, k);
    }
    assert Kept(d, i);
  }

  /** One step up: the element at i changes places with its parent. */
  lemma {:induction false} StepUp(d: seq<Timespec>, i: nat)
    requires 2 <= i <= |d| && Around(d, i) && Below(d, i) && Sooner(d[i - 1], d[i / 2 - 1])
    ensures Around(Swapped(d, i, i / 2), i / 2) && Below(Swapped(d, i, i / 2), i / 2)
  {
    var p := i / 2;
    var e := Swapped(d, i, p);
    forall k | 1 <= k <= |e| && k != p
      ensures k / 2 != p ==> Kept(e, k)
      ensures k / 2 == p ==> Skipped(e, p, k) && Kept(e, k)
    {
      assert Kept(d, p);
      if k / 2 == i {
        assert Skipped(d, i, k);
      } else if k != i {
        assert Kept(d, k);
      }
    }
  }

  /** One step down: the element at i changes places with a child j that is not after the other one. */
  lemma {:induction false} StepDown(d: seq<Timespec>, i: nat, j: nat)
    requires 1 <= i < j <= |d| && j / 2 == i && Around(d, i) && Kept(d, i) && !Sooner(d[i - 1], d[j - 1])
    requires !Sooner(d[2 * i - 1], d[j - 1]) && (2 * i < |d| ==> !Sooner(d[2 * i], d[j - 1]))
    ensures Around(Swapped(d, i, j), j) && Kept(Swapped(d, i, j), j)
  {
    var e := Swapped(d, i, j);
    forall k | 1 <= k <= |e| && k != j && k / 2 != j
      ensures Kept(e, k)
    {
      if k == i {
        assert Skipped(d, i, j);
      } else if k / 2 != i {
        assert Kept(d, k);
      }
    }
    forall k | 1 <= k <= |e| && k / 2 == j
      ensures Skipped(e, j, k)
    {
      assert Kept(d, k);
    }
  }

  /** The sinking ends at a position without children, or before two that are not earlier. */
  lemma {:induction false} SunkHere(d: seq<Timespec>, i: nat, j: nat)
    requires 1 <= i <= |d| && Around(d, i) && Kept(d, i)
    requires 2 * i <= |d| ==> j / 2 == i < j <= |d| && Sooner(d[i - 1], d[j - 1])
    requires 2 * i <= |d| ==> !Sooner(d[2 * i - 1], d[j - 1]) && (2 * i < |d| ==> !Sooner(d[2 * i], d[j - 1]))
    ensures Ordered(d)
  {
    forall k | 1 <= k <= |d| && k / 2 == i
      ensures Kept(d, k)
    {
    }
    WholeOrder(d, i);
  }

  /** Without its last position a heap is still one. */
  lemma {:induction false} Shorter(d: seq<Timespec>)
    requires Ordered(d) && d != []
    ensures Ordered(d[..|d| - 1])
  {
    var e := d[..|d| - 1];
    forall k | 1 <= k <= |e|
      ensures Kept(e, k)
    {
      assert Kept(d, k);
    }
  }

  /** A new last position may only break the order towards its parent. */
  lemma {:induction false} Longer(d: seq<Timespec>, x: Timespec)
    requires Ordered(d)
    ensures Around(d + [x], |d| + 1) && Below(d + [x], |d| + 1)
  {
    forall k | 1 <= k <= |d|
      ensures Kept(d + [x], k)
    {
      assert Kept(d, k);
    }
  }

  /** Nothing is due before the element at position 1. */
  lemma {:induction false} Earliest(d: seq<Timespec>, k: nat)
    requires Ordered(d) && 1 <= k <= |d|
    ensures !Sooner(d[k - 1], d[0])
  {
    if k > 1 {
      assert Kept(d, k);
      Earliest(d, k / 2);
    }
  }
}
