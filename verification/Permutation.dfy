/** Sums over sequences do not depend on the order of the elements. */
module Permutation {
  import opened Scan

  /** The sum of the first m elements. */
  function Sum(s: seq<nat>, m: nat): nat
    requires m <= |s|
  {
    if m == 0 then 0 else Sum(s, m - 1) + s[m - 1]
  }

  lemma {:induction false} SumPrefix(s: seq<nat>, t: seq<nat>, m: nat)
    requires m <= |s| && m <= |t| && forall k :: 0 <= k < m ==> s[k] == t[k]
    ensures Sum(s, m) == Sum(t, m)
  {
    if m > 0 {
      SumPrefix(s, t, m - 1);
    }
  }

  function Map<T, U>(f: T -> U, s: seq<T>): (r: seq<U>)
    ensures |r| == |s| && forall k :: 0 <= k < |s| ==> r[k] == f(s[k])
  {
    seq(|s|, k requires 0 <= k < |s| => f(s[k]))
  }

  lemma {:induction false} WithoutOne<T>(s: seq<T>, k: nat)
    requires k < |s|
    ensures multiset(s) == multiset(Without(s, k)) + multiset{s[k]}
  {
    assert s == s[..k] + [s[k]] + s[k + 1..];
  }

  lemma {:induction false} SumWithout(s: seq<nat>, k: nat, m: nat)
    requires k < m <= |s|
    ensures Sum(s, m) == Sum(Without(s, k), m - 1) + s[k]
  {
    if k < m - 1 {
      SumWithout(s, k, m - 1);
    } else {
      SumPrefix(s, Without(s, k), k);
    }
  }

  lemma {:induction false} SumPermuted(a: seq<nat>, b: seq<nat>)
    requires multiset(a) == multiset(b)
    ensures |a| == |b| && Sum(a, |a|) == Sum(b, |b|)
  {
    assert |a| == |multiset(a)| && |b| == |multiset(b)|;
    if a != [] {
      var init, x := a[..|a| - 1], a[|a| - 1];
      assert a == init + [x];
      assert x in multiset(b);
      var k := First(b, x, 0, |b|);
      SumWithout(b, k, |b|);
      SumPrefix(a, init, |init|);
      assert multiset(init) == multiset(a) - multiset{x};
      WithoutOne(b, k);
      assert multiset(Without(b, k)) == multiset(b) - multiset{x};
      SumPermuted(init, Without(b, k));
    }
  }

  lemma {:induction false} MapLast<T, U>(f: T -> U, s: seq<T>)
    requires s != []
    ensures multiset(Map(f, s)) == multiset(Map(f, s[..|s| - 1])) + multiset{f(s[|s| - 1])}
  {
    assert Map(f, s) == Map(f, s[..|s| - 1]) + [f(s[|s| - 1])];
  }

  lemma {:induction false} MapWithout<T, U>(f: T -> U, s: seq<T>, k: nat)
    requires k < |s|
    ensures multiset(Map(f, s)) == multiset(Map(f, Without(s, k))) + multiset{f(s[k])}
  {
    assert Map(f, Without(s, k)) == Without(Map(f, s), k);
    WithoutOne(Map(f, s), k);
  }

  lemma {:induction false} MapPermuted<T, U>(f: T -> U, a: seq<T>, b: seq<T>)
    requires multiset(a) == multiset(b)
    ensures multiset(Map(f, a)) == multiset(Map(f, b))
  {
    if a == [] {
      assert |multiset(b)| == 0;
    } else {
      var init, x := a[..|a| - 1], a[|a| - 1];
      assert a == init + [x];
      assert x in multiset(b);
      var k :| 0 <= k < |b| && b[k] == x;
      assert multiset(init) == multiset(a) - multiset{x};
      WithoutOne(b, k);
      assert multiset(Without(b, k)) == multiset(b) - multiset{x};
      MapPermuted(f, init, Without(b, k));
      MapLast(f, a);
      MapWithout(f, b, k);
    }
  }

  lemma {:induction false} DistinctCount<T>(s: seq<T>, x: T)
    requires Distinct(s)
    ensures multiset(s)[x] == if x in s then 1 else 0
  {
    if s != [] {
      var init, last := s[..|s| - 1], s[|s| - 1];
      DistinctCount(init, x);
      assert s == init + [last];
    }
  }

  function Identity(n: nat): seq<nat> {
    seq(n, k => k)
  }

  /** Picking elements through n distinct numbers below n is a permutation. */
  lemma {:induction false} PickPermuted<T>(s: seq<T>, at: seq<nat>, picked: seq<T>)
    requires |picked| == |at| == |s| && Distinct(at)
    requires forall k :: 0 <= k < |at| ==> at[k] < |s| && picked[k] == s[at[k]]
    ensures multiset(picked) == multiset(s)
  {
    if s == [] {
      assert picked == [];
      return;
    }
    var id := Identity(|s|);
    forall x: nat
      ensures multiset(at)[x] == multiset(id)[x]
    {
      DistinctCount(at, x);
      DistinctCount(id, x);
      if x < |s| {
        Onto(at, x);
        assert id[x] == x;
      }
    }
    var f: int -> T := k => if 0 <= k < |s| then s[k] else s[0];
    MapPermuted<int, T>(f, at, id);
    assert Map<int, T>(f, at) == picked;
    assert Map<int, T>(f, id) == s;
  }
}
