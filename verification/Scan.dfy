/** Left-to-right searching in sequences, and counting facts about permutations. */
module Scan {

  /** The least position in [i, k) that holds x, or k when there is none. */
  function First<T(==)>(s: seq<T>, x: T, i: nat, k: nat): (j: nat)
    requires i <= k <= |s|
    ensures i <= j <= k
    ensures j < k ==> s[j] == x
    ensures forall m :: i <= m < j ==> s[m] != x
    decreases k - i
  {
    if i == k || s[i] == x then i else First(s, x, i + 1, k)
  }

  lemma {:induction false} FirstSkips<T>(s: seq<T>, x: T, i: nat, i': nat, k: nat)
    requires i <= i' <= k <= |s| && forall m :: i <= m < i' ==> s[m] != x
    ensures First(s, x, i, k) == First(s, x, i', k)
  {
    var j, j' := First(s, x, i, k), First(s, x, i', k);
    assert j >= i';
  }

  lemma {:induction false} SubSlice<T>(s: seq<T>, o: nat, n: nat, i: nat, j: nat)
    requires o + n <= |s| && i <= j <= n
    ensures s[o..o + n][i..j] == s[o + i..o + j]
  {
    var part := s[o..o + n];
    assert forall k :: i <= k < j ==> part[k] == s[o + k];
    assert part[i..j] == s[o + i..o + j];
  }

  /** s without its element number k. */
  function Without<T>(s: seq<T>, k: nat): (r: seq<T>)
    requires k < |s|
    ensures |r| == |s| - 1
  {
    s[..k] + s[k + 1..]
  }

  ghost predicate Distinct<T>(s: seq<T>) {
    forall i, j :: 0 <= i < j < |s| ==> s[i] != s[j]
  }

  ghost function Range(n: nat): (r: set<nat>)
    ensures forall k: nat :: k in r <==> k < n
  {
    if n == 0 then {} else Range(n - 1) + {n - 1}
  }

  lemma {:induction false} RangeSize(n: nat)
    ensures |Range(n)| == n
  {
    if n > 0 {
      RangeSize(n - 1);
    }
  }

  lemma {:induction false} DistinctSize<T>(s: seq<T>)
    requires Distinct(s)
    ensures |set x | x in s| == |s|
  {
    if s == [] {
      assert (set x | x in s) == {};
    } else {
      var init, last := s[..|s| - 1], s[|s| - 1];
      DistinctSize(init);
      assert s == init + [last];
      assert (set x | x in s) == (set x | x in init) + {last};
    }
  }

  /** Pigeonhole: n distinct numbers below n are all the numbers below n. */
  lemma {:induction false} Onto(s: seq<nat>, i: nat)
    requires Distinct(s) && i < |s|
    requires forall k :: 0 <= k < |s| ==> s[k] < |s|
    ensures i in s
  {
    if i !in s {
      var values := set x | x in s;
      DistinctSize(s);
      RangeSize(|s|);
      assert values <= Range(|s|) - {i};
      SubsetSize(values, Range(|s|) - {i});
    }
  }

  lemma {:induction false} SubsetSize<T>(a: set<T>, b: set<T>)
    requires a <= b
    ensures |a| <= |b|
  {
    if a != {} {
      var x :| x in a;
      SubsetSize(a - {x}, b - {x});
    }
  }
}
