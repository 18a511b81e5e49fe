/** How a Citrus database arranges its entries in a hash table without spare slots.

    Entry i has the hash residue h[i].  The first entry of each residue (its *home* entry) sits in
    the slot the residue names; all other entries take the left-over slots in the order in which
    they were added, and are chained behind the home entry. */
module CitrusSlots {
  import opened Scan

  ghost predicate Residues(h: seq<nat>) {
    forall i :: 0 <= i < |h| ==> h[i] < |h|
  }

  predicate IsHome(h: seq<nat>, i: nat)
    requires i < |h|
  {
    forall j :: 0 <= j < i ==> h[j] != h[i]
  }

  /** The entry chained behind entry i once the entries below k are chained; k when none is. */
  function Next(h: seq<nat>, i: nat, k: nat): (j: nat)
    requires i < k <= |h|
    ensures i < j <= k
    ensures j < k ==> h[j] == h[i]
    ensures forall m :: i < m < j ==> h[m] != h[i]
  {
    First(h, h[i], i + 1, k)
  }

  /** `at[s]` is the entry in slot s. */
  ghost predicate Assigned(h: seq<nat>, at: seq<nat>)
    requires Residues(h)
  {
    && |at| == |h|
    && (forall s :: 0 <= s < |at| ==> at[s] < |h|)
    && Distinct(at)
    && (forall i :: 0 <= i < |h| && IsHome(h, i) ==> at[h[i]] == i)
    && (forall s, t :: 0 <= s < t < |at| && !IsHome(h, at[s]) && !IsHome(h, at[t]) ==> at[s] < at[t])
  }

  /** Every entry has a slot. */
  lemma {:induction false} EverySlotUsed(h: seq<nat>, at: seq<nat>, i: nat)
    requires Residues(h) && Assigned(h, at) && i < |h|
    ensures i in at
  {
    Onto(at, i);
  }

  function SlotOf(at: seq<nat>, i: nat): (s: nat)
    requires i in at
    ensures s < |at| && at[s] == i
  {
    First(at, i, 0, |at|)
  }

  /** A home entry can only be in the slot of its residue. */
  lemma {:induction false} HomeInOwnSlot(h: seq<nat>, at: seq<nat>, s: nat)
    requires Residues(h) && Assigned(h, at) && s < |at|
    ensures IsHome(h, at[s]) ==> h[at[s]] == s
  {
    if IsHome(h, at[s]) {
      assert at[h[at[s]]] == at[s];
    }
  }

  /** The conditions leave no choice: there is only one arrangement. */
  lemma {:induction false} AssignmentUnique(h: seq<nat>, a: seq<nat>, b: seq<nat>)
    requires Residues(h) && Assigned(h, a) && Assigned(h, b)
    ensures a == b
  {
    var s := 0;
    while s < |h|
      invariant s <= |h| && forall t :: 0 <= t < s ==> a[t] == b[t]
    {
      NotBelow(h, a, b, s);
      NotBelow(h, b, a, s);
      s := s + 1;
    }
  }

  lemma {:induction false} NotBelow(h: seq<nat>, a: seq<nat>, b: seq<nat>, s: nat)
    requires Residues(h) && Assigned(h, a) && Assigned(h, b)
    requires s < |a| && forall t :: 0 <= t < s ==> a[t] == b[t]
    ensures a[s] >= b[s]
  {
    HomeInOwnSlot(h, a, s);
    HomeInOwnSlot(h, b, s);
    EverySlotUsed(h, b, a[s]);
    var t := SlotOf(b, a[s]);
    assert t >= s;
    HomeInOwnSlot(h, b, t);
  }

  /** A slot holds an entry of another residue exactly when no entry has the slot's residue. */
  lemma {:induction false} HomeSlot(h: seq<nat>, at: seq<nat>, r: nat)
    requires Residues(h) && Assigned(h, at) && r < |h|
    ensures h[at[r]] == r <==> First(h, r, 0, |h|) < |h|
    ensures h[at[r]] == r ==> at[r] == First(h, r, 0, |h|)
  {
    var i := First(h, r, 0, |h|);
    if i < |h| {
      assert IsHome(h, i);
    }
  }

  /** The last entry below k that is not in the slot of its residue; 0 if there is none. */
  function LastFollower(h: seq<nat>, k: nat): (i: nat)
    requires k <= |h|
    ensures k > 0 ==> i < k
  {
    if k == 0 then 0 else if !IsHome(h, k - 1) then k - 1 else LastFollower(h, k - 1)
  }

  lemma {:induction false} LastFollowerIs(h: seq<nat>, k: nat, j: nat)
    requires j < k <= |h| && !IsHome(h, j)
    ensures j <= LastFollower(h, k) < k && !IsHome(h, LastFollower(h, k))
  {
    if IsHome(h, k - 1) {
      LastFollowerIs(h, k - 1, j);
    }
  }

  /** The entry in the last slot, from the residues alone: the first with the last residue if there is one, and
      else the last that is not in the slot of its residue. */
  function LastEntry(h: seq<nat>): (i: nat)
    requires h != [] && Residues(h)
    ensures i < |h|
  {
    var i := First(h, |h| - 1, 0, |h|);
    if i < |h| then i else LastFollower(h, |h|)
  }

  lemma {:induction false} FollowersRise(h: seq<nat>, at: seq<nat>, i: nat, t: nat)
    requires Residues(h) && Assigned(h, at) && i in at && t < |at| && SlotOf(at, i) <= t
    requires !IsHome(h, i) && !IsHome(h, at[t])
    ensures i <= at[t]
  {
    var s := SlotOf(at, i);
    assert s < t ==> at[s] < at[t];
  }

  lemma {:induction false} SlotFilled(h: seq<nat>, at: seq<nat>, s: nat)
    requires Residues(h) && Assigned(h, at) && s < |h|
    ensures |at| == |h| && at[s] < |h|
  {
  }

  /** If the last slot holds a follower, it is the last one. */
  lemma {:induction false} LastOfFollowers(h: seq<nat>, at: seq<nat>)
    requires h != [] && Residues(h) && Assigned(h, at) && !IsHome(h, at[|h| - 1])
    ensures at[|h| - 1] == LastFollower(h, |h|)
  {
    hide *;
    SlotFilled(h, at, |h| - 1);
    var n, i := |h|, LastFollower(h, |h|);
    LastFollowerIs(h, n, at[n - 1]);
    EverySlotUsed(h, at, i);
    FollowersRise(h, at, i, n - 1);
  }

  lemma {:induction false} LastSlot(h: seq<nat>, at: seq<nat>)
    requires h != [] && Residues(h) && Assigned(h, at)
    ensures at[|h| - 1] == LastEntry(h)
  {
    hide Assigned, LastFollower, IsHome, Residues;
    var n := |h|;
    SlotFilled(h, at, n - 1);
    HomeSlot(h, at, n - 1);
    if First(h, n - 1, 0, n) == n {
      HomeInOwnSlot(h, at, n - 1);
      LastOfFollowers(h, at);
    }
  }

  // The two passes of the slot assignment.  `at[s]` is the entry in slot s, `idx[i]` the slot of
  // entry i and `nx[i]` the entry chained behind entry i; -1 stands for "none (yet)".

  /** `home[r]` is the home entry of residue r, if there is one. */
  ghost predicate HomesOf(h: seq<nat>, home: seq<nat>)
    requires Residues(h)
  {
    && |home| == |h|
    && (forall i :: 0 <= i < |h| ==> home[h[i]] <= i && h[home[h[i]]] == h[i])
  }

  lemma {:induction false} Homes(h: seq<nat>) returns (home: seq<nat>)
    requires Residues(h)
    ensures HomesOf(h, home)
    ensures forall i :: 0 <= i < |h| ==> (IsHome(h, i) <==> home[h[i]] == i)
  {
    home := seq(|h|, r requires 0 <= r < |h| => First(h, r, 0, |h|));
  }

  /** The first pass has reached entry k: home entries below k are in their slots. */
  ghost predicate HomesPlaced(h: seq<nat>, home: seq<nat>, at: seq<int>, idx: seq<int>, k: nat)
    requires Residues(h) && HomesOf(h, home) && k <= |h|
  {
    && |at| == |idx| == |h|
    && (forall s :: 0 <= s < |h| && at[s] != -1 ==> 0 <= at[s] < k && idx[at[s]] == s)
    && (forall i :: 0 <= i < k ==> idx[i] == if home[h[i]] == i then h[i] else -1)
    && (forall i :: 0 <= i < k && home[h[i]] == i ==> at[h[i]] == i)
  }

  /** The home slot of entry k is free exactly when k is a home entry. */
  lemma {:induction false} HomeStep(h: seq<nat>, home: seq<nat>, at: seq<int>, idx: seq<int>, k: nat)
    requires Residues(h) && HomesOf(h, home) && k < |h| && HomesPlaced(h, home, at, idx, k)
    ensures at[h[k]] == -1 <==> home[h[k]] == k
    ensures HomesPlaced(h, home, if home[h[k]] == k then at[h[k] := k] else at, idx[k := if home[h[k]] == k then h[k] else -1], k + 1)
  {
    if home[h[k]] < k {
      assert at[h[home[h[k]]]] == home[h[k]];
    }
  }

  predicate Overflow(h: seq<nat>, home: seq<nat>, i: int)
    requires |home| == |h| && Residues(h) && -1 <= i < |h|
  {
    i >= 0 && home[h[i]] != i
  }

  /** i < m, as a name for quantifiers over pairs. */
  predicate Before(i: int, m: int) {
    0 <= i < m
  }

  /** The second pass has reached entry k with its cursor at slot cur. */
  ghost predicate Placed(h: seq<nat>, home: seq<nat>, at: seq<int>, idx: seq<int>, k: nat, cur: nat)
    requires Residues(h) && HomesOf(h, home)
  {
    && |at| == |idx| == |h|
    && k <= |h| && cur <= |h|
    && (forall s :: 0 <= s < |h| ==> at[s] == -1 || (0 <= at[s] < |h| && idx[at[s]] == s))
    && (forall i :: 0 <= i < |h| ==> idx[i] == -1 || (0 <= idx[i] < |h| && at[idx[i]] == i))
    && (forall i :: 0 <= i < |h| ==> (idx[i] == -1 <==> home[h[i]] != i && i >= k))
    && (forall i :: 0 <= i < |h| && home[h[i]] == i ==> idx[i] == h[i])
    && (forall s :: 0 <= s < cur ==> at[s] >= 0)
    && (forall s :: cur < s < |h| ==> !Overflow(h, home, at[s]))
    && (forall s, t {:trigger Before(s, t)} :: Before(s, t) && t < |h| && Overflow(h, home, at[s]) && Overflow(h, home, at[t]) ==> at[s] < at[t])
  }

  lemma {:induction false} PassesMeet(h: seq<nat>, home: seq<nat>, at: seq<int>, idx: seq<int>)
    requires Residues(h) && HomesOf(h, home) && HomesPlaced(h, home, at, idx, |h|)
    ensures Placed(h, home, at, idx, 0, 0)
  {
  }

  /** As long as an entry has no slot, some slot at or behind the cursor is free. */
  lemma {:induction false} FreeSlot(h: seq<nat>, home: seq<nat>, at: seq<int>, idx: seq<int>, k: nat, cur: nat) returns (f: nat)
    requires Residues(h) && HomesOf(h, home) && Placed(h, home, at, idx, k, cur)
    requires k < |h| && idx[k] == -1
    ensures cur <= f < |h| && at[f] == -1
  {
    f := cur;
    while f < |h| && at[f] >= 0
      invariant cur <= f <= |h|
      invariant forall s :: 0 <= s < f ==> at[s] >= 0
    {
      f := f + 1;
    }
    if f == |h| {
      var full: seq<nat> := at;
      assert Distinct(full) by {
        forall s, t | 0 <= s < t < |full|
          ensures full[s] != full[t]
        {
          assert idx[at[s]] == s && idx[at[t]] == t;
        }
      }
      Onto(full, k);
      assert false;
    }
  }

  lemma {:induction false} PlaceStep(h: seq<nat>, home: seq<nat>, at: seq<int>, idx: seq<int>, k: nat, cur: nat, f: nat)
    requires Residues(h) && HomesOf(h, home) && Placed(h, home, at, idx, k, cur)
    requires k < |h| && idx[k] == -1
    requires cur <= f < |h| && at[f] == -1 && forall s :: 0 <= s < f ==> at[s] >= 0
    ensures Placed(h, home, at[f := k], idx[k := f], k + 1, f)
  {
  }

  lemma {:induction false} SkipStep(h: seq<nat>, home: seq<nat>, at: seq<int>, idx: seq<int>, k: nat, cur: nat)
    requires Residues(h) && HomesOf(h, home) && Placed(h, home, at, idx, k, cur)
    requires k < |h| && idx[k] != -1
    ensures Placed(h, home, at, idx, k + 1, cur)
  {
  }

  /** Two sequences that undo each other are permutations. */
  lemma {:induction false} InverseOnto(at: seq<int>, idx: seq<nat>)
    requires |at| == |idx|
    requires forall i :: 0 <= i < |idx| ==> idx[i] < |at| && at[idx[i]] == i
    ensures forall s :: 0 <= s < |at| ==> 0 <= at[s] < |idx| && idx[at[s]] == s
    ensures Distinct(at)
  {
    assert Distinct(idx) by {
      forall i, j | 0 <= i < j < |idx|
        ensures idx[i] != idx[j]
      {
        assert at[idx[i]] == i && at[idx[j]] == j;
      }
    }
    forall s: nat | s < |at|
      ensures 0 <= at[s] < |idx| && idx[at[s]] == s
    {
      Onto(idx, s);
    }
    forall s, t | 0 <= s < t < |at|
      ensures at[s] != at[t]
    {
      assert idx[at[s]] == s && idx[at[t]] == t;
    }
  }

  /** After both passes every slot is filled, and filled as required. */
  lemma {:induction false} AllPlaced(h: seq<nat>, home: seq<nat>, at: seq<int>, idx: seq<int>, cur: nat)
    requires Residues(h) && HomesOf(h, home) && Placed(h, home, at, idx, |h|, cur)
    requires forall i :: 0 <= i < |h| ==> (IsHome(h, i) <==> home[h[i]] == i)
    ensures forall s :: 0 <= s < |h| ==> at[s] >= 0
    ensures Assigned(h, at)
  {
    InverseOnto(at, idx);
    forall s, t | 0 <= s < t < |at| && !IsHome(h, at[s]) && !IsHome(h, at[t])
      ensures at[s] < at[t]
    {
      assert Before(s, t);
    }
  }

  /** The entries below k are chained: `nx[i]` is the next one of the residue of i. */
  ghost predicate Chained(h: seq<nat>, nx: seq<int>, k: nat)
    requires k <= |h|
  {
    && |nx| == |h|
    && (forall i :: 0 <= i < |h| && nx[i] != -1 ==> i < nx[i] < k && h[nx[i]] == h[i])
    && (forall i, m {:trigger Before(i, m)} :: Before(i, m) && m < |h| && nx[i] != -1 && h[m] == h[i] ==> nx[i] <= m)
    && (forall i, m {:trigger Before(i, m)} :: Before(i, m) && m < k && nx[i] == -1 ==> h[m] != h[i])
  }

  /** Appending entry k to the end of the chain of its residue. */
  lemma {:induction false} ChainStep(h: seq<nat>, nx: seq<int>, k: nat, d: nat)
    requires k < |h| && Chained(h, nx, k)
    requires d < k && h[d] == h[k] && nx[d] == -1
    ensures Chained(h, nx[d := k], k + 1)
  {
    forall i, m | Before(i, m) && m < k + 1 && nx[d := k][i] == -1
      ensures h[m] != h[i]
    {
      assert Before(d, i) || Before(i, d);
    }
  }

  /** A home entry starts a chain of its own. */
  lemma {:induction false} ChainStart(h: seq<nat>, home: seq<nat>, nx: seq<int>, k: nat)
    requires Residues(h) && HomesOf(h, home) && k < |h| && Chained(h, nx, k) && home[h[k]] == k
    ensures Chained(h, nx, k + 1)
  {
  }

  lemma {:induction false} ChainIsNext(h: seq<nat>, nx: seq<int>, i: nat)
    requires Chained(h, nx, |h|) && i < |h|
    ensures nx[i] == if Next(h, i, |h|) < |h| then Next(h, i, |h|) else -1
  {
    var j := Next(h, i, |h|);
    assert Before(i, j);
  }
}
