/** Looking up keys along the chains of a database file. */
module CitrusChain {
  import opened Octets
  import opened Scan
  import opened CitrusHash
  import opened CitrusSlots
  import opened CitrusDb

  /** Skipping to the next entry of the same residue skips no entry with the key. */
  lemma {:induction false} ChainKeepsKey<T>(keys: seq<T>, h: seq<nat>, key: T, i: nat)
    requires i < |keys| == |h|
    requires forall j :: 0 <= j < |h| && keys[j] == key ==> h[j] == h[i]
    ensures First(keys, key, i, |h|) == if keys[i] == key then i else First(keys, key, Next(h, i, |h|), |h|)
  {
    if keys[i] != key {
      var j := Next(h, i, |h|);
      assert forall m :: i <= m < j ==> keys[m] != key;
      FirstSkips(keys, key, i, j, |h|);
    }
  }

  function Onward(next: nat): Step {
    if next == 0 then Verdict(Err(ENOENT)) else GoOn(next)
  }

  /** A key and a residue. */
  datatype Tag = Tag(key: seq<octet>, residue: nat)

  /** A file r as a lookup sees it: entry number i has the key keys[i] and the residue h[i], its
      directory entry is at off[i], fetching its data comes to fetched[i], and it leads to the next
      entry of its residue. */
  datatype View = View(r: seq<octet>, keys: seq<seq<octet>>, h: seq<nat>, off: seq<nat>, fetched: seq<Result<seq<octet>>>) {

    /** The offset that entry i leads to, 0 at the end of its chain. */
    function NextOffset(i: nat): nat
      requires i < |h| == |off|
    {
      var j := Next(h, i, |h|);
      if j < |h| then off[j] else 0
    }

    /** The offset at which a lookup goes on behind entry i; the end of the file stands for "nowhere". */
    function After(i: nat): nat
      requires i < |h| == |off|
    {
      if NextOffset(i) == 0 then |r| else NextOffset(i)
    }

    function Look(i: nat, key: seq<octet>, hashval: uint32): Step
      requires i < |h| == |off| == |keys| == |fetched|
    {
      if h[i] != hashval then Verdict(Err(ENOENT))
      else if keys[i] == key then Verdict(fetched[i])
      else Onward(NextOffset(i))
    }

    ghost predicate Valid() {
      && |keys| == |h| == |off| == |fetched|
      && (forall i :: 0 <= i < |h| ==> 0 < off[i] < |r| && HasEntry(r, off[i]))
      && (forall i {:trigger Resume(r, off[i])} :: 0 <= i < |h| ==> Resume(r, off[i]) == After(i))
      && (forall i, key, hashval {:trigger LookAt(r, key, hashval, off[i])} :: 0 <= i < |h| ==>
            LookAt(r, key, hashval, off[i]) == Look(i, key, hashval))
    }

    /** The keys with the residues under which they are stored. */
    function Tagged(): (tags: seq<Tag>)
      requires |h| == |keys|
      ensures |tags| == |h| && forall i :: 0 <= i < |h| ==> tags[i] == Tag(keys[i], h[i])
    {
      seq(|h|, i requires 0 <= i < |h| => Tag(keys[i], h[i]))
    }

    /** What a search for the key from entry i on finds: the first entry with that key and residue. */
    function Answer(tag: Tag, i: nat): Result<seq<octet>>
      requires i <= |h| == |keys| == |fetched|
    {
      var j := First(Tagged(), tag, i, |h|);
      if j == |h| then Err(ENOENT) else fetched[j]
    }

    /** ... and where it leaves the locator. */
    function AnswerOffset(tag: Tag, i: nat): nat
      requires i <= |h| == |keys| == |off|
    {
      var j := First(Tagged(), tag, i, |h|);
      if j == |h| then |r| else After(j)
    }

    /** The loop follows the chain from entry i to the first entry with the key. */
    lemma {:induction false} WalkChain(key: seq<octet>, hashval: uint32, i: nat, rounds: nat)
      requires Valid() && i < |h| && rounds >= |h| - i && h[i] == hashval
      ensures Ends(r, key, hashval, off[i], rounds)
      ensures Walk(r, key, hashval, off[i], rounds) == Answer(Tag(key, hashval), i)
      decreases rounds
    {
      assert LookAt(r, key, hashval, off[i]) == Look(i, key, hashval);
      ChainKeepsKey(Tagged(), h, Tag(key, hashval), i);
      var j := Next(h, i, |h|);
      if keys[i] != key && j < |h| {
        WalkChain(key, hashval, j, rounds - 1);
      }
    }

    lemma {:induction false} WalkChainLocator(key: seq<octet>, hashval: uint32, i: nat, rounds: nat, loc: nat)
      requires Valid() && i < |h| && rounds >= |h| - i && h[i] == hashval
      ensures WalkLocator(r, key, hashval, off[i], rounds, loc) == AnswerOffset(Tag(key, hashval), i)
      decreases rounds
    {
      assert LookAt(r, key, hashval, off[i]) == Look(i, key, hashval);
      assert Resume(r, off[i]) == After(i);
      ChainKeepsKey(Tagged(), h, Tag(key, hashval), i);
      var j := Next(h, i, |h|);
      if keys[i] != key && j < |h| {
        WalkChainLocator(key, hashval, j, rounds - 1, After(i));
      }
    }
  }

  /** A whole database file: its entries as a view, and the entry at[s] in each slot s. */
  datatype Store = Store(db: Db, v: View, at: seq<nat>) {

    ghost predicate Valid() {
      var n := |v.h|;
      && v.Valid() && db.region == v.r
      && |at| == n > 0 && 16 + n * 24 <= |v.r| < 0x1_0000_0000
      && WordAt(v.r, 8) == n && WordAt(v.r, 12) == 16
      && (forall s {:trigger at[s]} :: 0 <= s < n ==> at[s] < n && v.off[at[s]] == 16 + s * 24)
      && (forall s {:trigger at[s]} :: 0 <= s < n ==> (v.h[at[s]] == s <==> First(v.h, s, 0, n) < n))
      && (forall s {:trigger at[s]} :: 0 <= s < n ==> (v.h[at[s]] == s ==> at[s] == First(v.h, s, 0, n)))
    }

    function Hash(key: seq<octet>): uint32
      requires 0 < |v.h|
    {
      Residue(db.hash(key), |v.h|)
    }

    /** What a lookup of the key can find. */
    function TagOf(key: seq<octet>): Tag
      requires 0 < |v.h|
    {
      Tag(key, Hash(key))
    }

    /** The locator has come to entry i on the chain of the key, or to the end of the chain. */
    ghost predicate StandsAt(p: Place, key: seq<octet>, i: nat)
      requires Valid() && i <= |v.h|
    {
      && p.hashval == Hash(key) && p.offset > 0
      && if i < |v.h| then p.offset == v.off[i] && v.h[i] == p.hashval else p.offset == |v.r|
    }

    /** The locator is off the chain of the key, and will stay so. */
    ghost predicate Nowhere(p: Place)
      requires Valid()
    {
      && p.offset > 0
      && (p.offset >= |v.r| || exists i :: 0 <= i < |v.h| && p.offset == v.off[i] && v.h[i] != p.hashval)
    }

    lemma {:induction false} ResumedLookup(key: seq<octet>, p: Place, i: nat, rounds: nat)
      requires Valid() && i <= |v.h| <= rounds && StandsAt(p, key, i)
      ensures LookupEnds(db, key, p, rounds)
      ensures LookupResult(db, key, p, rounds) == v.Answer(TagOf(key), i)
      ensures LookupPlace(db, key, p, rounds) == Place(Hash(key), v.AnswerOffset(TagOf(key), i))
    {
      if i < |v.h| {
        v.WalkChain(key, p.hashval, i, rounds);
        v.WalkChainLocator(key, p.hashval, i, rounds, p.offset);
      }
    }

    /** After an answer the locator stands at the next entry of the chain. */
    lemma {:induction false} AnswerStandsAt(key: seq<octet>, i: nat)
      requires Valid() && i <= |v.h|
      ensures var j := First(v.Tagged(), TagOf(key), i, |v.h|);
        var k := if j < |v.h| then Next(v.h, j, |v.h|) else j;
        StandsAt(Place(Hash(key), v.AnswerOffset(TagOf(key), i)), key, k) && (j < |v.h| ==> First(v.Tagged(), TagOf(key), j + 1, |v.h|) == First(v.Tagged(), TagOf(key), k, |v.h|))
    {
      var j := First(v.Tagged(), TagOf(key), i, |v.h|);
      if j < |v.h| {
        var k := Next(v.h, j, |v.h|);
        assert forall m :: j < m < k ==> v.Tagged()[m] != TagOf(key);
        FirstSkips(v.Tagged(), TagOf(key), j + 1, k, |v.h|);
      }
    }

    /** The first lookup of a key finds the first entry with that key. */
    lemma {:induction false} FirstLookup(key: seq<octet>, p: Place, rounds: nat)
      requires Valid() && p.offset == 0 && |v.h| <= rounds
      ensures LookupEnds(db, key, p, rounds)
      ensures LookupResult(db, key, p, rounds) == v.Answer(TagOf(key), 0)
      ensures var q := LookupPlace(db, key, p, rounds);
        Nowhere(q) || q == Place(Hash(key), v.AnswerOffset(TagOf(key), 0))
      ensures v.Answer(TagOf(key), 0) != Err(ENOENT) ==> LookupPlace(db, key, p, rounds) == Place(Hash(key), v.AnswerOffset(TagOf(key), 0))
    {
      var s := Hash(key);
      var i := at[s];
      assert Start(db, key, p) == Place(s, v.off[i]);
      if v.h[i] == s {
        HomeIsFirst(key, i);
        v.WalkChain(key, s, i, rounds);
        v.WalkChainLocator(key, s, i, rounds, 0);
      } else {
        assert LookAt(v.r, key, s, v.off[i]) == v.Look(i, key, s);
        assert Resume(v.r, v.off[i]) == v.After(i);
        LocatorStep(v.r, key, s, v.off[i], rounds, 0);
        assert forall j :: 0 <= j < |v.h| ==> v.h[j] != s;
      }
    }

    lemma {:induction false} HomeIsFirst(key: seq<octet>, i: nat)
      requires Valid() && i < |v.h| && i == First(v.h, Hash(key), 0, |v.h|)
      ensures First(v.Tagged(), TagOf(key), 0, |v.h|) == First(v.Tagged(), TagOf(key), i, |v.h|)
    {
      assert forall m :: 0 <= m < i ==> v.Tagged()[m] != TagOf(key);
      FirstSkips(v.Tagged(), TagOf(key), 0, i, |v.h|);
    }

    /** Once there is nothing more to find, there never is again. */
    lemma {:induction false} StaysNowhere(key: seq<octet>, p: Place, rounds: nat)
      requires Valid() && Nowhere(p) && rounds > 0
      ensures LookupEnds(db, key, p, rounds) && LookupResult(db, key, p, rounds) == Err(ENOENT)
      ensures Nowhere(LookupPlace(db, key, p, rounds))
    {
      if p.offset < |v.r| {
        var i :| 0 <= i < |v.h| && p.offset == v.off[i] && v.h[i] != p.hashval;
        assert LookAt(v.r, key, p.hashval, v.off[i]) == v.Look(i, key, p.hashval);
        assert Resume(v.r, v.off[i]) == v.After(i);
        LocatorStep(v.r, key, p.hashval, v.off[i], rounds, p.offset);
      }
    }

    /** One lookup of the key, as a function of the locator. */
    ghost function Step(key: seq<octet>): Place -> (Result<seq<octet>>, Place) {
      (p: Place) => (LookupResult(db, key, p, |v.h|), LookupPlace(db, key, p, |v.h|))
    }

    /** The data under the key from entry i on, up to the first that cannot be fetched. */
    ghost function Fetchable(key: seq<octet>, i: nat): seq<seq<octet>>
      requires Valid() && i <= |v.h|
      decreases |v.h| - i
    {
      var j := First(v.Tagged(), TagOf(key), i, |v.h|);
      if j == |v.h| || v.fetched[j].Err? then [] else [v.fetched[j].value] + Fetchable(key, j + 1)
    }

    lemma {:induction false} FetchableSkips(key: seq<octet>, i: nat, k: nat)
      requires Valid() && i <= |v.h| && k <= |v.h| && First(v.Tagged(), TagOf(key), i, |v.h|) == First(v.Tagged(), TagOf(key), k, |v.h|)
      ensures Fetchable(key, i) == Fetchable(key, k)
    {
    }

    lemma {:induction false} StepFrom(key: seq<octet>, p: Place, i: nat)
      requires Valid() && i <= |v.h| && StandsAt(p, key, i)
      ensures Step(key)(p) == (v.Answer(TagOf(key), i), Place(Hash(key), v.AnswerOffset(TagOf(key), i)))
    {
      ResumedLookup(key, p, i, |v.h|);
    }

    lemma {:induction false} FirstStep(key: seq<octet>, p: Place)
      requires Valid() && p.offset == 0
      ensures Step(key)(p).0 == v.Answer(TagOf(key), 0)
      ensures v.Answer(TagOf(key), 0) != Err(ENOENT) ==> Step(key)(p).1 == Place(Hash(key), v.AnswerOffset(TagOf(key), 0))
    {
      FirstLookup(key, p, |v.h|);
    }

    /** After a successful answer, the rest is fetchable from where the locator stands. */
    lemma {:induction false} FetchableStep(key: seq<octet>, i: nat) returns (k: nat)
      requires Valid() && i <= |v.h| && v.Answer(TagOf(key), i).Ok?
      ensures i < k <= |v.h| && StandsAt(Place(Hash(key), v.AnswerOffset(TagOf(key), i)), key, k)
      ensures Fetchable(key, i) == [v.Answer(TagOf(key), i).value] + Fetchable(key, k)
    {
      var j := First(v.Tagged(), TagOf(key), i, |v.h|);
      k := Next(v.h, j, |v.h|);
      AnswerStandsAt(key, i);
      FetchableSkips(key, j + 1, k);
    }

    /** step answers as lookups of the key do that stand on its chain. */
    ghost predicate Faithful(step: Place -> (Result<seq<octet>>, Place), key: seq<octet>)
      requires Valid()
    {
      forall p, i {:trigger StandsAt(p, key, i)} :: 0 <= i <= |v.h| && StandsAt(p, key, i) ==>
        step(p) == (v.Answer(TagOf(key), i), Place(Hash(key), v.AnswerOffset(TagOf(key), i)))
    }

    lemma {:induction false} CollectFrom(step: Place -> (Result<seq<octet>>, Place), key: seq<octet>, p: Place, i: nat, m: nat)
      requires Valid() && Faithful(step, key) && i <= |v.h| && m > |v.h| - i
      requires step(p).0 == v.Answer(TagOf(key), i)
      requires v.Answer(TagOf(key), i).Ok? ==> step(p).1 == Place(Hash(key), v.AnswerOffset(TagOf(key), i))
      ensures Collect(step, p, m) == Fetchable(key, i)
      decreases m
    {
      if v.Answer(TagOf(key), i).Ok? {
        var k := FetchableStep(key, i);
        CollectFrom(step, key, step(p).1, k, m - 1);
      }
    }

    /** Looking up a key over and over with a new locator fetches its data in the order of adding. */
    lemma {:induction false} CollectAll(key: seq<octet>, p: Place, m: nat)
      requires Valid() && p.offset == 0 && m > |v.h|
      ensures Collect(Step(key), p, m) == Fetchable(key, 0)
    {
      forall q, i | 0 <= i <= |v.h| && StandsAt(q, key, i)
        ensures Step(key)(q) == (v.Answer(TagOf(key), i), Place(Hash(key), v.AnswerOffset(TagOf(key), i)))
      {
        StepFrom(key, q, i);
      }
      FirstStep(key, p);
      CollectFrom(Step(key), key, p, 0, m);
    }
  }

  /** What up to m lookups with one locator fetch, up to the first that fails. */
  ghost function Collect(step: Place -> (Result<seq<octet>>, Place), p: Place, m: nat): seq<seq<octet>>
    decreases m
  {
    if m == 0 || step(p).0.Err? then [] else [step(p).0.value] + Collect(step, step(p).1, m - 1)
  }
}
