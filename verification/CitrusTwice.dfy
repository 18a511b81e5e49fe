/** What becomes of a factory that is serialized, given more entries and serialized again (citrus_db_factory.c): the
    first serialization has replaced the hash values by their residues. */
module CitrusTwice {
  import opened Octets
  import opened Scan
  import opened CitrusHash
  import opened Permutation
  import opened CitrusSlots
  import opened CitrusImage
  import opened CitrusDbFactory
  import opened CitrusDb
  import opened CitrusRoundTrip

  /** The hash values after the first n pairs were serialized and the others were added. */
  function SecondValues(hash: HashFunction, pairs: seq<Pair>, n: nat): (hv: seq<uint32>)
    requires 0 < n <= |pairs|
    ensures |hv| == |pairs|
    ensures forall i :: 0 <= i < |pairs| ==> hv[i] == if i < n then Residue(hash(pairs[i].key), n) else hash(pairs[i].key)
  {
    seq(|pairs|, i requires 0 <= i < |pairs| => SecondValue(hash, pairs[i].key, i < n, n))
  }

  function SecondValue(hash: HashFunction, key: seq<octet>, known: bool, n: nat): uint32
    requires n > 0
  {
    if known then Residue(hash(key), n) else hash(key)
  }

  lemma {:induction false} ValuesBefore(hash: HashFunction, before: seq<Pair>, more: seq<Pair>)
    requires before != []
    ensures var values := SecondValues(hash, before + more, |before|);
            && ResiduesOf(HashesOf(hash, before)) == values[..|before|]
            && forall i :: 0 <= i < |more| ==> values[|before| + i] == hash(more[i].key)
  {
  }

  /** The size of a file for the pairs. */
  function SizeFor(pairs: seq<Pair>): nat {
    TotalSize(|pairs|, Sum(KeySizes(pairs), |pairs|), Sum(DataSizes(pairs), |pairs|))
  }

  /** The region begins with the second file for the pairs, of which n were in the first. */
  ghost predicate SecondFile(b: seq<octet>, magic: seq<octet>, hash: HashFunction, pairs: seq<Pair>, n: nat, at: seq<nat>) {
    && 0 < n <= |pairs| && |magic| >= 8 && SizeFor(pairs) <= |b|
    && IsImage(b[..SizeFor(pairs)], magic, pairs, SecondValues(hash, pairs, n), at)
  }

  /** Serialize, add, serialize. */
  method SerializeTwice(df: Factory, magic: seq<octet>, first: array<octet>, more: seq<Pair>, second: array<octet>)
    returns (ghost at: seq<nat>)
    requires df.Valid() && df.HashValues() == HashesOf(df.hash, df.added) && df.added != [] && |magic| >= 8
    requires first.Length >= df.CalcSize() && first != second && second.Length >= SizeFor(df.added + more)
    modifies df, df.entries, first, second
    ensures df.Valid() && df.added == old(df.added) + more
    ensures SecondFile(second[..], magic, df.hash, df.added, |old(df.added)|, at)
  {
    hide *;
    ghost var before := df.added;
    ghost var values := SecondValues(df.hash, before + more, |before|);
    ValuesBefore(df.hash, before, more);
    var at1 := df.Serialize(magic, first);
    AddAll(df, more, before, values);
    at := Again(df, magic, second, |before|);
  }

  /** The second time. */
  method Again(df: Factory, magic: seq<octet>, r: array<octet>, ghost n: nat) returns (ghost at: seq<nat>)
    requires 0 < n <= |df.added| && |magic| >= 8 && r.Length >= SizeFor(df.added)
    requires df.Valid() && df.HashValues() == SecondValues(df.hash, df.added, n)
    modifies df.entries, r
    ensures df.Valid() && SecondFile(r[..], magic, df.hash, df.added, n, at)
  {
    hide Sum, KeySizes, DataSizes, TotalSize, IsImage, Factory.HashValues, SecondValues;
    at := df.Serialize(magic, r);
    assert r[..][..SizeFor(df.added)] == r[..SizeFor(df.added)];
  }

  method AddAll(df: Factory, more: seq<Pair>, ghost before: seq<Pair>, ghost values: seq<uint32>)
    requires df.Valid() && df.added == before && |values| == |before| + |more|
    requires df.HashValues() == values[..|before|]
    requires forall i :: 0 <= i < |more| ==> values[|before| + i] == df.hash(more[i].key)
    modifies df
    ensures df.Valid() && df.added == before + more && df.HashValues() == values
    ensures forall i :: 0 <= i < |df.entries| ==> df.entries[i] in old(df.entries) || fresh(df.entries[i])
  {
    hide Factory.Valid, Factory.HashValues;
    var i := 0;
    while i < |more|
      invariant 0 <= i <= |more| && df.Valid() && df.added == before + more[..i]
      invariant df.HashValues() == values[..|before| + i]
      invariant forall i :: 0 <= i < |df.entries| ==> df.entries[i] in old(df.entries) || fresh(df.entries[i])
    {
      ghost var entries := df.entries;
      df.Add(more[i].key, more[i].data);
      assert df.entries == entries + [df.entries[|entries|]];
      assert more[..i + 1] == more[..i] + [more[i]];
      i := i + 1;
    }
    assert more[..i] == more;
  }

  /** From the second file every key fetches what was added under it if and only if for all entries of the first the
      hash value has the same residue in both tables, and the last datum is not empty. */
  lemma {:induction false} SecondRoundTrip(r: seq<octet>, magic: seq<octet>, hash: HashFunction, pairs: seq<Pair>, n: nat, at: seq<nat>)
    requires 0 < n <= |pairs|
    requires Stored(r, magic, pairs, SecondValues(hash, pairs, n), at) && Arranged(pairs, SecondValues(hash, pairs, n), at)
    ensures var hv := SecondValues(hash, pairs, n);
            (forall key :: FetchAll(r, hash, pairs, hv, at, key) == DataUnder(pairs, key, 0)) <==>
              && (forall i :: 0 <= i < n ==> Residue(hash(pairs[i].key), n) == Residue(hash(pairs[i].key), |pairs|))
              && pairs[LastEntry(ResiduesOf(hv))].data != []
  {
    var hv := SecondValues(hash, pairs, n);
    forall i | 0 <= i < |pairs|
      ensures Filed(hash, pairs, hv, i) <==>
                (i < n ==> Residue(hash(pairs[i].key), n) == Residue(hash(pairs[i].key), |pairs|))
    {
      if i < n {
        SmallResidue(Residue(hash(pairs[i].key), n), |pairs|);
      }
    }
    hide *;
    RoundTripFor(r, magic, hash, pairs, hv, at);
  }

  /** So with the hash values 0 and 3 in the first table, and another one in the second: the key with the hash value 3
      has been filed under the residue 1, and is looked up under the residue 0. */
  lemma {:induction false} KeyLost(r: seq<octet>, magic: seq<octet>, hash: HashFunction, pairs: seq<Pair>, at: seq<nat>)
    requires |pairs| == 3 && hash(pairs[0].key) == 0 && hash(pairs[1].key) == 3 && hash(pairs[2].key) == 5
    requires Stored(r, magic, pairs, SecondValues(hash, pairs, 2), at) && Arranged(pairs, SecondValues(hash, pairs, 2), at)
    ensures FetchAll(r, hash, pairs, SecondValues(hash, pairs, 2), at, pairs[1].key) != DataUnder(pairs, pairs[1].key, 0)
  {
    var hv := SecondValues(hash, pairs, 2);
    assert hv[1] == 1 && !Filed(hash, pairs, hv, 1);
    assert !Kept(hash, pairs, hv, at, pairs[1].key);
    hide *;
    KeyRoundTrip(r, magic, hash, pairs, hv, at, pairs[1].key);
  }
}
