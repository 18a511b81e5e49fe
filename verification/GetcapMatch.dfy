/** Finding a record by name (cgetmatch, gen/getcap.c). */
module GetcapMatch {
  import opened Options

  predicate EndsName(s: string, i: nat) {
    i >= |s| || s[i] == '|' || s[i] == ':'
  }

  /** How far the name agrees with s from i on, if its first k characters do. */
  function Agree(s: string, i: nat, name: string, k: nat): (m: nat)
    requires i <= |s| && k <= |name| && i + k <= |s|
    ensures k <= m <= |name| && i + m <= |s|
    decreases |name| - k
  {
    if k == |name| || i + k == |s| || s[i + k] != name[k] then k else Agree(s, i, name, k + 1)
  }

  /** The next '|' in the field of names at or behind p. */
  function BarAt(s: string, p: nat): (q: Option<nat>)
    requires p <= |s|
    ensures q.Some? ==> p <= q.value < |s| && s[q.value] == '|'
    decreases |s| - p
  {
    if p == |s| || s[p] == ':' then None else if s[p] == '|' then Some(p) else BarAt(s, p + 1)
  }

  /** Where the loop that compares the name stops in s: behind the name or at the difference, but never
      so far that a '|' there would be missed. */
  function StopAt(s: string, i: nat, name: string): (p: nat)
    requires i <= |s| && name != ""
    ensures i <= p <= |s|
  {
    var m := Agree(s, i, name, 0);
    if m == |name| then i + m - 1 else i + m
  }

  /** Whether `cgetmatch` finds the name when it starts to compare at i. */
  predicate MatchFrom(s: string, name: string, i: nat)
    requires i <= |s|
    decreases |s| - i
  {
    if Agree(s, i, name, 0) == |name| && EndsName(s, i + |name|) then true
    else if name == "" then false
    else
      var q := BarAt(s, StopAt(s, i, name));
      q.Some? && MatchFrom(s, name, q.value + 1)
  }

  function NameEnd(s: string, i: nat): (e: nat)
    requires i <= |s|
    ensures i <= e <= |s| && EndsName(s, e)
    decreases |s| - i
  {
    if EndsName(s, i) then i else NameEnd(s, i + 1)
  }

  /** The names of a record from position i on. */
  function NamesFrom(s: string, i: nat): seq<string>
    requires i <= |s|
    decreases |s| - i
  {
    var e := NameEnd(s, i);
    [s[i..e]] + (if e < |s| && s[e] == '|' then NamesFrom(s, e + 1) else [])
  }

  predicate PlainName(name: string) {
    name != "" && '|' !in name && ':' !in name
  }

  lemma {:induction false} AgreeIs(s: string, i: nat, name: string, k: nat)
    requires i <= |s| && k <= |name| && i + k <= |s|
    ensures var m := Agree(s, i, name, k);
      s[i + k..i + m] == name[k..m] && (m < |name| && i + m < |s| ==> s[i + m] != name[m])
    decreases |name| - k
  {
    if k < |name| && i + k < |s| && s[i + k] == name[k] {
      AgreeIs(s, i, name, k + 1);
      var m := Agree(s, i, name, k);
      assert s[i + k..i + m] == [s[i + k]] + s[i + k + 1..i + m];
      assert name[k..m] == [name[k]] + name[k + 1..m];
    }
  }

  predicate NoEnd(s: string, i: nat, j: nat) {
    forall k :: i <= k < j ==> !EndsName(s, k)
  }

  lemma {:induction false} NameEndIs(s: string, i: nat, e: nat)
    requires i <= e <= |s|
    ensures NameEnd(s, i) == e <==> NoEnd(s, i, e) && EndsName(s, e)
    decreases |s| - i
  {
    if i < e && !EndsName(s, i) {
      NameEndIs(s, i + 1, e);
    }
  }

  lemma {:induction false} BarFound(s: string, p: nat, e: nat)
    requires p <= e <= |s| && NoEnd(s, p, e) && EndsName(s, e)
    ensures BarAt(s, p) == if e < |s| && s[e] == '|' then Some(e) else None
    decreases e - p
  {
    if p < e {
      assert !EndsName(s, p);
      BarFound(s, p + 1, e);
    }
  }

  /** A plain name agrees within the first name of the rest. */
  lemma {:induction false} AgreesInside(s: string, i: nat, name: string)
    requires i <= |s| && PlainName(name)
    ensures var m, e := Agree(s, i, name, 0), NameEnd(s, i);
      i + m <= e && (m == |name| && EndsName(s, i + m) <==> s[i..e] == name)
  {
    var m, e := Agree(s, i, name, 0), NameEnd(s, i);
    AgreeIs(s, i, name, 0);
    NameEndIs(s, i, e);
    assert forall k :: 0 <= k < m ==> s[i + k] == s[i + 0..i + m][k] == name[0..m][k] == name[k];
    assert forall k :: 0 <= k < |name| ==> name[k] in name;
    assert NoEnd(s, i, i + m);
    assert s[i..e] == name ==> e == i + |name| && forall k :: i <= k < e ==> s[k] == name[k - i];
    if m == |name| && EndsName(s, i + m) {
      assert s[i..e] == s[i + 0..i + m] == name[0..m] == name;
    }
  }

  /** `cgetmatch` finds exactly the names of a record. */
  lemma {:induction false} MatchesNames(s: string, name: string, i: nat)
    requires i <= |s| && PlainName(name)
    ensures MatchFrom(s, name, i) <==> name in NamesFrom(s, i)
    decreases |s| - i
  {
    hide Agree, NameEnd, BarAt, MatchFrom, NamesFrom, StopAt, EndsName;
    var m, e := Agree(s, i, name, 0), NameEnd(s, i);
    AgreesInside(s, i, name);
    NameEndIs(s, i, e);
    MatchStep(s, name, i);
    NamesStep(s, i, e);
    if s[i..e] != name {
      StopInside(s, i, name, m, e);
      BarFound(s, StopAt(s, i, name), e);
      if e < |s| && s[e] == '|' {
        MatchesNames(s, name, e + 1);
      }
    }
  }

  lemma {:induction false} NamesStep(s: string, i: nat, e: nat)
    requires i <= |s| && e == NameEnd(s, i)
    ensures NamesFrom(s, i) == [s[i..e]] + (if e < |s| && s[e] == '|' then NamesFrom(s, e + 1) else [])
  {
  }

  lemma {:induction false} StopInside(s: string, i: nat, name: string, m: nat, e: nat)
    requires i <= e <= |s| && name != "" && m == Agree(s, i, name, 0) && i + m <= e && NoEnd(s, i, e)
    ensures StopAt(s, i, name) <= e && NoEnd(s, StopAt(s, i, name), e)
  {
  }

  /** `cgetmatch` */
  method CGetMatch(buf: string, name: string) returns (found: bool)
    ensures found == MatchFrom(buf, name, 0)
  {
    hide MatchFrom, Agree, BarAt;
    var bp := 0;
    ghost var i := 0;
    while true
      invariant bp == i <= |buf| && (name == "" ==> i == 0)
      invariant MatchFrom(buf, name, i) == MatchFrom(buf, name, 0)
      decreases |buf| - i
    {
      MatchStep(buf, name, i);
      var np := 0;
      while np < |name| && bp < |buf| && buf[bp] == name[np]
        invariant np <= |name| && bp == i + np <= |buf| && Agree(buf, i, name, np) == Agree(buf, i, name, 0)
        decreases |name| - np
      {
        AgreeStep(buf, i, name, np);
        bp, np := bp + 1, np + 1;
      }
      AgreeStep(buf, i, name, np);
      if np == |name| {
        if EndsName(buf, bp) {
          return true;
        }
        if bp == 0 {
          return false;
        }
        bp := bp - 1;
      }
      while bp < |buf| && buf[bp] != ':' && buf[bp] != '|'
        invariant i <= bp <= |buf| && BarAt(buf, bp) == BarAt(buf, StopAt(buf, i, name))
        decreases |buf| - bp
      {
        BarStep(buf, bp);
        bp := bp + 1;
      }
      BarStep(buf, bp);
      if bp == |buf| || buf[bp] == ':' {
        return false;
      }
      bp := bp + 1;
      i := bp;
    }
  }

  lemma {:induction false} MatchStep(s: string, name: string, i: nat)
    requires i <= |s|
    ensures MatchFrom(s, name, i) ==
      if Agree(s, i, name, 0) == |name| && EndsName(s, i + |name|) then true
      else if name == "" then false
      else var q := BarAt(s, StopAt(s, i, name)); q.Some? && MatchFrom(s, name, q.value + 1)
  {
  }

  lemma {:induction false} AgreeStep(s: string, i: nat, name: string, k: nat)
    requires i <= |s| && k <= |name| && i + k <= |s|
    ensures Agree(s, i, name, k) == if k == |name| || i + k == |s| || s[i + k] != name[k] then k else Agree(s, i, name, k + 1)
  {
  }

  lemma {:induction false} BarStep(s: string, p: nat)
    requires p <= |s|
    ensures BarAt(s, p) == if p == |s| || s[p] == ':' then None else if s[p] == '|' then Some(p) else BarAt(s, p + 1)
  {
  }
}
