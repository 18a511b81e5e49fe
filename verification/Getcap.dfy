/** Searching and expanding capability records in a buffer (cgetcap and getent, gen/getcap.c). */
module Getcap {
  import opened Options
  import opened GetcapFields
  import opened GetcapMatch
  import opened GetcapExpand
  import opened GetcapSplice

  /** The memory m holds the C string s. */
  predicate Holds(m: seq<char>, s: string) {
    |s| < |m| && m[..|s|] == s && m[|s|] == '\0' && '\0' !in s
  }

  lemma {:induction false} CapStep(s: string, i: nat, cap: string, typ: char)
    requires i <= |s|
    ensures CapFrom(s, i, cap, typ) ==
      var j := ColonAt(s, i);
      if j == |s| then None
      else
        var e := ColonAt(s, j + 1);
        match MatchField(s[j + 1..e], cap, typ)
        case NoMatch => CapFrom(s, j + 1, cap, typ)
        case Cancel => None
        case Found(v) => Some(e - |v|)
  {
  }

  /** Comparing went on as far as k inside the field [f, e). */
  predicate Compared(s: string, f: nat, e: nat, cap: string, k: nat) {
    && f + k <= e <= |s| && k <= |cap| && s[f..f + k] == cap[..k]
    && (k < |cap| ==> f + k == e || s[f + k] != cap[k])
  }

  /** What the characters behind the compared ones say. */
  lemma {:induction false} FieldVerdict(s: string, f: nat, e: nat, cap: string, typ: char, k: nat)
    requires Compared(s, f, e, cap, k)
    ensures MatchField(s[f..e], cap, typ) ==
      if k < |cap| then NoMatch
      else if f + k < e && s[f + k] == '@' then Cancel
      else if typ == ':' then (if f + k == e then Found("") else NoMatch)
      else if f + k == e || s[f + k] != typ then NoMatch
      else if f + k + 1 < e && s[f + k + 1] == '@' then Cancel
      else Found(s[f + k + 1..e])
  {
    var g := s[f..e];
    assert forall m :: 0 <= m < |g| ==> g[m] == s[f + m];
    if k < |cap| {
      if |cap| <= |g| {
        assert g[..|cap|][k] == g[k] != cap[k];
      }
    } else {
      assert g[..k] == s[f..f + k] == cap[..k] == cap;
      assert g[k..] == s[f + k..e];
      assert f + k < e ==> g[k..][1..] == s[f + k + 1..e];
    }
  }

  /** The loop of `cgetcap` that skips the rest of a field. */
  method SkipField(m: seq<char>, at: nat, ghost s: string) returns (bp: nat)
    requires Holds(m, s) && at <= |s|
    ensures bp == ColonAt(s, at) && (bp < |s| <==> m[bp] == ':') && (bp == |s| <==> m[bp] == '\0')
  {
    assert forall k :: 0 <= k < |s| ==> m[k] == s[k] && s[k] in s;
    bp := at;
    while m[bp] != '\0' && m[bp] != ':'
      invariant at <= bp <= |s| && ColonAt(s, bp) == ColonAt(s, at)
      decreases |s| - bp
    {
      bp := bp + 1;
    }
  }

  /** The loop of `cgetcap` that compares a field with a capability. */
  method CompareCap(m: seq<char>, f: nat, cap: string, ghost s: string) returns (k: nat)
    requires Holds(m, s) && f <= |s| && '\0' !in cap && NoColon(cap)
    ensures Compared(s, f, ColonAt(s, f), cap, k) && ColonAt(s, f + k) == ColonAt(s, f)
  {
    hide NoColon, Compared;
    assert forall k :: 0 <= k < |s| ==> m[k] == s[k] && s[k] in s;
    ghost var e := ColonAt(s, f);
    k := 0;
    while k < |cap| && m[f + k] == cap[k]
      invariant 0 <= k <= |cap| && f + k <= e && s[f..f + k] == cap[..k] && ColonAt(s, f + k) == e
      decreases |cap| - k
    {
      InCap(cap, k);
      assert s[f..f + k + 1] == s[f..f + k] + [s[f + k]] && cap[..k + 1] == cap[..k] + [cap[k]];
      k := k + 1;
    }
    CapEnds(s, f, e, cap, k);
  }

  /** `cgetcap` on the memory from `at` on: where the value of a capability starts.  Capabilities have
      no ':' in their names. */
  method CGetCap(m: seq<char>, at: nat, cap: string, typ: char, ghost s: string) returns (p: Option<nat>)
    requires Holds(m, s) && at <= |s| && '\0' !in cap && NoColon(cap) && typ != '\0'
    ensures p == CapFrom(s, at, cap, typ)
  {
    hide CapFrom, MatchField, NoColon, ColonAt;
    var bp := at;
    assert forall k :: 0 <= k < |s| ==> m[k] == s[k] && s[k] in s;
    while true
      invariant at <= bp <= |s| && CapFrom(s, bp, cap, typ) == CapFrom(s, at, cap, typ)
      decreases |s| - bp
    {
      CapStep(s, bp, cap, typ);
      bp := SkipField(m, bp, s);
      if m[bp] == '\0' {
        return None;
      }
      bp := bp + 1;
      var k := CompareCap(m, bp, cap, s);
      FieldVerdict(s, bp, ColonAt(s, bp), cap, typ, k);
      SameCap(s, bp, bp + k, cap, typ);
      bp := bp + k;
      if k < |cap| {
        continue;
      }
      if m[bp] == '@' {
        return None;
      }
      if typ == ':' {
        if m[bp] != '\0' && m[bp] != ':' {
          continue;
        }
        ColonHere(s, bp);
        return Some(bp);
      }
      if m[bp] != typ {
        continue;
      }
      bp := bp + 1;
      return if m[bp] == '@' then None else Some(bp);
    }
  }

  lemma {:induction false} ColonHere(s: string, i: nat)
    requires i <= |s| && (i < |s| ==> s[i] == ':')
    ensures ColonAt(s, i) == i
  {
  }

  lemma {:induction false} InCap(cap: string, k: nat)
    requires k < |cap| && '\0' !in cap && NoColon(cap)
    ensures cap[k] != '\0' && cap[k] != ':'
  {
  }

  lemma {:induction false} CapEnds(s: string, f: nat, e: nat, cap: string, k: nat)
    requires f + k <= e <= |s| && k <= |cap| && s[f..f + k] == cap[..k] && (k < |cap| && f + k < |s| ==> s[f + k] != cap[k])
    ensures Compared(s, f, e, cap, k)
  {
  }

  /** Only the field that a position is in matters. */
  lemma {:induction false} SameCap(s: string, i: nat, i': nat, cap: string, typ: char)
    requires i <= |s| && i' <= |s| && ColonAt(s, i) == ColonAt(s, i')
    ensures CapFrom(s, i, cap, typ) == CapFrom(s, i', cap, typ)
  {
  }

  predicate NoNuls(db: Database) {
    forall i, k :: 0 <= i < |db| && 0 <= k < |db[i]| ==> '\0' !in db[i][k]
  }

  /** The loops of `getent` that look for a record by its name. */
  method FindRecord(db: Database, file: nat, name: string) returns (p: Option<Place>)
    ensures p == Find(db, file, name)
  {
    hide MatchFrom;
    var dbp := file;
    while dbp < |db|
      invariant file <= dbp && Find(db, dbp, name) == Find(db, file, name)
    {
      var k := 0;
      while k < |db[dbp]|
        invariant 0 <= k <= |db[dbp]| && FindIn(db[dbp], name, k) == FindIn(db[dbp], name, 0)
      {
        var record := db[dbp][k];
        if IsRecord(record) {
          var match_ := CGetMatch(record, name);
          if match_ {
            return Some(Place(dbp, record));
          }
        }
        k := k + 1;
      }
      dbp := dbp + 1;
    }
    return None;
  }

  /** What `getent` returns: a code, and a record unless it is negative. */
  datatype Answer = Answer(code: int, cap: string)

  /** The answer for a record in which all references are to be expanded. */
  function Answered(db: Database, file: nat, record: string, depth: nat): Answer
    requires depth <= 32
  {
    match Outcome(db, file, record, 0, false, depth)
    case None => Answer(-3, "")
    case Some((unresolved, cap)) => Answer(if unresolved then 1 else 0, cap)
  }

  /** The record that `getent` starts from: the one set by `cgetset`, if it has the name, or one from
      the database. */
  function StartOf(db: Database, file: nat, name: string, depth: nat, top: Option<string>): Option<Place> {
    if depth == 0 && top.Some? && MatchFrom(top.value, name, 0) then Some(Place(file, top.value)) else Find(db, file, name)
  }

  /** `getent` in general. */
  function Entry(db: Database, file: nat, name: string, depth: nat, top: Option<string>, expandtc: bool): Answer
    requires depth <= 33
  {
    if depth > 32 then Answer(-3, "")
    else
      match StartOf(db, file, name, depth, top)
      case None => Answer(-1, "")
      case Some(p) => if expandtc then Answered(db, p.file, p.record, depth) else Answer(0, p.record)
  }

  /** The expanded fields of a record have no ':' in them. */
  lemma {:induction false} ExpandedFields(db: Database, file: nat, fs: seq<string>, depth: nat)
    requires depth <= 32 && NoColons(fs)
    ensures Expand(db, file, fs, depth, false).Some? ==> NoColons(Expand(db, file, fs, depth, false).value.fields)
    decreases 33 - depth, 0, |fs|
  {
    hide Expand, Fetch, Reference, NoColon;
    NothingExpanded(db, file, depth);
    if fs != [] {
      ExpandStep(db, file, fs, depth, false);
      NoColonsTail(fs);
      ExpandedFields(db, file, fs[1..], depth);
      LessThanLast(fs[0]);
      if Reference(fs[0]).Found? {
        FetchedFields(db, file, Reference(fs[0]).value, depth + 1);
      }
    }
  }

  lemma {:induction false} LessThanLast(f: string)
    requires NoColon(f)
    ensures NoColons(Restored(f, false)) && NoColon("")
  {
  }

  lemma {:induction false} FetchedFields(db: Database, file: nat, name: string, depth: nat)
    requires depth <= 33
    ensures var g := Fetch(db, file, name, depth, false); g.Got? ==> NoColons(g.body)
    decreases 33 - depth, 1, 0
  {
    hide Find, Expand;
    if depth <= 32 && Find(db, file, name).Some? {
      var p := Find(db, file, name).value;
      RenderOfFields(p.record, 0);
      ExpandedFields(db, p.file, FieldsFrom(p.record, 0), depth);
    }
  }

  /** What a recursive call returns is what is fetched for the reference: a record, as a string, with
      the body to be inserted. */
  lemma {:induction false} EntryFetches(db: Database, file: nat, name: string, depth: nat) returns (ins: string)
    requires 0 < depth <= 33
    ensures var a, g := Entry(db, file, name, depth, None, true), Fetch(db, file, name, depth, false);
      && (g == TooDeep ==> a.code == -3) && (g == Missing ==> a.code == -1)
      && (g.Got? ==> a.code == (if g.unresolved then 1 else 0) && ins == Insertion(a.cap) && ":" + ins == Render(g.body) + ":")
  {
    hide Expand, Render, ColonAt, FieldsFrom, Insertion;
    ins := "";
    var p := Find(db, file, name);
    if depth <= 32 && p.Some? {
      var r, fs := p.value.record, FieldsFrom(p.value.record, 0);
      RenderOfFields(r, 0);
      ExpandedFields(db, p.value.file, fs, depth);
      var e := Expand(db, p.value.file, fs, depth, false);
      if e.Some? {
        var x := r[..ColonAt(r, 0)];
        ColonAtIs(r, 0, ColonAt(r, 0));
        NotEmpty(db, p.value.file, name, r, depth);
        FoundRecord(db, file, name);
        InsertionIs(x, e.value.fields);
        ins := Insertion(x + Render(e.value.fields));
      }
    }
  }

  lemma {:induction false} FoundRecord(db: Database, file: nat, name: string)
    requires Find(db, file, name).Some?
    ensures IsRecord(Find(db, file, name).value.record)
    decreases |db| - file
  {
    hide MatchFrom;
    if FindIn(db[file], name, 0).Some? {
      FoundIn(db[file], name, 0);
    } else {
      FoundRecord(db, file + 1, name);
    }
  }

  lemma {:induction false} FoundIn(records: seq<string>, name: string, k: nat)
    requires k <= |records| && FindIn(records, name, k).Some?
    ensures IsRecord(FindIn(records, name, k).value) && FindIn(records, name, k).value in records
    decreases |records| - k
  {
    hide MatchFrom;
    if !(IsRecord(records[k]) && MatchFrom(records[k], name, 0)) {
      FoundIn(records, name, k + 1);
    }
  }

  lemma {:induction false} NotEmpty(db: Database, file: nat, name: string, r: string, depth: nat)
    requires depth <= 32
    ensures r != "" && Expand(db, file, FieldsFrom(r, 0), depth, false).Some? ==>
      r[..ColonAt(r, 0)] + Render(Expand(db, file, FieldsFrom(r, 0), depth, false).value.fields) != ""
  {
    var e := Expand(db, file, FieldsFrom(r, 0), depth, false);
    FieldsStep(r, 0, ColonAt(r, 0));
    hide Expand, FieldsFrom;
    if r != "" && e.Some? && ColonAt(r, 0) == 0 {
      SomethingThere(db, file, FieldsFrom(r, 0), depth, false);
      RenderLast(e.value.fields);
    }
  }

  /** The part of a buffer that is in use: a string and its NUL. */
  predicate Filled(m: seq<char>, rp: nat, s: string) {
    rp == |s| + 1 <= |m| && m[..rp] == s + ['\0'] && '\0' !in s
  }

  lemma {:induction false} FilledHolds(m: seq<char>, rp: nat, s: string)
    requires Filled(m, rp, s)
    ensures Holds(m, s)
  {
    assert m[..|s|] == m[..rp][..|s|];
    assert m[|s|] == m[..rp][|s|];
  }

  /** The two moves that put a text in the place of another one. */
  method Splice(record: array<char>, rp: nat, tcstart: nat, tcend: nat, ins: string)
    requires tcstart <= tcend <= rp <= record.Length && rp - (tcend - tcstart) + |ins| <= record.Length
    modifies record
    ensures record[..rp - (tcend - tcstart) + |ins|] == old(record[..tcstart]) + ins + old(record[tcend..rp])
  {
    var s := tcstart + |ins|;
    forall i | tcend <= i < rp {
      record[i - tcend + s] := record[i];
    }
    forall i | 0 <= i < |ins| {
      record[tcstart + i] := ins[i];
    }
  }

  /** A larger buffer with the same contents. */
  method Realloc(record: array<char>, rp: nat, size: nat) returns (larger: array<char>)
    requires rp <= record.Length && rp <= size
    ensures fresh(larger) && larger.Length == size && larger[..rp] == record[..rp]
  {
    larger := new char[size](_ => '\0');
    forall i | 0 <= i < rp {
      larger[i] := record[i];
    }
  }

  /** The text behind the names of a record, ended by a ':'. */
  method Interpolated(icap: string) returns (ins: string)
    ensures ins == Insertion(icap)
  {
    var s := 0;
    while s < |icap| && icap[s] != ':'
      invariant 0 <= s <= |icap| && ColonAt(icap, s) == ColonAt(icap, 0)
    {
      s := s + 1;
    }
    if s < |icap| {
      s := s + 1;
    }
    ins := icap[s..];
    if icap == "" || icap[|icap| - 1] != ':' {
      ins := ins + ":";
    }
  }

  lemma {:induction false} NoNulPart(s: string, i: nat, j: nat)
    requires i <= j <= |s| && '\0' !in s
    ensures '\0' !in s[i..j]
  {
  }

  lemma {:induction false} PartOfFront(a: string, s: string, i: nat, j: nat)
    requires i <= j <= |s| <= |a| && a[..|s|] == s
    ensures a[i..j] == s[i..j]
  {
    assert a[..|s|][i..j] == a[i..j];
  }

  /** The end of a name: the ':' behind it is overwritten, if there is one. */
  method Stomp(record: array<char>, rp: nat, tc: nat, ghost s: string) returns (tcend: nat, name: string)
    requires Filled(record[..], rp, s) && tc <= |s|
    modifies record
    ensures tcend == Past(s, ColonAt(s, tc)) && name == s[tc..ColonAt(s, tc)] && '\0' !in name
    ensures ColonAt(s, tc) < |s| ==> record[tcend - 1] == '\0'
    ensures forall i :: 0 <= i < rp && !(ColonAt(s, tc) < |s| && i == ColonAt(s, tc)) ==> record[i] == old(record[i])
  {
    FilledHolds(record[..], rp, s);
    var e := SkipField(record[..], tc, s);
    NoNulPart(s, tc, e);
    assert record[..][..|s|] == s;
    PartOfFront(record[..], s, tc, e);
    name := record[tc..e];
    assert name == record[..][tc..e];
    tcend := e;
    if record[e] == ':' {
      record[e] := '\0';
      tcend := e + 1;
    }
  }

  /** Room for a longer text (the check and `realloc` in `getent`). */
  method MakeRoom(record: array<char>, rp: nat, rEnd: nat, diff: int) returns (record': array<char>, rEnd': nat)
    requires rp <= rEnd <= record.Length + 1 && rp <= record.Length && rp + diff >= 0
    ensures rp + diff <= record'.Length && rp <= record'.Length && record'[..rp] == record[..rp]
    ensures rp + diff <= rEnd' <= record'.Length + 1 && (record' == record || fresh(record'))
  {
    record', rEnd' := record, rEnd;
    if diff >= rEnd - rp {
      rEnd' := rEnd + diff + 1024;
      record' := Realloc(record, rp, rEnd');
    }
  }

  lemma {:induction false} CapInside(s: string, i: nat, cap: string, typ: char)
    requires i <= |s|
    ensures CapFrom(s, i, cap, typ).Some? ==> CapFrom(s, i, cap, typ).value <= |s|
  {
    CapIsSearch(s, i, cap, typ);
  }

  /** The buffer after a reference was replaced. */
  lemma {:induction false} RefilledBySplice(m: seq<char>, m': seq<char>, rp: nat, s: string, tcstart: nat, tcend: nat, ins: string)
    requires Filled(m, rp, s) && tcstart <= tcend <= |s| && '\0' !in ins
    requires var rp' := rp - (tcend - tcstart) + |ins|; rp' <= |m'| && m'[..rp'] == m[..tcstart] + ins + m[tcend..rp]
    ensures Filled(m', rp - (tcend - tcstart) + |ins|, s[..tcstart] + ins + s[tcend..])
  {
    var s' := s[..tcstart] + ins + s[tcend..];
    assert m[..tcstart] == m[..rp][..tcstart] == s[..tcstart];
    assert m[tcend..rp] == m[..rp][tcend..] == s[tcend..] + ['\0'];
    assert s' + ['\0'] == s[..tcstart] + ins + (s[tcend..] + ['\0']);
  }

  /** The buffer after the ':' was put back. */
  lemma {:induction false} RefilledByColon(m: seq<char>, m': seq<char>, rp: nat, s: string, e: nat, tcend: nat)
    requires Filled(m, rp, s) && 0 < e <= |s| && e == ColonAt(s, e) && tcend == Past(s, e)
    requires |m'| == |m| && m'[tcend - 1] == ':' && forall i :: 0 <= i < rp && i != tcend - 1 ==> m'[i] == m[i]
    ensures Filled(m', rp, if e < |s| then s else s[..e - 1] + ":")
  {
    var s' := if e < |s| then s else s[..e - 1] + ":";
    assert forall i :: 0 <= i < |s| ==> m[i] == m[..rp][i] == s[i];
    assert m[|s|] == m[..rp][|s|] == '\0';
    assert m'[..rp] == s' + ['\0'];
    assert '\0' !in s[..e - 1];
  }

  /** Put back the ':' behind a reference that could not be resolved. */
  method PutBack(record: array<char>, rp: nat, tc: nat, tcend: nat, ghost m0: seq<char>, ghost s: string)
    requires Filled(m0, rp, s) && |m0| == record.Length && 0 < tc <= |s| && tcend == Past(s, ColonAt(s, tc))
    requires ColonAt(s, tc) < |s| ==> record[tcend - 1] == '\0'
    requires forall i :: 0 <= i < rp && !(ColonAt(s, tc) < |s| && i == ColonAt(s, tc)) ==> record[i] == m0[i]
    modifies record
    ensures var e := ColonAt(s, tc); e > 0 && Filled(record[..], rp, if e < |s| then s else s[..e - 1] + ":")
  {
    ColonThere(s, tc);
    record[tcend - 1] := ':';
    RefilledByColon(m0, record[..], rp, s, ColonAt(s, tc), tcend);
  }

  /** Put a text in the place of a reference whose end was overwritten. */
  method PutIn(record: array<char>, rp: nat, rEnd: nat, tcstart: nat, tcend: nat, ins: string, ghost m0: seq<char>, ghost s: string)
    returns (record': array<char>, rp': nat, rEnd': nat)
    requires Filled(m0, rp, s) && |m0| == record.Length && tcstart < tcend <= |s| && '\0' !in ins && rp <= rEnd <= record.Length + 1
    requires forall i :: 0 <= i < rp && !(tcstart <= i < tcend) ==> record[i] == m0[i]
    modifies record
    ensures Filled(record'[..], rp', s[..tcstart] + ins + s[tcend..]) && (record' == record || fresh(record'))
    ensures rp' <= rEnd' <= record'.Length + 1 && rp' <= record'.Length
  {
    ghost var m1 := record[..];
    var diff := |ins| - (tcend - tcstart);
    record', rEnd' := MakeRoom(record, rp, rEnd, diff);
    assert record'[..tcstart] == record'[..rp][..tcstart] == m1[..tcstart];
    assert record'[tcend..rp] == record'[..rp][tcend..rp] == m1[tcend..rp];
    Splice(record', rp, tcstart, tcend, ins);
    rp' := rp + diff;
    assert record'[..][..rp'] == record'[..rp'];
    Unstomped(m0, m1, record'[..], rp, s, tcstart, tcend, ins);
  }

  /** A record in a buffer of its own. */
  method Copied(rec: string, length: nat) returns (record: array<char>)
    requires '\0' !in rec && |rec| + 1 <= length
    ensures fresh(record) && record.Length == length && Filled(record[..], |rec| + 1, rec)
  {
    record := new char[length](_ => '\0');
    forall i | 0 <= i < |rec| {
      record[i] := rec[i];
    }
    assert record[..][..|rec| + 1] == rec + ['\0'];
  }

  /** The part of `getent` behind tc_exp, for a record that was read into a buffer.  For one that was
      set by `cgetset` the end of the buffer is noted one character too far, which does no harm. */
  method ExpandRecord(db: Database, file: nat, rec: string, depth: nat, length: nat, rEnd0: nat) returns (a: Answer)
    requires depth <= 32 && NoNuls(db) && '\0' !in rec && |rec| + 1 <= length && |rec| + 1 <= rEnd0 <= length + 1
    ensures a == Answered(db, file, rec, depth) && '\0' !in a.cap
    decreases 33 - depth, 0
  {
    hide *;
    var record := Copied(rec, length);
    var rp: nat, rEnd: nat, scan: nat, unresolved := |rec| + 1, rEnd0, 0, false;
    ghost var s, goal := rec, Outcome(db, file, rec, 0, false, depth);
    while true
      invariant Filled(record[..], rp, s) && scan <= |s| && rp == |s| + 1 <= rEnd <= record.Length + 1 && rp <= record.Length
      invariant fresh(record) && Outcome(db, file, s, scan, unresolved, depth) == goal
      decreases |s| - scan
    {
      FilledHolds(record[..], rp, s);
      TcIsPlain();
      var tcp := CGetCap(record[..], scan, "tc", '=', s);
      if tcp == None {
        Complete(db, file, s, scan, unresolved, depth);
        a := Answer(if unresolved then 1 else 0, record[..rp - 1]);
        Finished(db, file, rec, depth, record[..], rp, s, unresolved, a);
        return;
      }
      var tc := tcp.value;
      CapInside(s, scan, "tc", '=');
      ghost var m0 := record[..];
      var tcend, name := Stomp(record, rp, tc, s);
      ghost var ins0 := EntryFetches(db, file, name, depth + 1);
      var sub := GetEnt(db, file, name, depth + 1, None, true);
      ghost var g := Fetch(db, file, name, depth + 1, false);
      FetchKinds(g);
      if sub.code < -1 {
        Abandon(db, file, s, scan, unresolved, depth, tc);
        TooFar(db, file, rec, depth);
        return Answer(-3, "");
      }
      if sub.code == -1 {
        Leave(db, file, s, scan, unresolved, depth, tc);
        PutBack(record, rp, tc, tcend, m0, s);
        s := if ColonAt(s, tc) < |s| then s else s[..ColonAt(s, tc) - 1] + ":";
        scan, unresolved := tcend - 1, true;
        continue;
      }
      var ins := Interpolated(sub.cap);
      InsertionClean(sub.cap);
      Replace(db, file, s, scan, unresolved, depth, tc, g.unresolved, g.body, ins);
      if sub.code == 1 {
        unresolved := true;
      }
      PastIn(s, tc, tcend, ins);
      record, rp, rEnd := PutIn(record, rp, rEnd, tc - 3, tcend, ins, m0, s);
      s := s[..tc - 3] + ins + s[tcend..];
      scan := tc - 3 + |ins| - 1;
    }
  }

  /** `getent` */
  method GetEnt(db: Database, file: nat, name: string, depth: nat, top: Option<string>, expandtc: bool) returns (a: Answer)
    requires depth <= 33 && NoNuls(db) && '\0' !in name && (top.Some? ==> '\0' !in top.value)
    ensures a == Entry(db, file, name, depth, top, expandtc) && '\0' !in a.cap
    decreases 33 - depth, 1
  {
    hide Answered, Find, MatchFrom;
    if depth > 32 {
      return Answer(-3, "");
    }
    if depth == 0 && top.Some? {
      var match_ := CGetMatch(top.value, name);
      if match_ {
        if !expandtc {
          return Answer(0, top.value);
        }
        a := ExpandRecord(db, file, top.value, depth, |top.value| + 1024, |top.value| + 1 + 1024);
        return;
      }
    }
    var p := FindRecord(db, file, name);
    if p == None {
      return Answer(-1, "");
    }
    PlaceClean(db, file, name);
    if !expandtc {
      return Answer(0, p.value.record);
    }
    var size := Buffer(|p.value.record| + 1);
    a := ExpandRecord(db, p.value.file, p.value.record, depth, size, size);
  }

  /** The size of a buffer that was enlarged in steps while n characters were read into it. */
  function Buffer(n: nat): (size: nat)
    ensures size >= n
    decreases n
  {
    if n <= 1024 then 1024 else 1024 + Buffer(n - 1024)
  }

  lemma {:induction false} PlaceClean(db: Database, file: nat, name: string)
    requires NoNuls(db) && Find(db, file, name).Some?
    ensures '\0' !in Find(db, file, name).value.record
    decreases |db| - file
  {
    hide MatchFrom;
    if FindIn(db[file], name, 0).Some? {
      FoundIn(db[file], name, 0);
    } else {
      PlaceClean(db, file + 1, name);
    }
  }

  lemma {:induction false} FetchKinds(g: Fetched)
    ensures g == TooDeep || g == Missing || g == Got(g.unresolved, g.body)
  {
  }

  lemma {:induction false} TooFar(db: Database, file: nat, rec: string, depth: nat)
    requires depth <= 32 && Outcome(db, file, rec, 0, false, depth) == None
    ensures Answered(db, file, rec, depth) == Answer(-3, "")
  {
    hide Outcome;
  }

  lemma {:induction false} ColonThere(s: string, i: nat)
    requires 0 < i <= |s|
    ensures var e := ColonAt(s, i); 0 < e && ColonAt(s, e) == e
  {
    ColonHere(s, ColonAt(s, i));
  }

  lemma {:induction false} InsertionClean(icap: string)
    requires '\0' !in icap
    ensures '\0' !in Insertion(icap)
  {
  }

  lemma {:induction false} PastIn(s: string, tc: nat, tcend: nat, ins: string)
    requires 4 <= tc <= |s| && tcend == Past(s, ColonAt(s, tc))
    ensures tc <= tcend <= |s|
  {
  }

  /** The overwritten ':' is among what is replaced. */
  lemma {:induction false} Unstomped(m0: seq<char>, m1: seq<char>, m': seq<char>, rp: nat, s: string, tcstart: nat, tcend: nat, ins: string)
    requires Filled(m0, rp, s) && tcstart <= tcend <= |s| && '\0' !in ins && |m1| >= rp
    requires forall i :: 0 <= i < rp && !(tcstart <= i < tcend) ==> m1[i] == m0[i]
    requires var rp' := rp - (tcend - tcstart) + |ins|; rp' <= |m'| && m'[..rp'] == m1[..tcstart] + ins + m1[tcend..rp]
    ensures Filled(m', rp - (tcend - tcstart) + |ins|, s[..tcstart] + ins + s[tcend..])
  {
    assert m1[..tcstart] == m0[..tcstart] && m1[tcend..rp] == m0[tcend..rp];
    RefilledBySplice(m0, m', rp, s, tcstart, tcend, ins);
  }

  lemma {:induction false} TcIsPlain()
    ensures NoColon("tc")
  {
  }

  lemma {:induction false} Finished(db: Database, file: nat, rec: string, depth: nat, m: seq<char>, rp: nat, s: string, unresolved: bool, a: Answer)
    requires depth <= 32 && Outcome(db, file, rec, 0, false, depth) == Some((unresolved, s)) && Filled(m, rp, s)
    requires a == Answer(if unresolved then 1 else 0, m[..rp - 1])
    ensures a == Answered(db, file, rec, depth) && '\0' !in a.cap
  {
    hide Outcome;
    assert m[..rp - 1] == m[..rp][..|s|] == s;
  }

  /** The last field of a record is no reference, as when the record ends in a ':'. */
  predicate EndsPlain(fs: seq<string>) {
    fs != [] ==> !Reference(fs[|fs| - 1]).Found?
  }

  predicate AllEndPlain(db: Database) {
    forall i, k :: 0 <= i < |db| && 0 <= k < |db[i]| ==> EndsPlain(FieldsFrom(db[i][k], 0))
  }

  lemma {:induction false} ColonEndsPlain(r: string, i: nat)
    requires i < |r| && r[|r| - 1] == ':'
    ensures EndsPlain(FieldsFrom(r, i))
    decreases |r| - i
  {
    hide ColonAt, NoColon, Reference;
    var j := ColonAt(r, i);
    FieldsStep(r, i, j);
    ColonReached(r, i);
    var fs := FieldsFrom(r, i);
    if j + 1 < |r| {
      ColonEndsPlain(r, j + 1);
      FieldsStep(r, j + 1, ColonAt(r, j + 1));
      ColonReached(r, j + 1);
      assert fs[|fs| - 1] == FieldsFrom(r, j + 1)[|fs| - 2];
    } else {
      FieldsStep(r, j + 1, ColonAt(r, j + 1));
      assert r[j + 1..ColonAt(r, j + 1)] == "";
      EmptyPlain();
    }
  }

  lemma {:induction false} ColonReached(r: string, i: nat)
    requires i < |r| && r[|r| - 1] == ':'
    ensures ColonAt(r, i) < |r|
    decreases |r| - i
  {
    if r[i] != ':' {
      ColonReached(r, i + 1);
    }
  }

  lemma {:induction false} EmptyPlain()
    ensures Reference("") == NoMatch
  {
  }

  lemma {:induction false} TidyIfPlain(db: Database, file: nat, fs: seq<string>, depth: nat)
    requires depth <= 32 && EndsPlain(fs) && AllEndPlain(db)
    ensures Tidy(db, file, fs, depth)
    decreases 33 - depth, 0, |fs|
  {
    hide Tidy, TidyFetch, Fetch, Reference, AllEndPlain;
    TidyStep(db, file, fs, depth);
    if fs != [] && Reference(fs[0]) != Cancel {
      assert fs[1..] != [] ==> fs[1..][|fs| - 2] == fs[|fs| - 1];
      TidyIfPlain(db, file, fs[1..], depth);
      if Reference(fs[0]).Found? {
        TidyFetchIfPlain(db, file, Reference(fs[0]).value, depth + 1);
      }
    }
  }

  lemma {:induction false} TidyFetchIfPlain(db: Database, file: nat, name: string, depth: nat)
    requires depth <= 33 && AllEndPlain(db)
    ensures TidyFetch(db, file, name, depth)
    decreases 33 - depth, 1, 0
  {
    hide Tidy, EndsPlain, FieldsFrom;
    if depth <= 32 && Find(db, file, name).Some? {
      PlaceIn(db, file, name);
      var p := Find(db, file, name).value;
      TidyIfPlain(db, p.file, FieldsFrom(p.record, 0), depth);
    }
  }

  lemma {:induction false} PlaceIn(db: Database, file: nat, name: string)
    requires Find(db, file, name).Some?
    ensures var p := Find(db, file, name).value; p.file < |db| && p.record in db[p.file]
    decreases |db| - file
  {
    hide MatchFrom;
    if FindIn(db[file], name, 0).Some? {
      FoundIn(db[file], name, 0);
    } else {
      PlaceIn(db, file + 1, name);
    }
  }

  /** Expanding a record keeps its meaning: in a tidy record that getent expands, cgetcap finds for every
      capability and type what there is to be found from left to right, going into the records that are
      referred to. */
  lemma {:induction false} ExpansionMeans(db: Database, file: nat, rec: string, cap: string, typ: char)
    requires IsCapability(cap, typ) && Answered(db, file, rec, 0).code >= 0 && Tidy(db, file, FieldsFrom(rec, 0), 0)
    ensures var c := Answered(db, file, rec, 0).cap;
      var p, v := CapFrom(c, 0, cap, typ), Lookup(db, file, FieldsFrom(rec, 0), cap, typ, 0);
      (p.Some? <==> v.Found?) && (p.Some? ==> p.value <= |c| && c[p.value..ColonAt(c, p.value)] == v.value)
  {
    hide Expand, Lookup, Search, CapFrom, ColonAt, FieldsFrom, Render, Tidy, Alike, NoColons;
    var fs := FieldsFrom(rec, 0);
    SameFailures(db, file, fs, 0);
    var e := Expand(db, file, fs, 0, false).value;
    Exact(db, file, fs, 0);
    AlikeSame(Expand(db, file, fs, 0, true).value, e);
    Meaning(db, file, fs, cap, typ, 0);
    RenderOfFields(rec, 0);
    ExpandedFields(db, file, fs, 0);
    ColonAtIs(rec, 0, ColonAt(rec, 0));
    var c, x := Answered(db, file, rec, 0).cap, rec[..ColonAt(rec, 0)];
    assert rec[0..ColonAt(rec, 0)] == x && c[0..] == c;
    FieldsOfRender(c, 0, x, e.fields);
    CapIsSearch(c, 0, cap, typ);
  }

  lemma {:induction false} AlikeSame(a: Expanded, b: Expanded)
    requires Alike(a, b, true)
    ensures a == b
  {
  }

  /** Expansion fails exactly when there is a chain of more than 32 references, and so for every record
      that refers to itself. */
  lemma {:induction false} FailureMeans(db: Database, file: nat, rec: string)
    ensures Answered(db, file, rec, 0).code == -3 <==> Chain(db, file, FieldsFrom(rec, 0), 33)
  {
    hide Expand, Chain, FieldsFrom, Render;
    FailsWhenDeep(db, file, FieldsFrom(rec, 0), 0, false);
  }
}
