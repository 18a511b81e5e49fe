/** What the expansion of "tc=" references does to a capability record, and what it means (getent,
    gen/getcap.c).  A database is a list of files of records. */
module GetcapExpand {
  import opened Options
  import opened GetcapFields
  import opened GetcapMatch

  type Database = seq<seq<string>>

  /** The first record of a file that has the name; blank lines and comments are no records. */
  function FindIn(records: seq<string>, name: string, k: nat): Option<string>
    requires k <= |records|
    decreases |records| - k
  {
    if k == |records| then None
    else if IsRecord(records[k]) && MatchFrom(records[k], name, 0) then Some(records[k])
    else FindIn(records, name, k + 1)
  }

  predicate IsRecord(r: string) {
    r != "" && r[0] != '#'
  }

  datatype Place = Place(file: nat, record: string)

  /** The record that is found for a name when the search starts in some file. */
  function Find(db: Database, file: nat, name: string): (p: Option<Place>)
    decreases |db| - file
  {
    if file >= |db| then None
    else
      match FindIn(db[file], name, 0)
      case Some(r) => Some(Place(file, r))
      case None => Find(db, file + 1, name)
  }

  /** A record that is not empty and no comment, and has the name. */
  predicate HasName(r: string, name: string) {
    r != "" && r[0] != '#' && name in NamesFrom(r, 0)
  }

  /** Record k of file i is the first that has the name, from some file on. */
  predicate FirstAt(db: Database, file: nat, name: string, i: nat, k: nat) {
    && file <= i < |db| && k < |db[i]| && HasName(db[i][k], name)
    && (forall j :: 0 <= j < k ==> !HasName(db[i][j], name))
    && (forall h, j :: file <= h < i && 0 <= j < |db[h]| ==> !HasName(db[h][j], name))
  }

  lemma {:induction false} FindInIs(records: seq<string>, name: string, k0: nat) returns (k: nat)
    requires k0 <= |records| && PlainName(name)
    ensures k0 <= k <= |records| && forall j :: k0 <= j < k ==> !HasName(records[j], name)
    ensures FindIn(records, name, k0) == if k < |records| then Some(records[k]) else None
    ensures k < |records| ==> HasName(records[k], name)
    decreases |records| - k0
  {
    k := k0;
    if k0 < |records| {
      MatchesNames(records[k0], name, 0);
      hide MatchFrom, NamesFrom;
      if !HasName(records[k0], name) {
        k := FindInIs(records, name, k0 + 1);
      }
    }
  }

  /** For a plain name the search gives the first record that has the name, and none exactly when no record has. */
  lemma {:induction false} FindsFirst(db: Database, file: nat, name: string)
    requires PlainName(name)
    ensures forall p: Place :: Find(db, file, name) == Some(p) <==>
              exists k: nat :: FirstAt(db, file, name, p.file, k) && db[p.file][k] == p.record
    ensures Find(db, file, name) == None <==>
              forall i, k :: file <= i < |db| && 0 <= k < |db[i]| ==> !HasName(db[i][k], name)
    decreases |db| - file
  {
    hide HasName, FindIn;
    if file < |db| {
      var k := FindInIs(db[file], name, 0);
      if k < |db[file]| {
        assert FirstAt(db, file, name, file, k);
        forall i: nat, j: nat | FirstAt(db, file, name, i, j)
          ensures i == file && j == k
        {
          FirstOnly(db, file, name, file, k, i, j);
        }
      } else {
        FindsFirst(db, file + 1, name);
        forall i: nat, j: nat
          ensures FirstAt(db, file, name, i, j) <==> FirstAt(db, file + 1, name, i, j)
        {
        }
      }
    }
  }

  lemma {:induction false} FirstOnly(db: Database, file: nat, name: string, i: nat, k: nat, h: nat, j: nat)
    requires FirstAt(db, file, name, i, k) && FirstAt(db, file, name, h, j)
    ensures i == h && k == j
  {
  }

  /** A field "tc=name" refers to the record with the name; "tc@" ends the references. */
  function Reference(f: string): Verdict {
    MatchField(f, "tc", '=')
  }

  lemma {:induction false} ReferenceIs(f: string)
    ensures Reference(f) == Cancel <==> "tc@" <= f || "tc=@" <= f
    ensures forall v: string :: Reference(f) == Found(v) <==> f == "tc=" + v && !("@" <= v)
  {
    FieldSays(f, "tc", '=');
    assert "tc" + ['='] == "tc=" && "tc" + "@" == "tc@" && "tc" + ['='] + "@" == "tc=@";
    assert "tc@" <= f ==> f == "tc@" + f[3..];
    assert "tc=@" <= f ==> f == "tc=@" + f[4..];
  }

  /** An expanded record, and whether references in it could not be resolved. */
  datatype Expanded = Expanded(unresolved: bool, fields: seq<string>)

  /** What getent finds for a reference. */
  datatype Fetched = TooDeep | Missing | Got(unresolved: bool, body: seq<string>)

  function Prepend(fs: seq<string>, unresolved: bool, e: Option<Expanded>): Option<Expanded> {
    match e
    case None => None
    case Some(e) => Some(Expanded(unresolved || e.unresolved, fs + e.fields))
  }

  /** The fields of a record that are put in the place of a reference: all, each ended by a ':'. */
  function Body(fs: seq<string>): seq<string> {
    if fs == [] then [""] else if fs[|fs| - 1] == "" then fs[..|fs| - 1] else fs
  }

  /** What is left of an unresolved reference at the very end of a record.  `getent` puts a ':' where it
      believes to have overwritten one, but there was none: the last character is lost. */
  function Restored(f: string, faithful: bool): seq<string> {
    if faithful || f == "" then [f] else [f[..|f| - 1], ""]
  }

  /** The expansion of the fields fs of a record in a file, at a depth; None for a return value of -3.
      If `faithful`, unresolved references at the end are kept as they are. */
  function Expand(db: Database, file: nat, fs: seq<string>, depth: nat, faithful: bool): Option<Expanded>
    requires depth <= 32
    decreases 33 - depth, 0, |fs|
  {
    if fs == [] then Some(Expanded(false, []))
    else
      match Reference(fs[0])
      case NoMatch => Prepend([fs[0]], false, Expand(db, file, fs[1..], depth, faithful))
      case Cancel => Some(Expanded(false, fs))
      case Found(name) =>
        match Fetch(db, file, name, depth + 1, faithful)
        case TooDeep => None
        case Missing =>
          if |fs| == 1 then Some(Expanded(true, Restored(fs[0], faithful)))
          else Prepend([fs[0]], true, Expand(db, file, fs[1..], depth, faithful))
        case Got(u, body) =>
          if |fs| == 1 then Some(Expanded(u, body + [""]))
          else Prepend(body, u, Expand(db, file, fs[1..], depth, faithful))
  }

  function Fetch(db: Database, file: nat, name: string, depth: nat, faithful: bool): Fetched
    requires depth <= 33
    decreases 33 - depth, 1, 0
  {
    if depth > 32 then TooDeep
    else
      match Find(db, file, name)
      case None => Missing
      case Some(p) =>
        match Expand(db, p.file, FieldsFrom(p.record, 0), depth, faithful)
        case None => TooDeep
        case Some(e) => Got(e.unresolved, Body(e.fields))
  }

  /** What a record means: its fields are searched from left to right, and at a reference that can be
      resolved the fields of the record that it names. */
  function Lookup(db: Database, file: nat, fs: seq<string>, cap: string, typ: char, depth: nat): Verdict
    requires depth <= 33
    decreases 33 - depth, |fs|
  {
    if fs == [] || depth > 32 then NoMatch
    else
      match Reference(fs[0])
      case Cancel => Search(fs, cap, typ)
      case NoMatch => LookupField(db, file, fs, cap, typ, depth)
      case Found(name) =>
        match Find(db, file, name)
        case None => LookupField(db, file, fs, cap, typ, depth)
        case Some(p) =>
          var v := Lookup(db, p.file, FieldsFrom(p.record, 0), cap, typ, depth + 1);
          if v != NoMatch then v else Lookup(db, file, fs[1..], cap, typ, depth)
  }

  function LookupField(db: Database, file: nat, fs: seq<string>, cap: string, typ: char, depth: nat): Verdict
    requires depth <= 33 && fs != []
    decreases 33 - depth, |fs|, 0
  {
    var v := MatchField(fs[0], cap, typ);
    if v != NoMatch then v else Lookup(db, file, fs[1..], cap, typ, depth)
  }

  /** The empty name with the type ':' asks for an empty field, which is no capability. */
  predicate IsCapability(cap: string, typ: char) {
    cap != "" || typ != ':'
  }

  /** Taking away the empty field at the end changes no search for a capability. */
  lemma {:induction false} SearchBody(fs: seq<string>, cap: string, typ: char)
    requires IsCapability(cap, typ)
    ensures Search(Body(fs), cap, typ) == Search(fs, cap, typ)
    ensures Search([""], cap, typ) == NoMatch
  {
    assert [""][1..] == [];
    if fs != [] && fs[|fs| - 1] == "" {
      assert fs == fs[..|fs| - 1] + [""];
      SearchBoth(fs[..|fs| - 1], [""], cap, typ);
    }
  }

  lemma {:induction false} SearchOne(f: string, cap: string, typ: char)
    ensures Search([f], cap, typ) == MatchField(f, cap, typ)
  {
    assert [f][1..] == [];
  }

  lemma {:induction false} ExpandStep(db: Database, file: nat, fs: seq<string>, depth: nat, faithful: bool)
    requires depth <= 32 && fs != []
    ensures Expand(db, file, fs, depth, faithful) ==
      match Reference(fs[0])
      case NoMatch => Prepend([fs[0]], false, Expand(db, file, fs[1..], depth, faithful))
      case Cancel => Some(Expanded(false, fs))
      case Found(name) =>
        (match Fetch(db, file, name, depth + 1, faithful)
         case TooDeep => None
         case Missing =>
           if |fs| == 1 then Some(Expanded(true, Restored(fs[0], faithful)))
           else Prepend([fs[0]], true, Expand(db, file, fs[1..], depth, faithful))
         case Got(u, body) =>
           if |fs| == 1 then Some(Expanded(u, body + [""]))
           else Prepend(body, u, Expand(db, file, fs[1..], depth, faithful)))
  {
  }

  lemma {:induction false} LookupStep(db: Database, file: nat, fs: seq<string>, cap: string, typ: char, depth: nat)
    requires depth <= 32 && fs != []
    ensures Lookup(db, file, fs, cap, typ, depth) ==
      var v := MatchField(fs[0], cap, typ);
      var rest := Lookup(db, file, fs[1..], cap, typ, depth);
      match Reference(fs[0])
      case Cancel => Search(fs, cap, typ)
      case NoMatch => (if v != NoMatch then v else rest)
      case Found(name) =>
        (match Find(db, file, name)
         case None => (if v != NoMatch then v else rest)
         case Some(p) =>
           var w := Lookup(db, p.file, FieldsFrom(p.record, 0), cap, typ, depth + 1);
           if w != NoMatch then w else rest)
  {
  }

  /** The expansion keeps the meaning: a capability of any name and type has the same value, or is
      cancelled, or is missing, in the expanded fields and in the record they come from. */
  lemma {:induction false} Meaning(db: Database, file: nat, fs: seq<string>, cap: string, typ: char, depth: nat)
    requires depth <= 32 && IsCapability(cap, typ) && Expand(db, file, fs, depth, true).Some?
    ensures Search(Expand(db, file, fs, depth, true).value.fields, cap, typ) == Lookup(db, file, fs, cap, typ, depth)
    decreases 33 - depth, 0, |fs|
  {
    hide Expand, Fetch, Lookup, Search, Reference, MatchField, Body, IsCapability;
    NothingThere(db, file, cap, typ, depth);
    if fs != [] {
      ExpandStep(db, file, fs, depth, true);
      LookupStep(db, file, fs, cap, typ, depth);
      SearchOne(fs[0], cap, typ);
      if Reference(fs[0]) != Cancel {
        var h := [fs[0]];
        if Reference(fs[0]).Found? {
          FetchMeaning(db, file, Reference(fs[0]).value, cap, typ, depth + 1);
          var f := Fetch(db, file, Reference(fs[0]).value, depth + 1, true);
          h := if f.Got? then f.body else h;
          if |fs| == 1 {
            assert fs[1..] == [];
            SearchBody([], cap, typ);
            SearchBoth(h, [""], cap, typ);
            return;
          }
        }
        Meaning(db, file, fs[1..], cap, typ, depth);
        SearchBoth(h, Expand(db, file, fs[1..], depth, true).value.fields, cap, typ);
      }
    }
  }

  lemma {:induction false} FetchMeaning(db: Database, file: nat, name: string, cap: string, typ: char, depth: nat)
    requires depth <= 33 && IsCapability(cap, typ) && Fetch(db, file, name, depth, true) != TooDeep
    ensures match Fetch(db, file, name, depth, true)
      case Missing => Find(db, file, name) == None
      case Got(_, body) =>
        var p := Find(db, file, name);
        p.Some? && Search(body, cap, typ) == Lookup(db, p.value.file, FieldsFrom(p.value.record, 0), cap, typ, depth)
    decreases 33 - depth, 1, 0
  {
    hide Find, Lookup, Search, Body;
    var p := Find(db, file, name);
    if p.Some? {
      var fs := FieldsFrom(p.value.record, 0);
      Meaning(db, p.value.file, fs, cap, typ, depth);
      SearchBody(Expand(db, p.value.file, fs, depth, true).value.fields, cap, typ);
    }
  }

  lemma {:induction false} NothingThere(db: Database, file: nat, cap: string, typ: char, depth: nat)
    requires depth <= 32
    ensures Expand(db, file, [], depth, true) == Some(Expanded(false, []))
    ensures Lookup(db, file, [], cap, typ, depth) == NoMatch == Search([], cap, typ)
  {
  }

  /** No reference that is left unresolved stands at the very end of a record. */
  predicate Tidy(db: Database, file: nat, fs: seq<string>, depth: nat)
    requires depth <= 32
    decreases 33 - depth, 0, |fs|
  {
    fs != [] ==>
      match Reference(fs[0])
      case Cancel => true
      case NoMatch => Tidy(db, file, fs[1..], depth)
      case Found(name) =>
        && TidyFetch(db, file, name, depth + 1)
        && (Fetch(db, file, name, depth + 1, true) == Missing ==> |fs| > 1)
        && Tidy(db, file, fs[1..], depth)
  }

  predicate TidyFetch(db: Database, file: nat, name: string, depth: nat)
    requires depth <= 33
    decreases 33 - depth, 1, 0
  {
    depth <= 32 && Find(db, file, name).Some? ==>
      var p := Find(db, file, name).value;
      Tidy(db, p.file, FieldsFrom(p.record, 0), depth)
  }

  lemma {:induction false} TidyStep(db: Database, file: nat, fs: seq<string>, depth: nat)
    requires depth <= 32
    ensures Tidy(db, file, fs, depth) == (fs != [] ==>
      match Reference(fs[0])
      case Cancel => true
      case NoMatch => Tidy(db, file, fs[1..], depth)
      case Found(name) =>
        && TidyFetch(db, file, name, depth + 1)
        && (Fetch(db, file, name, depth + 1, true) == Missing ==> |fs| > 1)
        && Tidy(db, file, fs[1..], depth))
  {
  }

  /** Faithful or not, an expansion fails for the same records. */
  lemma {:induction false} SameFailures(db: Database, file: nat, fs: seq<string>, depth: nat)
    requires depth <= 32
    ensures Expand(db, file, fs, depth, true).Some? == Expand(db, file, fs, depth, false).Some?
    decreases 33 - depth, 0, |fs|
  {
    hide Expand, Fetch, Reference;
    if fs == [] {
      NothingExpanded(db, file, depth);
    } else {
      ExpandStep(db, file, fs, depth, true);
      ExpandStep(db, file, fs, depth, false);
      SameFailures(db, file, fs[1..], depth);
      if Reference(fs[0]).Found? {
        SameFetched(db, file, Reference(fs[0]).value, depth + 1);
      }
    }
  }

  lemma {:induction false} NothingExpanded(db: Database, file: nat, depth: nat)
    requires depth <= 32
    ensures Expand(db, file, [], depth, true) == Expand(db, file, [], depth, false) == Some(Expanded(false, []))
  {
  }

  lemma {:induction false} SameFetched(db: Database, file: nat, name: string, depth: nat)
    requires depth <= 33
    ensures var a, b := Fetch(db, file, name, depth, true), Fetch(db, file, name, depth, false);
      a.TooDeep? == b.TooDeep? && a.Missing? == b.Missing?
    decreases 33 - depth, 1, 0
  {
    hide Find, Expand;
    if depth <= 32 && Find(db, file, name).Some? {
      var p := Find(db, file, name).value;
      SameFailures(db, p.file, FieldsFrom(p.record, 0), depth);
    }
  }

  lemma {:induction false} BodyBehind(h: seq<string>, r: seq<string>)
    requires r != []
    ensures Body(h + r) == h + Body(r)
  {
    var s := h + r;
    assert s[|s| - 1] == r[|r| - 1];
    assert s[..|s| - 1] == h + r[..|r| - 1];
  }

  lemma {:induction false} SomethingThere(db: Database, file: nat, fs: seq<string>, depth: nat, faithful: bool)
    requires depth <= 32 && fs != [] && Expand(db, file, fs, depth, faithful).Some?
    ensures Expand(db, file, fs, depth, faithful).value.fields != []
    decreases |fs|
  {
    hide Fetch, Reference;
    if |fs| > 1 {
      if Expand(db, file, fs[1..], depth, faithful).Some? {
        SomethingThere(db, file, fs[1..], depth, faithful);
      }
    }
  }

  /** Two expansions of the same record, and whether they are the same. */
  predicate Alike(a: Expanded, b: Expanded, same: bool) {
    && a.unresolved == b.unresolved && |Body(a.fields)| == |Body(b.fields)|
    && (a == b <==> same) && (Body(a.fields) == Body(b.fields) <==> same)
  }

  lemma {:induction false} AlikeBehind(h: seq<string>, h': seq<string>, u: bool, a: Expanded, b: Expanded, same: bool)
    requires |h| == |h'| && Alike(a, b, same) && a.fields != [] && b.fields != []
    ensures Alike(Expanded(u || a.unresolved, h + a.fields), Expanded(u || b.unresolved, h' + b.fields), h == h' && same)
  {
    BodyBehind(h, a.fields);
    BodyBehind(h', b.fields);
    Apart(h, h', a.fields, b.fields);
    Apart(h, h', Body(a.fields), Body(b.fields));
  }

  lemma {:induction false} Apart(h: seq<string>, h': seq<string>, r: seq<string>, r': seq<string>)
    requires |h| == |h'|
    ensures h + r == h' + r' <==> h == h' && r == r'
  {
    if h + r == h' + r' {
      assert h == (h + r)[..|h|] == (h' + r')[..|h'|] == h';
      assert r == (h + r)[|h|..] == (h' + r')[|h'|..] == r';
    }
  }

  lemma {:induction false} Losing(f: string)
    requires f != ""
    ensures Alike(Expanded(true, [f]), Expanded(true, [f[..|f| - 1], ""]), false)
  {
    var a, b := [f], [f[..|f| - 1], ""];
    assert b[..1] == [f[..|f| - 1]];
    assert Body(a) == a && Body(b) == [f[..|f| - 1]];
  }

  /** The expansion that getent makes is the faithful one if and only if the record is tidy. */
  lemma {:induction false} Exact(db: Database, file: nat, fs: seq<string>, depth: nat)
    requires depth <= 32 && Expand(db, file, fs, depth, true).Some?
    ensures Expand(db, file, fs, depth, false).Some?
    ensures Alike(Expand(db, file, fs, depth, true).value, Expand(db, file, fs, depth, false).value, Tidy(db, file, fs, depth))
    decreases 33 - depth, 0, |fs|
  {
    hide Expand, Fetch, Body, Tidy, TidyFetch, Alike, MatchField;
    SameFailures(db, file, fs, depth);
    NothingExpanded(db, file, depth);
    TidyStep(db, file, fs, depth);
    if fs == [] {
      AlikeSelf(Expanded(false, []));
    } else {
      ExpandStep(db, file, fs, depth, true);
      ExpandStep(db, file, fs, depth, false);
      var f, rest := fs[0], fs[1..];
      if Reference(f) == Cancel {
        AlikeSelf(Expanded(false, fs));
        return;
      }
      if |fs| == 1 {
        assert rest == [];
        TidyStep(db, file, rest, depth);
        AlikeSelf(Expanded(false, [f] + []));
        AlikeSelf(Expanded(false, [""]));
      } else {
        Exact(db, file, rest, depth);
        SomethingThere(db, file, rest, depth, true);
        SomethingThere(db, file, rest, depth, false);
      }
      var a, b, same := Expanded(false, [""]), Expanded(false, [""]), true;
      if |fs| > 1 {
        a, b, same := Expand(db, file, rest, depth, true).value, Expand(db, file, rest, depth, false).value, Tidy(db, file, rest, depth);
      }
      if Reference(f).Found? {
        var name := Reference(f).value;
        ExactFetch(db, file, name, depth + 1);
        var g, g' := Fetch(db, file, name, depth + 1, true), Fetch(db, file, name, depth + 1, false);
        if g.Got? {
          AlikeBehind(g.body, g'.body, g.unresolved, a, b, same);
        } else if |fs| > 1 {
          AlikeBehind([f], [f], true, a, b, same);
        } else {
          IsReference(f);
          Losing(f);
        }
      } else if |fs| > 1 {
        AlikeBehind([f], [f], false, a, b, same);
      }
    }
  }

  lemma {:induction false} IsReference(f: string)
    requires Reference(f).Found?
    ensures f != ""
  {
  }

  lemma {:induction false} ExactFetch(db: Database, file: nat, name: string, depth: nat)
    requires depth <= 33 && Fetch(db, file, name, depth, true) != TooDeep
    ensures var a, b := Fetch(db, file, name, depth, true), Fetch(db, file, name, depth, false);
      && (a.Missing? ==> b.Missing? && TidyFetch(db, file, name, depth))
      && (a.Got? ==> b.Got? && a.unresolved == b.unresolved && |a.body| == |b.body| && (a.body == b.body <==> TidyFetch(db, file, name, depth)))
    decreases 33 - depth, 1, 0
  {
    hide Find, Expand, Tidy, Body;
    if depth <= 32 && Find(db, file, name).Some? {
      var p := Find(db, file, name).value;
      Exact(db, p.file, FieldsFrom(p.record, 0), depth);
    }
  }

  lemma {:induction false} AlikeSelf(e: Expanded)
    ensures Alike(e, e, true)
  {
  }

  /** The names that a record refers to. */
  function References(fs: seq<string>): seq<string> {
    if fs == [] then []
    else
      match Reference(fs[0])
      case NoMatch => References(fs[1..])
      case Cancel => []
      case Found(name) => [name] + References(fs[1..])
  }

  /** There is a chain of k references that begins in a record. */
  ghost predicate Chain(db: Database, file: nat, fs: seq<string>, k: nat)
    requires k > 0
    decreases k, 0
  {
    exists i :: 0 <= i < |References(fs)| && Goes(db, file, References(fs)[i], k)
  }

  /** A reference to the name begins a chain of k references. */
  ghost predicate Goes(db: Database, file: nat, name: string, k: nat)
    requires k > 0
    decreases k, -1
  {
    k == 1 || (var p := Find(db, file, name); p.Some? && Chain(db, p.value.file, FieldsFrom(p.value.record, 0), k - 1))
  }

  lemma {:induction false} ChainStep(db: Database, file: nat, fs: seq<string>, k: nat)
    requires k > 0
    ensures Chain(db, file, fs, k) <==> fs != [] && match Reference(fs[0])
      case NoMatch => Chain(db, file, fs[1..], k)
      case Cancel => false
      case Found(name) => Goes(db, file, name, k) || Chain(db, file, fs[1..], k)
  {
    hide Goes, Reference;
    if fs == [] || Reference(fs[0]) == Cancel {
      assert References(fs) == [];
    } else if Reference(fs[0]) == NoMatch {
      assert References(fs) == References(fs[1..]);
      ChainSame(db, file, fs, fs[1..], k);
    } else {
      var names, rest := References(fs), References(fs[1..]);
      assert names == [Reference(fs[0]).value] + rest;
      if Chain(db, file, fs[1..], k) {
        var i :| 0 <= i < |rest| && Goes(db, file, rest[i], k);
        assert Goes(db, file, names[i + 1], k);
      }
      if Chain(db, file, fs, k) {
        var i :| 0 <= i < |names| && Goes(db, file, names[i], k);
        assert i > 0 ==> names[i] == rest[i - 1];
      }
      if Goes(db, file, names[0], k) {
        assert Chain(db, file, fs, k);
      }
    }
  }

  lemma {:induction false} ChainSame(db: Database, file: nat, fs: seq<string>, fs': seq<string>, k: nat)
    requires k > 0 && References(fs) == References(fs')
    ensures Chain(db, file, fs, k) <==> Chain(db, file, fs', k)
  {
    hide Goes, References;
  }

  /** Expansion always ends, and it fails exactly when references go more than 32 deep, as they do
      whenever a record refers to itself. */
  lemma {:induction false} FailsWhenDeep(db: Database, file: nat, fs: seq<string>, depth: nat, faithful: bool)
    requires depth <= 32
    ensures Expand(db, file, fs, depth, faithful) == None <==> Chain(db, file, fs, 33 - depth)
    decreases 33 - depth, 0, |fs|
  {
    hide Expand, Fetch, Chain, Goes, Reference;
    ChainStep(db, file, fs, 33 - depth);
    NothingExpanded(db, file, depth);
    if fs != [] {
      ExpandStep(db, file, fs, depth, faithful);
      FailsWhenDeep(db, file, fs[1..], depth, faithful);
      if Reference(fs[0]).Found? {
        FetchFails(db, file, Reference(fs[0]).value, depth + 1, faithful);
        if |fs| == 1 {
          ChainStep(db, file, fs[1..], 33 - depth);
        }
      }
    }
  }

  lemma {:induction false} FetchFails(db: Database, file: nat, name: string, depth: nat, faithful: bool)
    requires 0 < depth <= 33
    ensures Fetch(db, file, name, depth, faithful) == TooDeep <==> Goes(db, file, name, 34 - depth)
    decreases 33 - depth, 1, 0
  {
    hide Find, Expand, Chain;
    if depth <= 32 && Find(db, file, name).Some? {
      var p := Find(db, file, name).value;
      FailsWhenDeep(db, p.file, FieldsFrom(p.record, 0), depth, faithful);
    }
  }

  lemma {:induction false} FindAgain(db: Database, file: nat, name: string)
    requires Find(db, file, name).Some?
    ensures Find(db, Find(db, file, name).value.file, name) == Find(db, file, name)
    decreases |db| - file
  {
    hide FindIn;
    if FindIn(db[file], name, 0) == None {
      FindAgain(db, file + 1, name);
    }
  }

  lemma {:induction false} SelfReference(db: Database, file: nat, name: string, k: nat)
    requires k > 0 && Find(db, file, name).Some? && name in References(FieldsFrom(Find(db, file, name).value.record, 0))
    ensures Goes(db, file, name, k)
    decreases k
  {
    hide Find, References;
    if k > 1 {
      var p := Find(db, file, name).value;
      var names := References(FieldsFrom(p.record, 0));
      FindAgain(db, file, name);
      SelfReference(db, p.file, name, k - 1);
      var i :| 0 <= i < |names| && names[i] == name;
      assert Chain(db, p.file, FieldsFrom(p.record, 0), k - 1);
    }
  }

  lemma {:induction false} ReferenceFront(f: string)
    ensures Reference(f).Found? ==> |f| >= 3 && f[0] == 't' && f[1] == 'c' && f[2] == '='
    ensures |f| >= 3 && f[0] == 't' && f[1] == 'c' && f[2] == '=' ==> Reference(f) != NoMatch
  {
    if |f| >= 3 && f[0] == 't' && f[1] == 'c' && f[2] == '=' {
      assert "tc" == f[..2] && f[2..][0] == '=';
    }
    if Reference(f).Found? {
      assert "tc" <= f && f[2..][0] == f[2];
    }
  }

  /** A field that is no reference does not begin like one. */
  lemma {:induction false} NoReferenceInside(g: string, f: string)
    requires Reference(f).Found? && Reference(g) == NoMatch
    ensures MatchField(g, f, ':') == NoMatch
  {
    ReferenceFront(f);
    ReferenceFront(g);
    hide Reference;
  }

  /** A field is a capability of its own name. */
  lemma {:induction false} OwnName(f: string)
    requires f != ""
    ensures MatchField(f, f, ':') == Found("")
    ensures MatchField(f[..|f| - 1], f, ':') == NoMatch && MatchField("", f, ':') == NoMatch
  {
    assert f[|f|..] == "";
  }

  lemma {:induction false} SearchTwo(x: string, f: string)
    requires f != "" && MatchField(x, f, ':') == NoMatch
    ensures Search([x, ""], f, ':') == NoMatch
  {
    SearchBoth([x], [""], f, ':');
    SearchOne(x, f, ':');
    SearchOne("", f, ':');
    assert [x] + [""] == [x, ""];
  }

  /** In a record whose only reference stands at its end and cannot be resolved, the capability with the name of the
      whole field, which is there, is lost. */
  lemma {:induction false} Untidy(db: Database, file: nat, pre: seq<string>, f: string, depth: nat)
    requires depth < 32 && (forall k :: 0 <= k < |pre| ==> Reference(pre[k]) == NoMatch)
    requires f != "" && Reference(f).Found? && Find(db, file, Reference(f).value) == None
    ensures var lost := pre + [f[..|f| - 1], ""];
            && Expand(db, file, pre + [f], depth, false) == Some(Expanded(true, lost))
            && Search(lost, f, ':') == NoMatch && Lookup(db, file, pre + [f], f, ':', depth) == Found("")
    decreases |pre|
  {
    var fs, lost := pre + [f], pre + [f[..|f| - 1], ""];
    ExpandStep(db, file, fs, depth, false);
    LookupStep(db, file, fs, f, ':', depth);
    OwnName(f);
    if pre == [] {
      assert fs == [f] && lost == [f[..|f| - 1], ""];
      SearchTwo(f[..|f| - 1], f);
      assert Fetch(db, file, Reference(f).value, depth + 1, false) == Missing;
      hide Find, Reference, MatchField, Lookup, Expand, Fetch;
    } else {
      assert fs[1..] == pre[1..] + [f] && lost[1..] == pre[1..] + [f[..|f| - 1], ""];
      assert [pre[0]] + lost[1..] == lost;
      NoReferenceInside(pre[0], f);
      hide Find, Reference, MatchField, Expand, Lookup, Fetch;
      Untidy(db, file, pre[1..], f, depth);
      assert fs[0] == pre[0] == lost[0] && Search(lost, f, ':') == NoMatch;
      assert Expand(db, file, fs, depth, false) == Prepend([pre[0]], false, Expand(db, file, fs[1..], depth, false));
    }
  }
}
