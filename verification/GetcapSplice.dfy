/** The record buffer while "tc=" references in it are replaced one after the other (getent,
    gen/getcap.c, the part behind tc_exp). */
module GetcapSplice {
  import opened Options
  import opened GetcapFields
  import opened GetcapExpand

  predicate NoReferences(fs: seq<string>) {
    forall i :: 0 <= i < |fs| ==> Reference(fs[i]) == NoMatch
  }

  /** Where `cgetcap` finds the next reference: the fields in front of it are none. */
  lemma {:induction false} FirstReference(s: string, i: nat, tc: nat) returns (kept: seq<string>, f: string, rest: seq<string>)
    requires i <= |s| && CapFrom(s, i, "tc", '=') == Some(tc)
    ensures FieldsFrom(s, i) == kept + ([f] + rest) && NoReferences(kept)
    ensures tc == ColonAt(s, i) + |Render(kept)| + 4 && tc <= |s| && tc - 3 + |f| == ColonAt(s, tc)
    ensures Reference(f) == Found(s[tc..ColonAt(s, tc)]) && f == s[tc - 3..ColonAt(s, tc)] && |f| >= 3
    ensures s[tc - 4] == ':'
    decreases |s| - i
  {
    hide *;
    NotHere(s, i, tc);
    var j := ColonAt(s, i);
    FieldsStep(s, i, j);
    var e := ColonAt(s, j + 1);
    var g := s[j + 1..e];
    if Reference(g) == NoMatch {
      var kept';
      kept', f, rest := FirstReference(s, j + 1, tc);
      kept := [g] + kept';
      KeepOne(g, kept', [f] + rest);
    } else {
      kept, f, rest := [], g, FieldsFrom(s, j + 1);
      Here(s, i, tc);
      KeepNone([f] + rest);
    }
  }

  lemma {:induction false} KeepOne(g: string, kept: seq<string>, tail: seq<string>)
    ensures [g] + (kept + tail) == ([g] + kept) + tail && |Render([g] + kept)| == 1 + |g| + |Render(kept)|
    ensures NoReferences([g] + kept) <==> Reference(g) == NoMatch && NoReferences(kept)
  {
    RenderStep([g] + kept);
    assert ([g] + kept)[1..] == kept;
    assert ([g] + kept)[0] == g;
    hide Render;
    if NoReferences([g] + kept) {
      assert forall k :: 0 <= k < |kept| ==> kept[k] == ([g] + kept)[k + 1];
    }
  }

  lemma {:induction false} KeepNone(tail: seq<string>)
    ensures [] + tail == tail && Render([]) == "" && NoReferences([])
  {
  }

  lemma {:induction false} NotHere(s: string, i: nat, tc: nat)
    requires i <= |s| && CapFrom(s, i, "tc", '=') == Some(tc)
    ensures var j := ColonAt(s, i);
      j < |s| && (Reference(s[j + 1..ColonAt(s, j + 1)]) == NoMatch ==> CapFrom(s, j + 1, "tc", '=') == Some(tc))
  {
    hide ColonAt, MatchField;
  }

  lemma {:induction false} Here(s: string, i: nat, tc: nat)
    requires i <= |s| && CapFrom(s, i, "tc", '=') == Some(tc)
    requires var j := ColonAt(s, i); j < |s| && Reference(s[j + 1..ColonAt(s, j + 1)]) != NoMatch
    ensures var j := ColonAt(s, i);
      var e := ColonAt(s, j + 1);
      && tc == j + 4 <= e && ColonAt(s, tc) == e && Reference(s[j + 1..e]) == Found(s[tc..e]) && s[j] == ':'
  {
    hide ColonAt, MatchField;
    var j := ColonAt(s, i);
    var e := ColonAt(s, j + 1);
    var g := s[j + 1..e];
    FoundInside(g, "tc", '=');
    ReferenceIs(g);
    ValueEnds(s, j + 1, e, MatchField(g, "tc", '=').value);
  }

  lemma {:induction false} ReferenceIs(f: string)
    requires Reference(f).Found?
    ensures f == "tc=" + Reference(f).value
  {
    assert f == f[..2] + f[2..] && f[2..] == [f[2]] + f[3..];
    assert f[2..][1..] == f[3..];
  }

  /** With no reference left, nothing is expanded. */
  lemma {:induction false} NothingToExpand(db: Database, file: nat, fs: seq<string>, depth: nat)
    requires depth <= 32 && !Search(fs, "tc", '=').Found?
    ensures Expand(db, file, fs, depth, false) == Some(Expanded(false, fs))
    decreases |fs|
  {
    hide Expand, MatchField, Fetch;
    NothingExpanded(db, file, depth);
    if fs != [] {
      ExpandStep(db, file, fs, depth, false);
      if Reference(fs[0]) == NoMatch {
        NothingToExpand(db, file, fs[1..], depth);
        assert fs == [fs[0]] + fs[1..];
      }
    }
  }

  /** Fields without references are kept. */
  lemma {:induction false} ExpandKept(db: Database, file: nat, kept: seq<string>, tail: seq<string>, depth: nat)
    requires depth <= 32 && NoReferences(kept)
    ensures Expand(db, file, kept + tail, depth, false) == Prepend(kept, false, Expand(db, file, tail, depth, false))
    decreases |kept|
  {
    hide Expand, Reference, Fetch;
    var e := Expand(db, file, tail, depth, false);
    if kept == [] {
      assert kept + tail == tail;
      PrependNothing(e);
    } else {
      ExpandStep(db, file, kept + tail, depth, false);
      assert (kept + tail)[1..] == kept[1..] + tail && (kept + tail)[0] == kept[0];
      ExpandKept(db, file, kept[1..], tail, depth);
      PrependMore(kept[0], kept[1..], e);
      assert [kept[0]] + kept[1..] == kept;
    }
  }

  lemma {:induction false} PrependNothing(e: Option<Expanded>)
    ensures Prepend([], false, e) == e
  {
    if e.Some? {
      assert [] + e.value.fields == e.value.fields;
    }
  }

  lemma {:induction false} PrependMore(f: string, fs: seq<string>, e: Option<Expanded>)
    ensures Prepend([f], false, Prepend(fs, false, e)) == Prepend([f] + fs, false, e)
  {
    if e.Some? {
      assert [f] + (fs + e.value.fields) == ([f] + fs) + e.value.fields;
    }
  }

  /** What comes of a record if the part p is done and the rest is expanded. */
  function Finish(p: string, unresolved: bool, e: Option<Expanded>): Option<(bool, string)> {
    match e
    case None => None
    case Some(e) => Some((unresolved || e.unresolved, p + Render(e.fields)))
  }

  /** Fields that are done can be moved to the part that is done. */
  lemma {:induction false} FinishMore(p: string, fs: seq<string>, u: bool, v: bool, e: Option<Expanded>)
    ensures Finish(p, u, Prepend(fs, v, e)) == Finish(p + Render(fs), u || v, e)
  {
    if e.Some? {
      RenderBoth(fs, e.value.fields);
      hide Render;
      assert p + (Render(fs) + Render(e.value.fields)) == (p + Render(fs)) + Render(e.value.fields);
    }
  }

  /** The text that is put in the place of a reference: the record without its names, ended by a ':'. */
  function Insertion(icap: string): string {
    var j := ColonAt(icap, 0);
    var r := if j < |icap| then icap[j + 1..] else "";
    if icap == "" || icap[|icap| - 1] != ':' then r + ":" else r
  }

  lemma {:induction false} RenderLast(fs: seq<string>)
    requires fs != []
    ensures Render(fs) == Render(fs[..|fs| - 1]) + ":" + fs[|fs| - 1] && Render(fs) != "" && Render(fs)[0] == ':'
  {
    assert fs == fs[..|fs| - 1] + [fs[|fs| - 1]];
    RenderBoth(fs[..|fs| - 1], [fs[|fs| - 1]]);
    assert Render([fs[|fs| - 1]]) == ":" + fs[|fs| - 1] + "";
  }

  /** It is the rendered body of the record. */
  lemma {:induction false} InsertionIs(x: string, fs: seq<string>)
    requires NoColon(x) && NoColons(fs) && x + Render(fs) != ""
    ensures ":" + Insertion(x + Render(fs)) == Render(Body(fs)) + ":"
  {
    hide ColonAt, FieldsFrom, Render, NoColon, NoColons;
    var icap := x + Render(fs);
    assert icap[0..] == icap;
    FieldsOfRender(icap, 0, x, fs);
    RenderStep(fs);
    if fs == [] {
      NoName(x);
      assert icap == x;
      RenderStep([""]);
      RenderStep([""][1..]);
      assert ":" + "" + "" == ":";
    } else {
      RenderLast(fs);
      LastColon(icap, x, Render(fs[..|fs| - 1]), fs);
    }
  }

  lemma {:induction false} NoName(x: string)
    requires NoColon(x) && x != ""
    ensures x[|x| - 1] != ':'
  {
  }

  lemma {:induction false} LastColon(icap: string, x: string, init: string, fs: seq<string>)
    requires fs != [] && NoColons(fs) && ColonAt(icap, 0) == |x| && init == Render(fs[..|fs| - 1])
    requires Render(fs) == init + ":" + fs[|fs| - 1] && Render(fs) != "" && Render(fs)[0] == ':'
    requires icap == x + Render(fs)
    ensures ":" + Insertion(icap) == Render(Body(fs)) + ":"
  {
    hide Render, ColonAt;
    var r, last := Render(fs), fs[|fs| - 1];
    assert icap[|x| + 1..] == r[1..];
    assert ":" + r[1..] == r;
    assert icap[|icap| - 1] == r[|r| - 1];
    if last == "" {
      assert r == init + ":";
    } else {
      assert r[|r| - 1] == last[|last| - 1] && NoColon(last);
      assert ":" + (r[1..] + ":") == r + ":";
    }
  }

  /** What comes of a record that is scanned from some position on. */
  function Outcome(db: Database, file: nat, s: string, scan: nat, unresolved: bool, depth: nat): Option<(bool, string)>
    requires scan <= |s| && depth <= 32
  {
    Finish(s[..ColonAt(s, scan)], unresolved, Expand(db, file, FieldsFrom(s, scan), depth, false))
  }

  /** Where a field ends and how much of the record it takes up, with the ':' behind it. */
  function Past(s: string, e: nat): nat {
    if e < |s| then e + 1 else e
  }

  /** The record around the next reference. */
  lemma {:induction false} Around(s: string, i: nat, kept: seq<string>, f: string, rest: seq<string>, tc: nat)
    requires i <= |s| && FieldsFrom(s, i) == kept + ([f] + rest) && tc == ColonAt(s, i) + |Render(kept)| + 4
    ensures tc - 3 + |f| <= |s|
    ensures s[..tc - 4] == s[..ColonAt(s, i)] + Render(kept) && s[..tc - 3] == s[..tc - 4] + ":"
    ensures s[tc - 3 + |f|..] == Render(rest) && s[..tc - 3 + |f|] == s[..tc - 3] + f
    ensures NoColons(rest) && NoColon(f)
  {
    hide Render, FieldsFrom, ColonAt, NoColon, NoColons;
    RenderOfFields(s, i);
    RenderBoth(kept, [f] + rest);
    RenderStep([f] + rest);
    assert ([f] + rest)[1..] == rest;
    NoColonsParts(kept, f, rest);
    var j := ColonAt(s, i);
    Behind(s, i, s[i..j], Render(kept) + (":" + f + Render(rest)));
    Layers(s, j, Render(kept), f, Render(rest));
  }

  lemma {:induction false} NoColonsParts(kept: seq<string>, f: string, rest: seq<string>)
    requires NoColons(kept + ([f] + rest))
    ensures NoColons(rest) && NoColon(f)
  {
    var fs := kept + ([f] + rest);
    assert fs[|kept|] == f;
    assert forall k :: 0 <= k < |rest| ==> rest[k] == fs[|kept| + 1 + k];
  }

  lemma {:induction false} Layers(s: string, j: nat, k: string, f: string, r: string)
    requires j <= |s| && s[j..] == k + (":" + f + r)
    ensures var a := j + |k|;
      && a + 1 + |f| <= |s| && s[..a] == s[..j] + k && s[..a + 1] == s[..a] + ":"
      && s[a + 1 + |f|..] == r && s[..a + 1 + |f|] == s[..a + 1] + f
  {
    Behind(s, j, k, ":" + f + r);
    Behind(s, j + |k|, ":" + f, r);
    var a := j + |k|;
    assert s[..a] == s[..j] + s[j..a];
    assert s[a] == s[a..a + |":" + f|][0] == ':';
    assert s[a + 1..a + 1 + |f|] == s[a..a + |":" + f|][1..] == f;
  }

  /** The expansion from the next reference on. */
  lemma {:induction false} AtReference(db: Database, file: nat, s: string, scan: nat, u: bool, depth: nat,
                                       kept: seq<string>, f: string, rest: seq<string>, tc: nat)
    requires depth <= 32 && scan <= |s| && FieldsFrom(s, scan) == kept + ([f] + rest) && NoReferences(kept)
    requires tc == ColonAt(s, scan) + |Render(kept)| + 4 && tc <= |s|
    ensures Outcome(db, file, s, scan, u, depth) == Finish(s[..tc - 4], u, Expand(db, file, [f] + rest, depth, false))
  {
    Around(s, scan, kept, f, rest, tc);
    ExpandKept(db, file, kept, [f] + rest, depth);
    hide Expand, Render, FieldsFrom, ColonAt, Reference;
    FinishMore(s[..ColonAt(s, scan)], kept, u, false, Expand(db, file, [f] + rest, depth, false));
  }

  /** A state of the scan in which it is at the ':' behind what is done. */
  lemma {:induction false} AtEdge(db: Database, file: nat, s: string, scan: nat, u: bool, depth: nat, fs: seq<string>)
    requires depth <= 32 && scan <= |s| && s[scan..] == Render(fs) && NoColons(fs)
    ensures Outcome(db, file, s, scan, u, depth) == Finish(s[..scan], u, Expand(db, file, fs, depth, false))
  {
    hide Expand, Render, ColonAt, FieldsFrom;
    assert Render(fs) == "" + Render(fs);
    FieldsOfRender(s, scan, "", fs);
  }

  /** What is scanned next: the fields behind the reference or, when it was the last, nothing. */
  function Onward(rest: seq<string>): (fs: seq<string>)
    ensures NoColons(rest) ==> NoColons(fs)
  {
    if rest == [] then [""] else rest
  }

  lemma {:induction false} OnwardIs(s: string, e: nat, rest: seq<string>)
    requires e <= |s| && s[e..] == Render(rest)
    ensures ":" + s[Past(s, e)..] == Render(Onward(rest)) && |Render(Onward(rest))| <= |s| - e + 1
    ensures e < |s| <==> rest != []
  {
    RenderStep(rest);
    RenderStep([""]);
    RenderStep([""][1..]);
    hide Render;
    if rest != [] {
      assert s[e] == s[e..][0] == ':';
      assert s[e..] == ":" + s[e + 1..];
    } else {
      assert s[Past(s, e)..] == "";
      assert ":" + "" + "" == ":" + "";
    }
  }

  lemma {:induction false} NoMore(db: Database, file: nat, depth: nat)
    requires depth <= 32
    ensures Expand(db, file, [""], depth, false) == Some(Expanded(false, [""]))
  {
    assert [""][1..] == [];
    NothingToExpand(db, file, [""], depth);
  }

  /** Replacing a reference by the record that it names. */
  lemma {:induction false} Replace(db: Database, file: nat, s: string, scan: nat, u: bool, depth: nat, tc: nat, v: bool, body: seq<string>, ins: string)
    requires depth <= 32 && scan <= |s| && CapFrom(s, scan, "tc", '=') == Some(tc) && tc <= |s|
    requires Fetch(db, file, s[tc..ColonAt(s, tc)], depth + 1, false) == Got(v, body) && ":" + ins == Render(body) + ":"
    ensures tc >= 4 && ColonAt(s, tc) <= |s|
    ensures var s', scan' := s[..tc - 3] + ins + s[Past(s, ColonAt(s, tc))..], tc - 4 + |ins|;
      && scan' <= |s'| && |s'| - scan' < |s| - scan
      && Outcome(db, file, s', scan', u || v, depth) == Outcome(db, file, s, scan, u, depth)
  {
    hide Expand, Fetch, Render, ColonAt, FieldsFrom, NoReferences, CapFrom, Reference, Outcome;
    var kept, f, rest := FirstReference(s, scan, tc);
    var e := ColonAt(s, tc);
    Around(s, scan, kept, f, rest, tc);
    AtReference(db, file, s, scan, u, depth, kept, f, rest, tc);
    ExpandStep(db, file, [f] + rest, depth, false);
    assert ([f] + rest)[1..] == rest && ([f] + rest)[0] == f;
    NoMore(db, file, depth);
    var next := Onward(rest);
    var y := Expand(db, file, next, depth, false);
    assert Expand(db, file, [f] + rest, depth, false) == Prepend(body, v, y);
    FinishMore(s[..tc - 4], body, u, v, y);
    OnwardIs(s, e, rest);
    var s', scan' := s[..tc - 3] + ins + s[Past(s, e)..], tc - 4 + |ins|;
    Spliced(s[..tc - 4], ins, Render(body), s[Past(s, e)..]);
    AtEdge(db, file, s', scan', u || v, depth, next);
  }

  lemma {:induction false} Spliced(a: string, ins: string, b: string, r: string)
    requires ":" + ins == b + ":"
    ensures var s' := (a + ":") + ins + r;
      |a| + |ins| <= |s'| && s'[..|a| + |ins|] == a + b && s'[|a| + |ins|..] == ":" + r
  {
    assert |ins| == |b|;
    assert (a + ":") + ins + r == a + (":" + ins) + r;
    assert a + (b + ":") + r == (a + b) + (":" + r);
  }

  /** Leaving a reference that cannot be resolved: the ':' behind it is put back, whether there was one
      or not. */
  lemma {:induction false} Leave(db: Database, file: nat, s: string, scan: nat, u: bool, depth: nat, tc: nat)
    requires depth <= 32 && scan <= |s| && CapFrom(s, scan, "tc", '=') == Some(tc) && tc <= |s|
    requires Fetch(db, file, s[tc..ColonAt(s, tc)], depth + 1, false) == Missing
    ensures tc >= 4 && ColonAt(s, tc) <= |s|
    ensures var e := ColonAt(s, tc);
      var s', scan' := if e < |s| then s else s[..e - 1] + ":", Past(s, e) - 1;
      && scan' <= |s'| && |s'| - scan' < |s| - scan
      && Outcome(db, file, s', scan', true, depth) == Outcome(db, file, s, scan, u, depth)
  {
    hide Expand, Fetch, Render, ColonAt, FieldsFrom, NoReferences, CapFrom, Reference, Outcome;
    var kept, f, rest := FirstReference(s, scan, tc);
    var e := ColonAt(s, tc);
    Around(s, scan, kept, f, rest, tc);
    AtReference(db, file, s, scan, u, depth, kept, f, rest, tc);
    ExpandStep(db, file, [f] + rest, depth, false);
    assert ([f] + rest)[1..] == rest && ([f] + rest)[0] == f;
    OnwardIs(s, e, rest);
    if rest != [] {
      RenderStep([f]);
      RenderStep([f][1..]);
      FinishMore(s[..tc - 4], [f], u, true, Expand(db, file, rest, depth, false));
      OneMore(s, tc - 4, f);
      AtEdge(db, file, s, e, true, depth, rest);
    } else {
      LeaveLast(db, file, s, u, depth, tc, f);
    }
  }

  lemma {:induction false} OneMore(s: string, a: nat, f: string)
    requires a + 1 + |f| <= |s| && s[..a + 1 + |f|] == s[..a + 1] + f && s[..a + 1] == s[..a] + ":"
    ensures s[..a + 1 + |f|] == s[..a] + (":" + f + "")
  {
    assert (s[..a] + ":") + f == s[..a] + (":" + f + "");
  }

  lemma {:induction false} LeaveLast(db: Database, file: nat, s: string, u: bool, depth: nat, tc: nat, f: string)
    requires depth <= 32 && 4 <= tc && tc - 3 + |f| == |s| && |f| >= 3
    requires s[..tc - 3] == s[..tc - 4] + ":" && s[..tc - 3 + |f|] == s[..tc - 3] + f
    requires NoColon(f)
    ensures Outcome(db, file, s[..|s| - 1] + ":", |s| - 1, true, depth) ==
      Finish(s[..tc - 4], u, Some(Expanded(true, Restored(f, false))))
  {
    hide Expand, Render, ColonAt, FieldsFrom, Outcome, NoColon;
    var g, s' := f[..|f| - 1], s[..|s| - 1] + ":";
    NoMore(db, file, depth);
    RenderTwo(g);
    LoseLast(s, tc - 4, f);
    AtEdge(db, file, s', |s| - 1, true, depth, [""]);
  }

  lemma {:induction false} RenderTwo(g: string)
    ensures Render([""]) == ":" && Render([g, ""]) == ":" + g + ":" && NoColons([""])
  {
    assert [""][1..] == [] && [g, ""][1..] == [""];
    assert Render([]) == "";
    assert ":" + "" + "" == ":";
  }

  lemma {:induction false} LoseLast(s: string, a: nat, f: string)
    requires f != "" && a + 1 + |f| == |s| && s[..a + 1] == s[..a] + ":" && s[..|s|] == s[..a + 1] + f
    ensures var s' := s[..|s| - 1] + ":";
      s'[..|s| - 1] + ":" == s[..a] + (":" + f[..|f| - 1] + ":") && s'[|s| - 1..] == ":"
  {
    assert s[..|s|] == s;
    assert s[..|s| - 1] == s[..a + 1] + f[..|f| - 1];
  }

  /** A reference that goes too deep. */
  lemma {:induction false} Abandon(db: Database, file: nat, s: string, scan: nat, u: bool, depth: nat, tc: nat)
    requires depth <= 32 && scan <= |s| && CapFrom(s, scan, "tc", '=') == Some(tc) && tc <= |s|
    requires Fetch(db, file, s[tc..ColonAt(s, tc)], depth + 1, false) == TooDeep
    ensures Outcome(db, file, s, scan, u, depth) == None
  {
    hide Expand, Fetch, Render, ColonAt, FieldsFrom, NoReferences, CapFrom, Reference, Outcome;
    var kept, f, rest := FirstReference(s, scan, tc);
    AtReference(db, file, s, scan, u, depth, kept, f, rest, tc);
    ExpandStep(db, file, [f] + rest, depth, false);
    assert ([f] + rest)[0] == f;
  }

  /** The end of the scan. */
  lemma {:induction false} Complete(db: Database, file: nat, s: string, scan: nat, u: bool, depth: nat)
    requires depth <= 32 && scan <= |s| && CapFrom(s, scan, "tc", '=') == None
    ensures Outcome(db, file, s, scan, u, depth) == Some((u, s))
  {
    hide Expand, Render, ColonAt, FieldsFrom, CapFrom, Search;
    CapIsSearch(s, scan, "tc", '=');
    NothingToExpand(db, file, FieldsFrom(s, scan), depth);
    RenderOfFields(s, scan);
    var j := ColonAt(s, scan);
    Whole(s, scan, j, Render(FieldsFrom(s, scan)));
  }

  lemma {:induction false} Whole(s: string, i: nat, j: nat, r: string)
    requires i <= j <= |s| && s[i..] == s[i..j] + r
    ensures s == s[..j] + r
  {
    Behind(s, i, s[i..j], r);
    assert s == s[..j] + s[j..];
  }
}
