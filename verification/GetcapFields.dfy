/** Capability records as strings and as lists of fields, and searching in them (gen/getcap.c).  A
    record is a field of names and, each behind a ':', fields that hold capabilities. */
module GetcapFields {
  import opened Options

  /** The first ':' at or behind i, or the end. */
  function ColonAt(s: string, i: nat): (j: nat)
    requires i <= |s|
    ensures i <= j <= |s| && (j < |s| ==> s[j] == ':')
    decreases |s| - i
  {
    if i == |s| || s[i] == ':' then i else ColonAt(s, i + 1)
  }

  predicate NoColon(s: string) {
    ':' !in s
  }

  lemma {:induction false} ColonAtIs(s: string, i: nat, j: nat)
    requires i <= j <= |s|
    ensures ColonAt(s, i) == j <==> NoColon(s[i..j]) && (j < |s| ==> s[j] == ':')
    decreases |s| - i
  {
    if i < j {
      assert s[i..j] == [s[i]] + s[i + 1..j];
      if s[i] != ':' {
        ColonAtIs(s, i + 1, j);
      }
    }
  }

  /** What a field says about a capability of some type. */
  datatype Verdict = NoMatch | Cancel | Found(value: string)

  /** The verdict of `cgetcap` on one field. */
  function MatchField(f: string, cap: string, typ: char): Verdict {
    if !(cap <= f) then NoMatch
    else
      var rest := f[|cap|..];
      if rest != "" && rest[0] == '@' then Cancel
      else if typ == ':' then (if rest == "" then Found("") else NoMatch)
      else if rest == "" || rest[0] != typ then NoMatch
      else if |rest| > 1 && rest[1] == '@' then Cancel
      else Found(rest[1..])
  }

  /** The first verdict in a list of fields. */
  function Search(fs: seq<string>, cap: string, typ: char): Verdict {
    if fs == [] then NoMatch
    else
      var v := MatchField(fs[0], cap, typ);
      if v != NoMatch then v else Search(fs[1..], cap, typ)
  }

  /** What stands behind the name of the capability in a field that begins with it. */
  lemma {:induction false} Rest(f: string, cap: string, x: string)
    ensures f == cap + x <==> cap <= f && f[|cap|..] == x
  {
    if cap <= f {
      assert f == cap + f[|cap|..];
    }
  }

  /** A field cancels a capability by a '@' in the place of its value or of its type, and gives the string behind the
      type as its value otherwise; a flag, of type ':', is the name alone. */
  lemma {:induction false} FieldSays(f: string, cap: string, typ: char)
    ensures MatchField(f, cap, typ) == Cancel <==>
              exists x: string :: f == cap + "@" + x || (typ != ':' && f == cap + [typ] + "@" + x)
    ensures forall v: string :: MatchField(f, cap, typ) == Found(v) <==>
              if typ == ':' then f == cap && v == ""
              else typ != '@' && f == cap + [typ] + v && !("@" <= v)
  {
    forall x: string
      ensures f == cap + "@" + x <==> cap <= f && f[|cap|..] == "@" + x
      ensures f == cap + [typ] + "@" + x <==> cap <= f && f[|cap|..] == [typ, '@'] + x
      ensures f == cap + [typ] + x <==> cap <= f && f[|cap|..] == [typ] + x
    {
      assert cap + "@" + x == cap + ("@" + x) && cap + [typ] + x == cap + ([typ] + x);
      assert cap + [typ] + "@" + x == cap + ([typ, '@'] + x);
      Rest(f, cap, "@" + x);
      Rest(f, cap, [typ, '@'] + x);
      Rest(f, cap, [typ] + x);
    }
    if cap <= f {
      Heads(f[|cap|..], typ);
    }
  }

  lemma {:induction false} Heads(r: string, typ: char)
    ensures (exists x: string :: r == "@" + x) <==> r != "" && r[0] == '@'
    ensures (exists x: string :: r == [typ, '@'] + x) <==> |r| > 1 && r[0] == typ && r[1] == '@'
    ensures forall v: string :: r == [typ] + v <==> r != "" && r[0] == typ && r[1..] == v
  {
    if r != "" {
      assert r == [r[0]] + r[1..];
    }
    if |r| > 1 {
      assert r == [r[0], r[1]] + r[2..];
    }
  }

  /** Field i is the first that says anything about the capability. */
  predicate FirstSaying(fs: seq<string>, cap: string, typ: char, i: nat) {
    && i < |fs| && MatchField(fs[i], cap, typ) != NoMatch
    && forall j :: 0 <= j < i ==> MatchField(fs[j], cap, typ) == NoMatch
  }

  /** The first field that says anything decides. */
  lemma {:induction false} SearchIs(fs: seq<string>, cap: string, typ: char)
    ensures Search(fs, cap, typ) == NoMatch <==> forall i :: 0 <= i < |fs| ==> MatchField(fs[i], cap, typ) == NoMatch
    ensures forall i: nat :: FirstSaying(fs, cap, typ, i) ==> Search(fs, cap, typ) == MatchField(fs[i], cap, typ)
  {
    hide MatchField;
    if fs != [] {
      SearchIs(fs[1..], cap, typ);
      assert forall i :: 0 < i < |fs| ==> fs[i] == fs[1..][i - 1];
      assert forall i :: 0 <= i < |fs| - 1 ==> fs[1..][i] == fs[i + 1];
      if MatchField(fs[0], cap, typ) == NoMatch {
        forall i: nat | FirstSaying(fs, cap, typ, i)
          ensures Search(fs, cap, typ) == MatchField(fs[i], cap, typ)
        {
          assert FirstSaying(fs[1..], cap, typ, i - 1);
        }
      }
    }
  }

  lemma {:induction false} SearchBoth(a: seq<string>, b: seq<string>, cap: string, typ: char)
    ensures Search(a + b, cap, typ) == var v := Search(a, cap, typ); if v != NoMatch then v else Search(b, cap, typ)
  {
    if a == [] {
      assert a + b == b;
    } else {
      assert (a + b)[1..] == a[1..] + b;
      SearchBoth(a[1..], b, cap, typ);
    }
  }

  /** The fields behind the one that position i is in. */
  function FieldsFrom(s: string, i: nat): seq<string>
    requires i <= |s|
    decreases |s| - i
  {
    var j := ColonAt(s, i);
    if j == |s| then [] else [s[j + 1..ColonAt(s, j + 1)]] + FieldsFrom(s, j + 1)
  }

  /** Fields with a ':' in front of each. */
  function Render(fs: seq<string>): string {
    if fs == [] then "" else ":" + fs[0] + Render(fs[1..])
  }

  predicate NoColons(fs: seq<string>) {
    forall i :: 0 <= i < |fs| ==> NoColon(fs[i])
  }

  lemma {:induction false} RenderStep(fs: seq<string>)
    ensures Render(fs) == if fs == [] then "" else ":" + fs[0] + Render(fs[1..])
  {
  }

  lemma {:induction false} FieldsStep(s: string, i: nat, j: nat)
    requires i <= |s| && j == ColonAt(s, i)
    ensures FieldsFrom(s, i) == if j == |s| then [] else [s[j + 1..ColonAt(s, j + 1)]] + FieldsFrom(s, j + 1)
  {
  }

  lemma {:induction false} Behind(s: string, i: nat, x: string, y: string)
    requires i <= |s| && s[i..] == x + y
    ensures i + |x| <= |s| && s[i..i + |x|] == x && s[i + |x|..] == y
  {
    assert s[i..][|x|..] == s[i + |x|..];
    assert s[i..][..|x|] == s[i..i + |x|];
  }

  /** Taking a rendered record apart gives its fields. */
  lemma {:induction false} FieldsOfRender(s: string, i: nat, x: string, fs: seq<string>)
    requires i <= |s| && s[i..] == x + Render(fs) && NoColon(x) && NoColons(fs)
    ensures ColonAt(s, i) == i + |x| && FieldsFrom(s, i) == fs
    decreases |fs|
  {
    hide *;
    var j := i + |x|;
    Behind(s, i, x, Render(fs));
    RenderStep(fs);
    if fs == [] {
      assert s[j..] == "";
      ColonAtIs(s, i, j);
      FieldsStep(s, i, j);
    } else {
      var x', rest := fs[0], fs[1..];
      NoColonsTail(fs);
      AtColon(s, j, x', Render(rest));
      ColonAtIs(s, i, j);
      FieldsStep(s, i, j);
      FieldsOfRender(s, j + 1, x', rest);
      Behind(s, j + 1, x', Render(rest));
      HeadTail(fs);
    }
  }

  lemma {:induction false} HeadTail(fs: seq<string>)
    requires fs != []
    ensures fs == [fs[0]] + fs[1..]
  {
  }

  lemma {:induction false} NoColonsTail(fs: seq<string>)
    requires fs != [] && NoColons(fs)
    ensures NoColon(fs[0]) && NoColons(fs[1..])
  {
  }

  lemma {:induction false} AtColon(s: string, j: nat, x: string, r: string)
    requires j <= |s| && s[j..] == ":" + x + r
    ensures j < |s| && s[j] == ':' && s[j + 1..] == x + r
  {
    assert s[j..][1..] == s[j + 1..];
    assert ":" + x + r == ":" + (x + r);
  }

  lemma {:induction false} RenderBoth(a: seq<string>, b: seq<string>)
    ensures Render(a + b) == Render(a) + Render(b)
  {
    if a == [] {
      assert a + b == b;
    } else {
      assert (a + b)[1..] == a[1..] + b;
      RenderBoth(a[1..], b);
    }
  }

  lemma {:induction false} Cut(s: string, i: nat, j: nat)
    requires i <= j < |s| && s[j] == ':'
    ensures s[i..] == s[i..j] + (":" + s[j + 1..])
  {
  }

  lemma {:induction false} Regroup(x: string, m: string, r: string)
    ensures x + (":" + (m + r)) == x + (":" + m + r)
  {
  }

  /** Every string is what is in front of its first ':' and its rendered fields. */
  lemma {:induction false} RenderOfFields(s: string, i: nat)
    requires i <= |s|
    ensures s[i..] == s[i..ColonAt(s, i)] + Render(FieldsFrom(s, i))
    ensures NoColons(FieldsFrom(s, i))
    decreases |s| - i
  {
    hide ColonAt, FieldsFrom, NoColon, Render;
    var j := ColonAt(s, i);
    FieldsStep(s, i, j);
    if j < |s| {
      RenderOfFields(s, j + 1);
      var k, rest := ColonAt(s, j + 1), FieldsFrom(s, j + 1);
      ColonAtIs(s, j + 1, k);
      MoreFields(s, i, j, s[j + 1..k], rest);
    } else {
      RenderStep([]);
      assert s[i..] == s[i..j] + "";
    }
  }

  lemma {:induction false} MoreFields(s: string, i: nat, j: nat, m: string, rest: seq<string>)
    requires i <= j < |s| && s[j] == ':' && s[j + 1..] == m + Render(rest) && NoColon(m) && NoColons(rest)
    ensures s[i..] == s[i..j] + Render([m] + rest) && NoColons([m] + rest)
  {
    RenderStep([m] + rest);
    assert ([m] + rest)[1..] == rest;
    hide Render;
    Cut(s, i, j);
    Regroup(s[i..j], m, Render(rest));
  }

  /** Where `cgetcap` finds the value of a capability in s, when it starts in the field that position
      i is in. */
  function CapFrom(s: string, i: nat, cap: string, typ: char): Option<nat>
    requires i <= |s|
    decreases |s| - i
  {
    var j := ColonAt(s, i);
    if j == |s| then None
    else
      var e := ColonAt(s, j + 1);
      match MatchField(s[j + 1..e], cap, typ)
      case NoMatch => CapFrom(s, j + 1, cap, typ)
      case Cancel => None
      case Found(v) => Some(e - |v|)
  }

  lemma {:induction false} FoundInside(f: string, cap: string, typ: char)
    requires MatchField(f, cap, typ).Found?
    ensures var v := MatchField(f, cap, typ).value; |v| + |cap| <= |f| && v == f[|f| - |v|..]
  {
  }

  /** It is the value in the first field that has a verdict. */
  lemma {:induction false} CapIsSearch(s: string, i: nat, cap: string, typ: char)
    requires i <= |s|
    ensures var v, c := Search(FieldsFrom(s, i), cap, typ), CapFrom(s, i, cap, typ);
      (c.Some? <==> v.Found?) && (c.Some? ==> c.value <= |s| && s[c.value..ColonAt(s, c.value)] == v.value)
    decreases |s| - i
  {
    hide ColonAt, MatchField, NoColon;
    var j := ColonAt(s, i);
    FieldsStep(s, i, j);
    if j < |s| {
      var e := ColonAt(s, j + 1);
      var f := s[j + 1..e];
      assert ([f] + FieldsFrom(s, j + 1))[1..] == FieldsFrom(s, j + 1);
      if MatchField(f, cap, typ) == NoMatch {
        CapIsSearch(s, j + 1, cap, typ);
      } else if MatchField(f, cap, typ).Found? {
        FoundInside(f, cap, typ);
        ValueEnds(s, j + 1, e, MatchField(f, cap, typ).value);
      }
    }
  }

  lemma {:induction false} ValueEnds(s: string, i: nat, e: nat, v: string)
    requires i <= |s| && e == ColonAt(s, i) && |v| <= e - i && v == s[i..e][e - i - |v|..]
    ensures ColonAt(s, e - |v|) == e && s[e - |v|..e] == v
  {
    ColonAtIs(s, i, e);
    assert s[e - |v|..e] == v;
    assert forall k :: e - |v| <= k < e ==> s[k] == s[i..e][k - i];
    ColonAtIs(s, e - |v|, e);
  }
}
