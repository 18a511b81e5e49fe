/** A lookup through the compiled database against a lookup in the text table itself. */
module CitrusRefinement {
  import opened Octets
  import opened Options
  import opened CitrusBcs
  import opened CitrusText
  import opened CitrusHash
  import opened CitrusSlots
  import opened CitrusImage
  import opened CitrusDbFactory
  import opened CitrusDb
  import opened CitrusRoundTrip
  import opened CitrusLookupFactory
  import opened CitrusLookup

  /** The database entries for the lines of a table. */
  function PairsOf(ls: seq<Line>, lineMax: nat): seq<Pair>
    requires lineMax > 0
  {
    if ls == [] then [] else Entry1(ls[0], lineMax) + PairsOf(ls[1..], lineMax)
  }

  function Entry1(l: Line, lineMax: nat): seq<Pair>
    requires lineMax > 0
  {
    if l.word == [] then [] else [PairOf(l, lineMax)]
  }

  lemma {:induction false} PairsOfMore(l: Option<Line>, ls: seq<Line>, lineMax: nat)
    requires lineMax > 0
    ensures PairsOf((if l.Some? then [l.value] else []) + ls, lineMax) ==
      (if l.Some? then Entry1(l.value, lineMax) else []) + PairsOf(ls, lineMax)
  {
    if l.Some? {
      assert ([l.value] + ls)[1..] == ls;
    } else {
      assert [] + ls == ls;
    }
  }

  /** The compiler works on what the plain scan sees, if lines end in LF for both. */
  lemma {:induction false} CompiledIs(s: seq<octet>, i: nat, lineMax: nat)
    requires i <= |s| && lineMax > 0
    ensures Compiled(s, i, lineMax) == PairsOf(Lines(s, i, false), lineMax)
    decreases |s| - i
  {
    hide PairOf, PlainSpot, ConvSpot, LineEnd;
    if i < |s| {
      var k := LineEnd(s, i, false);
      CompiledIs(s, k, lineMax);
      SameLine(s, i, k);
      PairsOfMore(PlainLine(s, i, k), Lines(s, k, false), lineMax);
    }
  }

  /** The first datum under a key. */
  function Look(ps: seq<Pair>, key: seq<octet>): Option<seq<octet>> {
    if ps == [] then None else if ps[0].key == key then Some(ps[0].data) else Look(ps[1..], key)
  }

  /** It is the datum of the first entry that is stored under the residue of the key, if all are. */
  lemma {:induction false} LookIs(hash: HashFunction, ps: seq<Pair>, key: seq<octet>, i: nat)
    requires i <= |ps|
    ensures var j := FirstFiled(hash, ps, HashesOf(hash, ps), key, i);
      Look(ps[i..], key) == if j == |ps| then None else Some(ps[j].data)
    decreases |ps| - i
  {
    if i < |ps| {
      LookIs(hash, ps, key, i + 1);
      assert ps[i..][1..] == ps[i + 1..];
    }
  }

  /** A word can be stored: it is there, and it fits into the compiler's buffer. */
  predicate WordFits(l: Line, lineMax: nat) {
    0 < |l.word| < lineMax
  }

  predicate WordsFit(ls: seq<Line>, lineMax: nat) {
    forall i :: 0 <= i < |ls| ==> WordFits(ls[i], lineMax)
  }

  /** Words hold no NUL, which would end them. */
  predicate WordsClean(ls: seq<Line>) {
    forall i :: 0 <= i < |ls| ==> NoNul(ls[i].word)
  }

  lemma {:induction false} LinesClean(s: seq<octet>, i: nat, cr: bool)
    requires i <= |s|
    ensures WordsClean(Lines(s, i, cr))
    decreases |s| - i
  {
    if i < |s| {
      var k := LineEnd(s, i, cr);
      LinesClean(s, k, cr);
      var x := PlainSpot(s, i, k);
      if x.Some? {
        WordEndIs(s, x.value.p, x.value.q, x.value.e);
      }
    }
  }

  lemma {:induction false} NoNulAt(s: seq<octet>, i: nat)
    requires i <= |s|
    ensures NulAt(s, i) == |s| <==> NoNul(s[i..])
    ensures NoNul(s[i..NulAt(s, i)]) && (NulAt(s, i) < |s| ==> s[NulAt(s, i)] == 0)
    decreases |s| - i
  {
    if i < |s| && s[i] != 0 {
      NoNulAt(s, i + 1);
      assert s[i..] == [s[i]] + s[i + 1..];
      assert s[i..NulAt(s, i)] == [s[i]] + s[i + 1..NulAt(s, i)];
    }
  }

  lemma {:induction false} WordStored(l: Line, lineMax: nat)
    requires NoNul(l.word) && lineMax > 0
    ensures PairOf(l, lineMax).key == Lower(if |l.word| < lineMax then l.word else l.word[..lineMax - 1])
  {
    NoNulAt(l.word, 0);
    assert l.word[0..] == l.word;
  }

  /** Formatting leaves a C string. */
  lemma {:induction false} FormattedIs(d: seq<octet>, lineMax: nat)
    requires lineMax > 0
    ensures CString(Formatted(d, lineMax) + [0]) == Formatted(d, lineMax)
    ensures Formatted(d, lineMax) == CString(d) <==> |CString(d)| < lineMax
  {
    NoNulAt(d, 0);
    var f := Formatted(d, lineMax);
    assert forall k :: 0 <= k < |f| ==> f[k] == d[0..NulAt(d, 0)][k];
    NulBehind(f, 0);
  }

  lemma {:induction false} NulBehind(f: seq<octet>, i: nat)
    requires i <= |f| && NoNul(f)
    ensures NulAt(f + [0], i) == |f|
    decreases |f| - i
  {
    if i < |f| {
      NulBehind(f, i + 1);
    }
  }

  /** With words that fit, both find an entry for the same keys, and the same one. */
  lemma {:induction false} SameFound(ls: seq<Line>, key: seq<octet>, lineMax: nat)
    requires WordsFit(ls, lineMax) && WordsClean(ls) && lineMax > 0
    ensures var f, g := Find(ls, key), Look(PairsOf(ls, lineMax), Lower(key));
      f.Some? == g.Some? && (f.Some? ==> g.value == Formatted(f.value, lineMax) + [0])
  {
    hide Formatted, Lower;
    if ls != [] {
      assert WordFits(ls[0], lineMax);
      WordStored(ls[0], lineMax);
      SameFound(ls[1..], key, lineMax);
      var p, ps := PairOf(ls[0], lineMax), PairsOf(ls[1..], lineMax);
      assert ([p] + ps)[1..] == ps;
    }
  }

  /** No key in the database is empty or as long as the buffer. */
  lemma {:induction false} KeysFit(ls: seq<Line>, key: seq<octet>, lineMax: nat)
    requires WordsClean(ls) && lineMax > 1 && (key == [] || |key| >= lineMax)
    ensures Look(PairsOf(ls, lineMax), key) == None
  {
    hide Formatted;
    if ls != [] {
      WordStored(ls[0], lineMax);
      KeysFit(ls[1..], key, lineMax);
      var p, ps := PairOf(ls[0], lineMax), PairsOf(ls[1..], lineMax);
      assert ([p] + ps)[1..] == ps;
      assert [] + ps == ps;
    }
  }

  /** All keys in the database are in lower case. */
  lemma {:induction false} KeysLower(ls: seq<Line>, key: seq<octet>, lineMax: nat)
    requires lineMax > 0 && key != Lower(key)
    ensures Look(PairsOf(ls, lineMax), key) == None
  {
    if ls != [] {
      KeysLower(ls[1..], key, lineMax);
      LowerTwice(Formatted(ls[0].word, lineMax));
      var p, ps := PairOf(ls[0], lineMax), PairsOf(ls[1..], lineMax);
      assert ([p] + ps)[1..] == ps;
      assert [] + ps == ps;
    }
  }

  predicate NoEmptyData(ps: seq<Pair>) {
    forall i :: 0 <= i < |ps| ==> ps[i].data != []
  }

  lemma {:induction false} DataStored(ls: seq<Line>, lineMax: nat)
    requires lineMax > 0
    ensures NoEmptyData(PairsOf(ls, lineMax))
  {
    if ls != [] {
      DataStored(ls[1..], lineMax);
    }
  }

  /** What a simple lookup finds through the database. */
  function ViaDb(r: seq<octet>, hash: HashFunction, key: seq<octet>, ignoreCase: bool, rounds: nat): Option<seq<octet>> {
    Simple(Opened(Some(r), None, hash), key, ignoreCase, rounds)
  }

  /** What it finds if there is only the text. */
  function ViaText(text: seq<octet>, hash: HashFunction, key: seq<octet>, ignoreCase: bool): Option<seq<octet>> {
    Simple(Opened(None, Some(text), hash), key, ignoreCase, 0)
  }

  function String(data: Option<seq<octet>>): Option<seq<octet>> {
    if data.Some? then Some(CString(data.value)) else None
  }

  /** A compiled database: of a size that the format can express, with room for at least one
      character in the buffers of the compiler. */
  ghost predicate Made(r: seq<octet>, text: seq<octet>, lineMax: nat, hash: HashFunction, at: seq<nat>) {
    lineMax > 1 && Compilation(r, text, lineMax, hash, at) && |r| < 0x1_0000_0000
  }

  lemma {:induction false} MadePairs(r: seq<octet>, text: seq<octet>, lineMax: nat, hash: HashFunction, at: seq<nat>)
    requires Made(r, text, lineMax, hash, at)
    ensures Compiled(text, 0, lineMax) == PairsOf(Lines(text, 0, false), lineMax)
    ensures NoEmptyData(Compiled(text, 0, lineMax))
    ensures Compiled(text, 0, lineMax) != [] ==> Stored(r, MAGIC, Compiled(text, 0, lineMax), HashesOf(hash, Compiled(text, 0, lineMax)), at)
  {
    CompiledIs(text, 0, lineMax);
    DataStored(Lines(text, 0, false), lineMax);
  }

  /** Looking up in the database ends, and finds what was compiled. */
  lemma {:induction false} DbAnswers(r: seq<octet>, text: seq<octet>, lineMax: nat, hash: HashFunction, at: seq<nat>, key: seq<octet>, ignoreCase: bool)
    requires Made(r, text, lineMax, hash, at)
    ensures var pairs := Compiled(text, 0, lineMax);
      && ViaDb(r, hash, key, ignoreCase, |pairs|) == String(Look(pairs, KeyFor(key, ignoreCase)))
      && (Opens(r, MAGIC) ==> Terminates(Database(Db(r, hash)), KeyFor(key, ignoreCase), |pairs|))
  {
    hide Compiled, Stored, LookupResult, LookupEnds, CString, Lower, Opens;
    var pairs := Compiled(text, 0, lineMax);
    MadePairs(r, text, lineMax, hash, at);
    if pairs == [] {
      EmptyDoesNotOpen(MAGIC);
    } else {
      PairsAnswer(r, hash, pairs, at, KeyFor(key, ignoreCase));
    }
  }

  lemma {:induction false} PairsAnswer(r: seq<octet>, hash: HashFunction, pairs: seq<Pair>, at: seq<nat>, key: seq<octet>)
    requires Stored(r, MAGIC, pairs, HashesOf(hash, pairs), at) && NoEmptyData(pairs)
    ensures Opens(r, MAGIC) && 16 <= |r| && LookupEnds(Db(r, hash), key, Place(0, 0), |pairs|)
    ensures LookupResult(Db(r, hash), key, Place(0, 0), |pairs|) ==
              var d := Look(pairs, key); if d.Some? then Ok(d.value) else Err(ENOENT)
  {
    assert |MAGIC| == 8 && |HashesOf(hash, pairs)| == |pairs|;
    hide *;
    var hv := HashesOf(hash, pairs);
    ImageOpens(r, MAGIC, pairs, hv, at);
    SimpleLookup(r, MAGIC, hash, pairs, hv, at, key);
    LookIs(hash, pairs, key, 0);
    assert pairs[0..] == pairs;
    var j := FirstFiled(hash, pairs, hv, key, 0);
    if j < |pairs| {
      FullReadable(pairs, hv, at, j);
    }
  }

  lemma {:induction false} FullReadable(pairs: seq<Pair>, hv: seq<uint32>, at: seq<nat>, j: nat)
    requires Arranged(pairs, hv, at) && NoEmptyData(pairs) && j < |pairs| && j in at
    ensures Readable(pairs, at, j)
  {
    assert pairs[at[SlotOf(at, j)]].data != [];
  }

  lemma {:induction false} FindLower(ls: seq<Line>, key: seq<octet>)
    ensures Find(ls, Lower(key)) == Find(ls, key)
  {
    LowerTwice(key);
    if ls != [] {
      FindLower(ls[1..], key);
    }
  }

  lemma {:induction false} TextAnswers(text: seq<octet>, hash: HashFunction, key: seq<octet>, ignoreCase: bool)
    ensures ViaText(text, hash, key, ignoreCase) == String(Find(Lines(text, 0, true), key))
  {
    hide Find, Lines, FindFrom, CString;
    FindFromIs(text, 0, KeyFor(key, ignoreCase));
    FindLower(Lines(text, 0, true), key);
  }

  /** A lookup of the word on line i finds the same string in the lines that end in LF, cut to the compiler's buffer,
      as in those that CR ends as well. */
  predicate ReadAlike(text: seq<octet>, i: nat, lineMax: nat)
    requires i < |Lines(text, 0, true)| && lineMax > 0
  {
    var word := Lines(text, 0, true)[i].word;
    var f, t := Find(Lines(text, 0, false), word), Find(Lines(text, 0, true), word);
    f.Some? && t.Some? && Formatted(f.value, lineMax) == CString(t.value)
  }

  /** No line has a missing or too long word, and the words are read alike. */
  predicate Alike(text: seq<octet>, lineMax: nat)
    requires lineMax > 0
  {
    && WordsFit(Lines(text, 0, true), lineMax)
    && forall i :: 0 <= i < |Lines(text, 0, true)| ==> ReadAlike(text, i, lineMax)
  }

  /** What a lookup of the word on line i finds fits into the compiler's buffer. */
  predicate DataFits(ls: seq<Line>, i: nat, lineMax: nat)
    requires i < |ls|
  {
    var d := Find(ls, ls[i].word);
    d.Some? ==> |CString(d.value)| < lineMax
  }

  /** No line has a missing or too long word, and no line that a lookup can find has too long data. */
  predicate Fits(text: seq<octet>, lineMax: nat) {
    var ls := Lines(text, 0, true);
    WordsFit(ls, lineMax) && forall i :: 0 <= i < |ls| ==> DataFits(ls, i, lineMax)
  }

  /** A key that is found is some line's word up to case. */
  lemma {:induction false} FoundWord(ls: seq<Line>, key: seq<octet>) returns (i: nat)
    requires Find(ls, key).Some?
    ensures i < |ls| && Lower(ls[i].word) == Lower(key)
  {
    if Lower(ls[0].word) == Lower(key) {
      i := 0;
    } else {
      i := FoundWord(ls[1..], key);
      i := i + 1;
    }
  }

  lemma {:induction false} WordFound(ls: seq<Line>, i: nat)
    requires i < |ls|
    ensures Find(ls, ls[i].word).Some?
  {
    if Lower(ls[0].word) != Lower(ls[i].word) {
      WordFound(ls[1..], i - 1);
    }
  }

  lemma {:induction false} FindSame(ls: seq<Line>, a: seq<octet>, b: seq<octet>)
    requires Lower(a) == Lower(b)
    ensures Find(ls, a) == Find(ls, b)
  {
    if ls != [] {
      FindSame(ls[1..], a, b);
    }
  }

  /** Both ways of looking up a key find the same string, or neither finds one. */
  predicate Agrees(r: seq<octet>, text: seq<octet>, hash: HashFunction, key: seq<octet>, ignoreCase: bool, rounds: nat) {
    ViaDb(r, hash, key, ignoreCase, rounds) == ViaText(text, hash, key, ignoreCase)
  }

  lemma {:induction false} AgreesWhere(r: seq<octet>, text: seq<octet>, lineMax: nat, hash: HashFunction, at: seq<nat>, key: seq<octet>, ignoreCase: bool)
    requires Made(r, text, lineMax, hash, at)
    ensures Agrees(r, text, hash, key, ignoreCase, |Compiled(text, 0, lineMax)|) <==>
      String(Look(PairsOf(Lines(text, 0, false), lineMax), KeyFor(key, ignoreCase))) == String(Find(Lines(text, 0, true), key))
  {
    hide Made, Compiled, ViaDb, ViaText, PairsOf, Look, Find, Lines, CString;
    MadePairs(r, text, lineMax, hash, at);
    DbAnswers(r, text, lineMax, hash, at, key, ignoreCase);
    TextAnswers(text, hash, key, ignoreCase);
  }

  /** If all words fit, so do those of the lines that end in LF. */
  lemma {:induction false} WordsFitToo(text: seq<octet>, lineMax: nat)
    requires WordsFit(Lines(text, 0, true), lineMax)
    ensures WordsFit(Lines(text, 0, false), lineMax)
  {
    forall m | 0 <= m < |Lines(text, 0, false)|
      ensures WordFits(Lines(text, 0, false)[m], lineMax)
    {
      var j := WordsOfLines(text, 0, m);
      assert WordFits(Lines(text, 0, true)[j], lineMax);
    }
  }

  /** What is found under a key in the lines that end in LF has its word on the others. */
  lemma {:induction false} FoundToo(text: seq<octet>, key: seq<octet>)
    requires Find(Lines(text, 0, false), key).Some?
    ensures Find(Lines(text, 0, true), key).Some?
  {
    var m := FoundWord(Lines(text, 0, false), key);
    var j := WordsOfLines(text, 0, m);
    WordFound(Lines(text, 0, true), j);
    FindSame(Lines(text, 0, true), Lines(text, 0, true)[j].word, key);
  }

  /** Where the words fit, a key is looked up alike when both readings have it with the same string, or neither. */
  lemma {:induction false} StringsDecide(ls: seq<Line>, key: seq<octet>, lineMax: nat, t: Option<seq<octet>>)
    requires WordsFit(ls, lineMax) && WordsClean(ls) && lineMax > 0
    ensures String(Look(PairsOf(ls, lineMax), Lower(key))) == String(t) <==>
              var f := Find(ls, key); f.Some? == t.Some? && (t.Some? ==> Formatted(f.value, lineMax) == CString(t.value))
  {
    hide Find, Look, PairsOf, Lower, CString, Formatted;
    SameFound(ls, key, lineMax);
    var f := Find(ls, key);
    if f.Some? {
      FormattedIs(f.value, lineMax);
    }
  }

  /** If all words fit, the word on a line is looked up alike exactly when it is read alike. */
  lemma {:induction false} WordDecides(r: seq<octet>, text: seq<octet>, lineMax: nat, hash: HashFunction, at: seq<nat>, i: nat)
    requires Made(r, text, lineMax, hash, at) && WordsFit(Lines(text, 0, true), lineMax) && i < |Lines(text, 0, true)|
    ensures Agrees(r, text, hash, Lines(text, 0, true)[i].word, true, |Compiled(text, 0, lineMax)|) <==>
              ReadAlike(text, i, lineMax)
  {
    assert lineMax > 1;
    hide Made, Agrees, Compiled, PairsOf, Look, Find, Lines, CString, Lower, WordsFit;
    var key := Lines(text, 0, true)[i].word;
    WordsFitToo(text, lineMax);
    LinesClean(text, 0, false);
    AgreesWhere(r, text, lineMax, hash, at, key, true);
    StringsDecide(Lines(text, 0, false), key, lineMax, Find(Lines(text, 0, true), key));
    WordFound(Lines(text, 0, true), i);
  }

  /** If everything is read alike, every key is looked up alike, ignoring case. */
  lemma {:induction false} AlikeAgrees(r: seq<octet>, text: seq<octet>, lineMax: nat, hash: HashFunction, at: seq<nat>, key: seq<octet>)
    requires Made(r, text, lineMax, hash, at) && Alike(text, lineMax)
    ensures Agrees(r, text, hash, key, true, |Compiled(text, 0, lineMax)|)
  {
    assert lineMax > 1;
    hide Made, Agrees, Compiled, PairsOf, Look, Find, Lines, CString, Lower, WordsFit;
    var ls := Lines(text, 0, true);
    AgreesWhere(r, text, lineMax, hash, at, key, true);
    WordsFitToo(text, lineMax);
    LinesClean(text, 0, false);
    StringsDecide(Lines(text, 0, false), key, lineMax, Find(ls, key));
    if Find(ls, key).Some? {
      var i := FoundWord(ls, key);
      FindSame(ls, key, ls[i].word);
      FindSame(Lines(text, 0, false), key, ls[i].word);
      assert ReadAlike(text, i, lineMax);
    } else if Find(Lines(text, 0, false), key).Some? {
      FoundToo(text, key);
    }
  }

  /** A word that does not fit is itself a key that is looked up differently. */
  lemma {:induction false} BadWord(r: seq<octet>, text: seq<octet>, lineMax: nat, hash: HashFunction, at: seq<nat>, i: nat)
    requires Made(r, text, lineMax, hash, at)
    requires var ls := Lines(text, 0, true); i < |ls| && !WordFits(ls[i], lineMax)
    ensures var key := Lines(text, 0, true)[i].word;
      NoNul(key) && !Agrees(r, text, hash, key, true, |Compiled(text, 0, lineMax)|)
  {
    hide Agrees, Compiled, PairsOf, Look, Find, Lines, CString;
    var ls := Lines(text, 0, true);
    var key := ls[i].word;
    AgreesWhere(r, text, lineMax, hash, at, key, true);
    LinesClean(text, 0, true);
    LinesClean(text, 0, false);
    WordFound(ls, i);
    assert |Lower(key)| == |key|;
    KeysFit(Lines(text, 0, false), Lower(key), lineMax);
  }

  /** The fast form refines the simple one: looking up a key, ignoring case, finds the same through the compiled
      database as in the text - for every key if and only if the words fit into the buffers of the compiler and each
      of them has the same string under it however CR is taken, also when it is cut to the buffer. */
  lemma {:induction false} Refinement(r: seq<octet>, text: seq<octet>, lineMax: nat, hash: HashFunction, at: seq<nat>)
    requires Made(r, text, lineMax, hash, at)
    ensures (forall key :: NoNul(key) ==> Agrees(r, text, hash, key, true, |Compiled(text, 0, lineMax)|)) <==> Alike(text, lineMax)
  {
    assert lineMax > 1;
    hide Made, Agrees, Compiled, Lines, NoNul, WordFits, ReadAlike;
    var ls := Lines(text, 0, true);
    LinesClean(text, 0, true);
    if Alike(text, lineMax) {
      forall key | NoNul(key)
        ensures Agrees(r, text, hash, key, true, |Compiled(text, 0, lineMax)|)
      {
        AlikeAgrees(r, text, lineMax, hash, at, key);
      }
    } else if !WordsFit(ls, lineMax) {
      var i :| 0 <= i < |ls| && !WordFits(ls[i], lineMax);
      BadWord(r, text, lineMax, hash, at, i);
    } else {
      var i :| 0 <= i < |ls| && !ReadAlike(text, i, lineMax);
      WordDecides(r, text, lineMax, hash, at, i);
    }
  }

  /** When no CR stands before something to read on a line that is not blank before it, this is just that everything
      fits. */
  lemma {:induction false} AlikeIfFits(text: seq<octet>, lineMax: nat)
    requires CrHarmless(text, 0) && lineMax > 0
    ensures Alike(text, lineMax) <==> Fits(text, lineMax)
  {
    CrIrrelevantIff(text, 0);
    var ls := Lines(text, 0, true);
    hide Lines, Find, WordsFit, CString, Formatted, CrHarmless;
    forall i | 0 <= i < |ls|
      ensures ReadAlike(text, i, lineMax) <==> DataFits(ls, i, lineMax)
    {
      WordFound(ls, i);
      FormattedIs(Find(ls, ls[i].word).value, lineMax);
    }
  }

  /** Without ignoring case the plain scan still ignores it, but the database does not: a key in lower case is looked
      up as if case were ignored, and with another one they agree if and only if there is nothing to be found. */
  lemma {:induction false} CaseSensitive(r: seq<octet>, text: seq<octet>, lineMax: nat, hash: HashFunction, at: seq<nat>, key: seq<octet>)
    requires Made(r, text, lineMax, hash, at)
    ensures Agrees(r, text, hash, key, false, |Compiled(text, 0, lineMax)|) <==>
              if key == Lower(key) then Agrees(r, text, hash, key, true, |Compiled(text, 0, lineMax)|)
              else Find(Lines(text, 0, true), key) == None
  {
    assert lineMax > 1;
    hide Made, Agrees, Compiled, PairsOf, Look, Find, Lines, CString, Lower, ViaDb, ViaText;
    AgreesWhere(r, text, lineMax, hash, at, key, false);
    AgreesWhere(r, text, lineMax, hash, at, key, true);
    if key != Lower(key) {
      KeysLower(Lines(text, 0, false), key, lineMax);
    }
  }
}
