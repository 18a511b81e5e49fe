/** Text tables: lines of a key word and data, with '#' comments.  They are read in two ways, by the
    scan of the plain file (seq_lookup_plain) and by the compiler to a database (convert_line). */
module CitrusText {
  import opened Octets
  import opened Options
  import opened CitrusBcs

  predicate EndsLine(c: octet, cr: bool) {
    c == 10 || (cr && c == 13)
  }

  /** The end of the line that starts at i, including its terminator: LF or, with cr, also CR. */
  function LineEnd(s: seq<octet>, i: nat, cr: bool): (k: nat)
    requires i < |s|
    ensures i < k <= |s|
    decreases |s| - i
  {
    if EndsLine(s[i], cr) || i + 1 == |s| then i + 1 else LineEnd(s, i + 1, cr)
  }

  predicate OneLine(s: seq<octet>, i: nat, k: nat, cr: bool)
    requires k <= |s|
  {
    forall m :: i <= m < k ==> s[m] != 10 && (cr ==> s[m] != 13)
  }

  lemma {:induction false} LineEndIs(s: seq<octet>, i: nat, k: nat, cr: bool)
    requires i < k <= |s|
    ensures LineEnd(s, i, cr) == k <==> OneLine(s, i, k - 1, cr) && (k < |s| ==> s[k - 1] == 10 || (cr && s[k - 1] == 13))
    decreases |s| - i
  {
    if !EndsLine(s[i], cr) && i + 1 < k {
      LineEndIs(s, i + 1, k, cr);
    }
  }

  /** The first '#' in [i, k), which `memchr` finds, or k. */
  function CommentAt(s: seq<octet>, i: nat, k: nat): (c: nat)
    requires i <= k <= |s|
    ensures i <= c <= k
    decreases k - i
  {
    if i == k || s[i] == 35 then i else CommentAt(s, i + 1, k)
  }

  lemma {:induction false} CommentAtIs(s: seq<octet>, i: nat, c: nat, k: nat)
    requires i <= c <= k <= |s|
    ensures CommentAt(s, i, k) == c <==> (forall m :: i <= m < c ==> s[m] != 35) && (c < k ==> s[c] == 35)
    decreases k - i
  {
    if i < k && s[i] != 35 && i < c {
      CommentAtIs(s, i + 1, c, k);
    }
  }

  datatype Line = Line(word: seq<octet>, data: seq<octet>)

  /** Where the word [p, q) and the data [d, e) of a line are. */
  datatype Spot = Spot(p: nat, q: nat, d: nat, e: nat)

  /** What the plain scan finds on the line [i, k): nothing on a blank one. */
  function PlainSpot(s: seq<octet>, i: nat, k: nat): (r: Option<Spot>)
    requires i <= k <= |s|
    ensures r.Some? ==> i <= r.value.p <= r.value.q <= r.value.d <= r.value.e <= k
  {
    var e := TrimEnd(s, i, CommentAt(s, i, k));
    if e == i then None
    else
      var p := WsEnd(s, i, e);
      var q := WordEnd(s, p, e);
      Some(Spot(p, q, WsEnd(s, q, e), e))
  }

  /** What the compiler finds: nothing either if there is no word, which a NUL can cause. */
  function ConvSpot(s: seq<octet>, i: nat, k: nat): (r: Option<Spot>)
    requires i <= k <= |s|
    ensures r.Some? ==> i <= r.value.p < r.value.q <= r.value.d <= r.value.e <= k
  {
    var c := CommentAt(s, i, k);
    var p := WsEnd(s, i, c);
    var q := WordEnd(s, p, c);
    if p == q then None
    else
      var d := WsEnd(s, q, c);
      Some(Spot(p, q, d, TrimEnd(s, d, c)))
  }

  function LineAt(s: seq<octet>, x: Option<Spot>): Option<Line>
    requires x.Some? ==> x.value.p <= x.value.q <= |s| && x.value.d <= x.value.e <= |s|
  {
    match x
    case None => None
    case Some(x) => Some(Line(s[x.p..x.q], s[x.d..x.e]))
  }

  function PlainLine(s: seq<octet>, i: nat, k: nat): Option<Line>
    requires i <= k <= |s|
  {
    LineAt(s, PlainSpot(s, i, k))
  }

  /** The word is the same whether the white space at the end of the line is cut off or not. */
  lemma {:induction false} SameWord(s: seq<octet>, i: nat, c: nat)
    requires i <= c <= |s| && TrimEnd(s, i, c) > i
    ensures var e := TrimEnd(s, i, c);
      var p := WsEnd(s, i, e);
      p < e && WsEnd(s, i, c) == p && WordEnd(s, p, c) == WordEnd(s, p, e)
  {
    var e := TrimEnd(s, i, c);
    var p := WsEnd(s, i, e);
    TrimEndIs(s, i, e, c);
    WsEndIs(s, i, p, e);
    WsEndIs(s, i, p, c);
    var q := WordEnd(s, p, e);
    WordEndIs(s, p, q, e);
    WordEndIs(s, p, q, c);
  }

  /** So are the data. */
  lemma {:induction false} SameData(s: seq<octet>, i: nat, q: nat, c: nat)
    requires i <= c <= |s| && i <= q <= TrimEnd(s, i, c) && i < TrimEnd(s, i, c)
    ensures var e := TrimEnd(s, i, c);
      var d, d' := WsEnd(s, q, e), WsEnd(s, q, c);
      if q == e then d == e && TrimEnd(s, d', c) == d' == c else d' == d && TrimEnd(s, d, c) == e
  {
    var e := TrimEnd(s, i, c);
    TrimEndIs(s, i, e, c);
    if q == e {
      WsEndIs(s, q, c, c);
    } else {
      var d := WsEnd(s, q, e);
      WsEndIs(s, q, d, e);
      WsEndIs(s, q, d, c);
      TrimEndIs(s, d, e, c);
    }
  }

  /** Both find the same word and the same data. */
  lemma {:induction false} SameLine(s: seq<octet>, i: nat, k: nat)
    requires i <= k <= |s|
    ensures var l := PlainLine(s, i, k);
      LineAt(s, ConvSpot(s, i, k)) == if l.Some? && l.value.word != [] then l else None
  {
    var c := CommentAt(s, i, k);
    var e := TrimEnd(s, i, c);
    if e > i {
      SameWord(s, i, c);
      SameData(s, i, WordEnd(s, WsEnd(s, i, e), e), c);
      assert s[e..e] == s[c..c];
    } else {
      TrimEndIs(s, i, i, c);
      WsEndIs(s, i, c, c);
    }
  }

  /** The lines with something on them from position i on. */
  function Lines(s: seq<octet>, i: nat, cr: bool): seq<Line>
    requires i <= |s|
    decreases |s| - i
  {
    if i == |s| then []
    else
      var k := LineEnd(s, i, cr);
      var l := PlainLine(s, i, k);
      (if l.Some? then [l.value] else []) + Lines(s, k, cr)
  }

  /** White space before a line is nothing on it. */
  lemma {:induction false} BlankHead(s: seq<octet>, i: nat, j: nat, k: nat)
    requires i <= j <= k <= |s| && AllSpace(s, i, j)
    ensures PlainLine(s, i, k) == PlainLine(s, j, k)
  {
    CommentBehind(s, i, j, k);
    var c := CommentAt(s, j, k);
    var e := TrimEnd(s, j, c);
    TrimEndIs(s, j, e, c);
    if e > j {
      TrimEndIs(s, i, e, c);
      var p := WsEnd(s, j, e);
      WsEndIs(s, j, p, e);
      WsEndIs(s, i, p, e);
    } else {
      TrimEndIs(s, i, i, c);
    }
  }

  lemma {:induction false} CommentBehind(s: seq<octet>, i: nat, j: nat, k: nat)
    requires i <= j <= k <= |s| && AllSpace(s, i, j)
    ensures CommentAt(s, i, k) == CommentAt(s, j, k)
    decreases j - i
  {
    if i < j {
      CommentBehind(s, i + 1, j, k);
    }
  }

  /** The line at i is read as one line. */
  function OneLineAt(s: seq<octet>, i: nat): seq<Line>
    requires i < |s|
  {
    var l := PlainLine(s, i, LineEnd(s, i, false));
    if l.Some? then [l.value] else []
  }

  /** The line at i is read piece by piece, as if CR ended lines. */
  function Pieces(s: seq<octet>, i: nat): seq<Line>
    requires i < |s|
    decreases |s| - i
  {
    var k := LineEnd(s, i, true);
    var l := PlainLine(s, i, k);
    (if l.Some? then [l.value] else []) + if k >= LineEnd(s, i, false) then [] else Pieces(s, k)
  }

  /** The first piece of the line at i with anything on it, if only a comment, is the last with something to read. */
  predicate Harmless(s: seq<octet>, i: nat)
    requires i < |s|
    decreases |s| - i
  {
    var k := LineEnd(s, i, true);
    || k >= LineEnd(s, i, false)
    || if AllSpace(s, i, k) then Harmless(s, k) else Pieces(s, k) == []
  }

  /** So it is on all lines from i on. */
  predicate CrHarmless(s: seq<octet>, i: nat)
    requires i <= |s|
    decreases |s| - i
  {
    i == |s| || (Harmless(s, i) && CrHarmless(s, LineEnd(s, i, false)))
  }

  /** A piece is a part of its line. */
  lemma {:induction false} PieceEnd(s: seq<octet>, i: nat)
    requires i < |s|
    ensures var k, k' := LineEnd(s, i, false), LineEnd(s, i, true);
      k' <= k && (k' < k ==> s[k' - 1] == 13 && LineEnd(s, k', false) == k)
  {
    var k, k' := LineEnd(s, i, false), LineEnd(s, i, true);
    LineEndIs(s, i, k, false);
    LineEndIs(s, i, k', true);
    assert k' <= k;
    if k' < k {
      LineEndIs(s, k', k, false);
    }
  }

  /** With a comment on the piece [i, k') nothing behind it is read. */
  lemma {:induction false} CommentOn(s: seq<octet>, i: nat, k': nat, k: nat)
    requires i <= k' <= k <= |s|
    ensures var c', c := CommentAt(s, i, k'), CommentAt(s, i, k);
      if c' < k' then c == c' else c == CommentAt(s, k', k) >= k'
    decreases k' - i
  {
    if i < k' && s[i] != 35 {
      CommentOn(s, i + 1, k', k);
    }
  }

  /** If there is nothing to read behind the first piece, what is read is on it. */
  lemma {:induction false} NothingBehind(s: seq<octet>, i: nat, k': nat, k: nat)
    requires i <= k' <= k <= |s| && PlainLine(s, k', k).None?
    ensures PlainLine(s, i, k) == PlainLine(s, i, k')
  {
    CommentOn(s, i, k', k);
    var c', c := CommentAt(s, i, k'), CommentAt(s, i, k);
    if c' == k' {
      TrimEndIs(s, k', k', c);
      var e := TrimEnd(s, i, k');
      TrimEndIs(s, i, e, k');
      TrimEndIs(s, i, e, c);
    }
  }

  /** A line with nothing to read, and yet not blank, is a comment. */
  lemma {:induction false} OnlyComment(s: seq<octet>, i: nat, k': nat, k: nat)
    requires i <= k' <= k <= |s| && PlainLine(s, i, k').None? && !AllSpace(s, i, k')
    ensures PlainLine(s, i, k).None?
  {
    CommentOn(s, i, k', k);
    TrimEndIs(s, i, i, CommentAt(s, i, k'));
  }

  /** Read piece by piece a line gives no less, and it gives the same exactly when it is harmless. */
  lemma {:induction false} PiecesIff(s: seq<octet>, i: nat)
    requires i < |s|
    ensures if Harmless(s, i) then Pieces(s, i) == OneLineAt(s, i) else |Pieces(s, i)| > |OneLineAt(s, i)|
    decreases |s| - i
  {
    hide PlainLine, LineEnd;
    PieceEnd(s, i);
    var k, k' := LineEnd(s, i, false), LineEnd(s, i, true);
    if k' < k {
      PiecesIff(s, k');
      if AllSpace(s, i, k') {
        BlankHead(s, i, k', k);
        BlankHead(s, i, k', k');
        NothingOnEmpty(s, k');
      } else {
        if Pieces(s, k') == [] {
          NothingBehind(s, i, k', k);
        } else if PlainLine(s, i, k').None? {
          OnlyComment(s, i, k', k);
        }
      }
    }
  }

  lemma {:induction false} NothingOnEmpty(s: seq<octet>, i: nat)
    requires i <= |s|
    ensures PlainLine(s, i, i).None?
  {
    TrimEndIs(s, i, i, i);
  }

  /** The lines from i on are the pieces of its line and the lines behind it. */
  lemma {:induction false} LinesPieces(s: seq<octet>, i: nat)
    requires i < |s|
    ensures Lines(s, i, true) == Pieces(s, i) + Lines(s, LineEnd(s, i, false), true)
    decreases |s| - i
  {
    hide PlainLine, LineEnd;
    PieceEnd(s, i);
    var k, k' := LineEnd(s, i, false), LineEnd(s, i, true);
    if k' < k {
      LinesPieces(s, k');
    }
  }

  /** It makes no difference whether CR ends lines exactly when no line has a CR before something to read and
      something other than white space before that CR. */
  lemma {:induction false} CrIrrelevantIff(s: seq<octet>, i: nat)
    requires i <= |s|
    ensures Lines(s, i, false) == Lines(s, i, true) <==> CrHarmless(s, i)
    ensures |Lines(s, i, false)| <= |Lines(s, i, true)|
    decreases |s| - i
  {
    if i < |s| {
      hide PlainLine, LineEnd, Harmless, Pieces;
      var k := LineEnd(s, i, false);
      CrIrrelevantIff(s, k);
      LinesPieces(s, i);
      PiecesIff(s, i);
      var l, m := OneLineAt(s, i), Pieces(s, i);
      assert Lines(s, i, false) == l + Lines(s, k, false);
      if Lines(s, i, false) == Lines(s, i, true) && l == m {
        assert (l + Lines(s, k, false))[|l|..] == Lines(s, k, false);
        assert (m + Lines(s, k, true))[|m|..] == Lines(s, k, true);
      }
    }
  }

  /** The word of a line is the word of one of its pieces. */
  lemma {:induction false} WordOfPiece(s: seq<octet>, i: nat)
    requires i < |s| && OneLineAt(s, i) != []
    ensures exists j :: 0 <= j < |Pieces(s, i)| && Pieces(s, i)[j].word == OneLineAt(s, i)[0].word
    decreases |s| - i
  {
    hide PlainLine, LineEnd;
    PieceEnd(s, i);
    var k, k' := LineEnd(s, i, false), LineEnd(s, i, true);
    if k' == k {
      assert Pieces(s, i)[0] == OneLineAt(s, i)[0];
    } else if AllSpace(s, i, k') {
      BlankHead(s, i, k', k);
      BlankHead(s, i, k', k');
      NothingOnEmpty(s, k');
      assert OneLineAt(s, i) == OneLineAt(s, k') && Pieces(s, i) == Pieces(s, k');
      WordOfPiece(s, k');
    } else {
      FirstWord(s, i, k', k);
      assert Pieces(s, i)[0].word == OneLineAt(s, i)[0].word;
    }
  }

  /** The word of a line ends on its first piece. */
  lemma {:induction false} FirstWord(s: seq<octet>, i: nat, k': nat, k: nat)
    requires i < k' <= k <= |s| && s[k' - 1] == 13 && !AllSpace(s, i, k') && PlainLine(s, i, k).Some?
    ensures PlainLine(s, i, k').Some? && PlainLine(s, i, k').value.word == PlainLine(s, i, k).value.word
  {
    CommentOn(s, i, k', k);
    var c', c := CommentAt(s, i, k'), CommentAt(s, i, k);
    if c' == k' {
      var e', e := TrimEnd(s, i, k'), TrimEnd(s, i, c);
      TrimEndIs(s, i, e', k');
      TrimEndIs(s, i, e, c);
      assert i < e' <= k' - 1 && e' <= e;
      var p := WsEnd(s, i, e');
      WsEndIs(s, i, p, e');
      WsEndIs(s, i, p, e);
      var q := WordEnd(s, p, e');
      WordEndIs(s, p, q, e');
      WordEndIs(s, p, q, e);
    }
  }

  /** Every word of a line that ends in LF is a word on a line that CR may end. */
  lemma {:induction false} WordsOfLines(s: seq<octet>, i: nat, m: nat) returns (j: nat)
    requires i <= |s| && m < |Lines(s, i, false)|
    ensures j < |Lines(s, i, true)| && Lines(s, i, true)[j].word == Lines(s, i, false)[m].word
    decreases |s| - i
  {
    hide PlainLine, LineEnd, Pieces;
    var k := LineEnd(s, i, false);
    LinesPieces(s, i);
    assert Lines(s, i, false) == OneLineAt(s, i) + Lines(s, k, false);
    if m < |OneLineAt(s, i)| {
      WordOfPiece(s, i);
      j :| 0 <= j < |Pieces(s, i)| && Pieces(s, i)[j].word == OneLineAt(s, i)[0].word;
    } else {
      j := WordsOfLines(s, k, m - |OneLineAt(s, i)|);
      j := j + |Pieces(s, i)|;
    }
  }

  /** The scanners do not look behind the end that they are given. */
  lemma {:induction false} OnlyFront(s: seq<octet>, i: nat, e: nat, c: nat)
    requires i <= e <= c <= |s|
    ensures WsEnd(s, i, e) == WsEnd(s[..c], i, e) && WordEnd(s, i, e) == WordEnd(s[..c], i, e)
    ensures TrimEnd(s, i, e) == TrimEnd(s[..c], i, e)
  {
    WsEndIs(s[..c], i, WsEnd(s, i, e), e);
    WsEndIs(s, i, WsEnd(s, i, e), e);
    WordEndIs(s[..c], i, WordEnd(s, i, e), e);
    WordEndIs(s, i, WordEnd(s, i, e), e);
    TrimEndIs(s[..c], i, TrimEnd(s, i, e), e);
    TrimEndIs(s, i, TrimEnd(s, i, e), e);
  }

  /** A '#' at c, and whatever stands behind it, is not read, neither by the plain scan nor by the compiler. */
  lemma {:induction false} CommentUnread(s: seq<octet>, i: nat, c: nat, k: nat)
    requires i <= c < k <= |s| && s[c] == 35
    ensures PlainLine(s, i, k) == PlainLine(s[..c], i, c)
    ensures LineAt(s, ConvSpot(s, i, k)) == LineAt(s[..c], ConvSpot(s[..c], i, c))
  {
    var e := CommentAt(s, i, k);
    CommentAtIs(s, i, e, k);
    assert e <= c;
    CommentAtIs(s[..c], i, e, c);
    SameLine(s, i, k);
    SameLine(s[..c], i, c);
    FrontLine(s, i, e, c, k);
  }

  lemma {:induction false} FrontLine(s: seq<octet>, i: nat, e: nat, c: nat, k: nat)
    requires i <= e <= c < k <= |s| && CommentAt(s, i, k) == e == CommentAt(s[..c], i, c)
    ensures PlainLine(s, i, k) == PlainLine(s[..c], i, c)
  {
    hide CommentAt, WsEnd, WordEnd, TrimEnd;
    OnlyFront(s, i, e, c);
    var t := TrimEnd(s, i, e);
    if t > i {
      OnlyFront(s, i, t, c);
      var p := WsEnd(s, i, t);
      OnlyFront(s, p, t, c);
      var q := WordEnd(s, p, t);
      OnlyFront(s, q, t, c);
      var d := WsEnd(s, q, t);
      assert s[..c][p..q] == s[p..q] && s[..c][d..t] == s[d..t];
    }
  }

  lemma {:induction false} NoCommentOn(s: seq<octet>, i: nat, k: nat)
    requires i <= k <= |s| && PlainLine(s, i, k).Some?
    ensures 35 !in PlainLine(s, i, k).value.word && 35 !in PlainLine(s, i, k).value.data
  {
    CommentAtIs(s, i, CommentAt(s, i, k), k);
    var x := PlainSpot(s, i, k).value;
    assert x.e <= CommentAt(s, i, k);
    hide CommentAt, PlainSpot;
    assert forall j :: x.p <= j < x.q ==> s[j] != 35;
    assert forall j :: x.d <= j < x.e ==> s[j] != 35;
  }

  /** There is no '#' in what is read of a table. */
  lemma {:induction false} NoCommentRead(s: seq<octet>, i: nat, cr: bool, m: nat)
    requires i <= |s| && m < |Lines(s, i, cr)|
    ensures 35 !in Lines(s, i, cr)[m].word && 35 !in Lines(s, i, cr)[m].data
    decreases |s| - i
  {
    hide LineEnd, PlainLine;
    var k := LineEnd(s, i, cr);
    var l := PlainLine(s, i, k);
    if l.Some? && m == 0 {
      NoCommentOn(s, i, k);
    } else {
      NoCommentRead(s, k, cr, if l.Some? then m - 1 else m);
    }
  }

  /** The data of the first line whose word is the key up to case. */
  function Find(ls: seq<Line>, key: seq<octet>): Option<seq<octet>> {
    if ls == [] then None
    else if Lower(ls[0].word) == Lower(key) then Some(ls[0].data)
    else Find(ls[1..], key)
  }

  /** The data of the line [i, k) if its word is the key up to case. */
  function FindOn(s: seq<octet>, i: nat, k: nat, key: seq<octet>): Option<seq<octet>>
    requires i <= k <= |s|
  {
    var l := PlainLine(s, i, k);
    if l.Some? && Lower(l.value.word) == Lower(key) then Some(l.value.data) else None
  }

  /** The same line by line from position i on. */
  function FindFrom(s: seq<octet>, i: nat, key: seq<octet>): Option<seq<octet>>
    requires i <= |s|
    decreases |s| - i
  {
    if i == |s| then None
    else
      var k := LineEnd(s, i, true);
      var found := FindOn(s, i, k, key);
      if found.Some? then found else FindFrom(s, k, key)
  }

  lemma {:induction false} FindFromIs(s: seq<octet>, i: nat, key: seq<octet>)
    requires i <= |s|
    ensures FindFrom(s, i, key) == Find(Lines(s, i, true), key)
    decreases |s| - i
  {
    if i < |s| {
      var k := LineEnd(s, i, true);
      FindFromIs(s, k, key);
      FindMore(PlainLine(s, i, k), Lines(s, k, true), key);
    }
  }

  /** A key with a '#' is not found, whatever the table says. */
  lemma {:induction false} CommentNotFound(s: seq<octet>, key: seq<octet>, k: nat)
    requires k < |key| && key[k] == 35
    ensures FindFrom(s, 0, key) == None
  {
    FindFromIs(s, 0, key);
    forall m | 0 <= m < |Lines(s, 0, true)|
      ensures Lower(Lines(s, 0, true)[m].word) != Lower(key)
    {
      NoCommentRead(s, 0, true, m);
      NoHashAlike(Lines(s, 0, true)[m].word, key, k);
    }
    NothingFound(Lines(s, 0, true), key);
  }

  lemma {:induction false} NoHashAlike(w: seq<octet>, key: seq<octet>, k: nat)
    requires k < |key| && key[k] == 35 && 35 !in w
    ensures Lower(w) != Lower(key)
  {
    if |w| == |key| {
      assert w[k] in w;
      assert Lower(w)[k] != Lower(key)[k];
    }
  }

  lemma {:induction false} NothingFound(ls: seq<Line>, key: seq<octet>)
    requires forall m :: 0 <= m < |ls| ==> Lower(ls[m].word) != Lower(key)
    ensures Find(ls, key) == None
  {
    if ls != [] {
      NothingFound(ls[1..], key);
    }
  }

  lemma {:induction false} FindMore(l: Option<Line>, ls: seq<Line>, key: seq<octet>)
    ensures Find((if l.Some? then [l.value] else []) + ls, key) ==
      if l.Some? && Lower(l.value.word) == Lower(key) then Some(l.value.data) else Find(ls, key)
  {
    if l.Some? {
      assert ([l.value] + ls)[1..] == ls;
    } else {
      assert [] + ls == ls;
    }
  }
}
