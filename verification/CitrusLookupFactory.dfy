/** The compiler from text tables to lookup databases (citrus_lookup_factory.c). */
module CitrusLookupFactory {
  import opened Octets
  import opened Options
  import opened CitrusBcs
  import opened CitrusText
  import opened CitrusHash
  import opened CitrusImage
  import opened CitrusDbFactory

  /** _CITRUS_LOOKUP_MAGIC, the string "LOOKUP" and two NULs. */
  const MAGIC: seq<octet> := [76, 79, 79, 75, 85, 80, 0, 0]

  function NulAt(s: seq<octet>, i: nat): (j: nat)
    requires i <= |s|
    ensures i <= j <= |s|
    decreases |s| - i
  {
    if i == |s| || s[i] == 0 then i else NulAt(s, i + 1)
  }

  /** The part of s that is a C string. */
  function CString(s: seq<octet>): seq<octet> {
    s[..NulAt(s, 0)]
  }

  /** What `snprintf` with "%.*s" leaves of s in a buffer of the given size, without the final NUL. */
  function Formatted(s: seq<octet>, size: nat): seq<octet>
    requires size > 0
  {
    var c := CString(s);
    if |c| < size then c else c[..size - 1]
  }

  /** The database entry for a line; buffers hold lineMax (LINE_MAX) bytes. */
  function PairOf(l: Line, lineMax: nat): Pair
    requires lineMax > 0
  {
    Pair(Lower(Formatted(l.word, lineMax)), Formatted(l.data, lineMax) + [0])
  }

  /** What one line adds to the database. */
  function Converted(s: seq<octet>, i: nat, k: nat, lineMax: nat): seq<Pair>
    requires i <= k <= |s| && lineMax > 0
  {
    match LineAt(s, ConvSpot(s, i, k))
    case None => []
    case Some(l) => [PairOf(l, lineMax)]
  }

  /** What the lines from position i on add. */
  function Compiled(s: seq<octet>, i: nat, lineMax: nat): seq<Pair>
    requires i <= |s| && lineMax > 0
    decreases |s| - i
  {
    if i == |s| then []
    else
      var k := LineEnd(s, i, false);
      Converted(s, i, k, lineMax) + Compiled(s, k, lineMax)
  }

  /** The scanning in `convert_line`. */
  method ConvertScan(s: seq<octet>, i: nat, k: nat) returns (x: Option<Spot>)
    requires i <= k <= |s|
    ensures x == ConvSpot(s, i, k)
  {
    var len := CommentAt(s, i, k) - i;
    var line, p, d;
    line, len := SkipWsLen(s, i, len);
    if len == 0 {
      return None;
    }
    p, len := SkipNonwsLen(s, line, len);
    if p == line {
      return None;
    }
    d, len := SkipWsLen(s, p, len);
    len := TruncRwsLen(s, d, len);
    return Some(Spot(line, p, d, d + len));
  }

  /** `convert_line` */
  method ConvertLine(df: Factory, s: seq<octet>, i: nat, k: nat, lineMax: nat)
    requires df.Valid() && df.Hashed() && i <= k <= |s| && lineMax > 0
    modifies df
    ensures df.Valid() && df.Hashed() && df.added == old(df.added) + Converted(s, i, k, lineMax)
    ensures |old(df.entries)| <= |df.entries| && df.entries[..|old(df.entries)|] == old(df.entries)
    ensures forall i :: |old(df.entries)| <= i < |df.entries| ==> fresh(df.entries[i])
  {
    hide Factory.Valid, Factory.Hashed, ConvSpot, Formatted, Lower;
    var x := ConvertScan(s, i, k);
    if x.Some? {
      var key := Lower(Formatted(s[x.value.p..x.value.q], lineMax));
      var data := Formatted(s[x.value.d..x.value.e], lineMax);
      df.Add(key, data + [0]);
    }
  }

  /** r is what the compiler makes of the text. */
  ghost predicate Compilation(r: seq<octet>, text: seq<octet>, lineMax: nat, hash: HashFunction, at: seq<nat>)
    requires lineMax > 0
  {
    var pairs := Compiled(text, 0, lineMax);
    if pairs == [] then r == Header(MAGIC, 0) else IsImage(r, MAGIC, pairs, HashesOf(hash, pairs), at)
  }

  method AddLines(df: Factory, text: seq<octet>, lineMax: nat)
    requires df.Valid() && df.Hashed() && df.entries == [] && df.added == [] && lineMax > 0
    modifies df
    ensures df.Valid() && df.Hashed() && df.added == Compiled(text, 0, lineMax)
    ensures forall i :: 0 <= i < |df.entries| ==> fresh(df.entries[i])
  {
    hide Factory.Valid, Factory.Hashed, Converted, LineEnd;
    ghost var goal := Compiled(text, 0, lineMax);
    var i := 0;
    while i < |text|
      invariant i <= |text| && df.Valid() && df.Hashed()
      invariant df.added + Compiled(text, i, lineMax) == goal
      invariant forall i :: 0 <= i < |df.entries| ==> fresh(df.entries[i])
    {
      var k := LineEnd(text, i, false);
      ghost var before := df.entries;
      ConvertLine(df, text, i, k, lineMax);
      assert forall j :: 0 <= j < |before| ==> df.entries[..|before|][j] == df.entries[j];
      i := k;
    }
  }

  /** The end of `_citrus_lookup_factory_convert`: room for the image, and the image. */
  method WriteOut(df: Factory) returns (r: array<octet>, ghost at: seq<nat>)
    requires df.Valid() && |MAGIC| >= 8 && |df.HashValues()| == |df.added|
    modifies df.entries
    ensures df.added == [] ==> r[..] == Header(MAGIC, 0)
    ensures df.added != [] ==> IsImage(r[..], MAGIC, df.added, old(df.HashValues()), at)
  {
    hide *;
    var size := df.CalcSize();
    r := new octet[size](_ => 0);
    at := df.Serialize(MAGIC, r);
    assert r[..size] == r[..];
  }

  /** `_citrus_lookup_factory_convert`, from the text in the input to the bytes for the output. */
  method Convert(text: seq<octet>, lineMax: nat, hash: HashFunction) returns (r: array<octet>, ghost at: seq<nat>)
    requires lineMax > 0
    ensures Compilation(r[..], text, lineMax, hash, at)
    ensures exists a :: Compilation(r[..], text, lineMax, hash, a)
  {
    var df := new Factory(hash);
    AddLines(df, text, lineMax);
    df.HashedValues();
    hide Factory.Valid, Factory.Hashed, Factory.CalcSize, Compiled, IsImage;
    r, at := WriteOut(df);
  }
}
