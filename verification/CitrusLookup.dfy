/** Looking up a key by name, in a database if there is one and else in a text table (citrus_lookup.c). */
module CitrusLookup {
  import opened Octets
  import opened Options
  import opened CitrusBcs
  import opened CitrusText
  import opened CitrusMemstream
  import opened CitrusHash
  import opened CitrusDb
  import opened CitrusLookupFactory

  /** What an opened handle reads from. */
  datatype Source = Database(db: Db) | Plain(text: seq<octet>)

  /** `_citrus_lookup_seq_open`: the text is tried only if there is no database file, not if the
      database file is malformed. */
  function Opened(dbFile: Option<seq<octet>>, text: Option<seq<octet>>, hash: HashFunction): Result<Source> {
    match dbFile
    case Some(r) => if Opens(r, MAGIC) then Ok(Database(Db(r, hash))) else Err(EFTYPE)
    case None => if text.Some? then Ok(Plain(text.value)) else Err(ENOENT)
  }

  /** The key as it is looked up. */
  function KeyFor(key: seq<octet>, ignoreCase: bool): seq<octet> {
    if ignoreCase then Lower(key) else key
  }

  function LookedUp(src: Source, key: seq<octet>, rounds: nat): Result<seq<octet>> {
    match src
    case Database(db) => LookupResult(db, key, Place(0, 0), rounds)
    case Plain(text) =>
      match FindFrom(text, 0, key)
      case None => Err(ENOENT)
      case Some(d) => Ok(d)
  }

  /** The lookup ends; only one in a malformed database may not. */
  predicate Terminates(src: Source, key: seq<octet>, rounds: nat) {
    src.Database? ==> 16 <= |src.db.region| && LookupEnds(src.db, key, Place(0, 0), rounds)
  }

  /** `struct _citrus_lookup` */
  class Handle {
    const src: Source
    const ignoreCase: bool
    var rewind: bool
    var key: seq<octet>

    constructor (src: Source, ignoreCase: bool)
      ensures this.src == src && this.ignoreCase == ignoreCase
    {
      this.src, this.ignoreCase := src, ignoreCase;
      rewind, key := true, [];
    }

    /** `seq_lookup_db` or `seq_lookup_plain`. */
    method SeqLookup(key: seq<octet>, ghost rounds: nat) returns (data: Result<seq<octet>>)
      requires NoNul(key) && Terminates(src, KeyFor(key, ignoreCase), rounds)
      modifies this
      ensures data == LookedUp(src, KeyFor(key, ignoreCase), rounds)
      ensures this.key == KeyFor(key, ignoreCase) && !rewind
    {
      hide LookupResult, LookupEnds, FindFrom, LookupPlace;
      rewind := false;
      this.key := if ignoreCase then Lower(key) else key;
      match src
      case Database(db) =>
        var locator := new Locator();
        data := Lookup(db, this.key, locator, rounds);
      case Plain(text) =>
        var ms := new Memstream(text);
        var d := ms.MatchLine(this.key);
        data := if d == None then Err(ENOENT) else Ok(d.value);
    }
  }

  /** `_citrus_lookup_seq_open` */
  method SeqOpen(dbFile: Option<seq<octet>>, text: Option<seq<octet>>, hash: HashFunction, ignoreCase: bool)
    returns (ret: Errno, h: Handle?)
    ensures match Opened(dbFile, text, hash)
      case Err(e) => h == null && ret == e
      case Ok(src) => h != null && fresh(h) && h.src == src && h.ignoreCase == ignoreCase
  {
    ret, h := ENOENT, null;
    if dbFile.Some? {
      var db := Open(dbFile.value, MAGIC, hash);
      if db.Err? {
        return db.error, null;
      }
      h := new Handle(Database(db.value), ignoreCase);
    } else if text.Some? {
      h := new Handle(Plain(text.value), ignoreCase);
    }
  }

  /** The string that a simple lookup finds. */
  function Simple(src: Result<Source>, key: seq<octet>, ignoreCase: bool, rounds: nat): Option<seq<octet>> {
    match src
    case Err(_) => None
    case Ok(s) =>
      match LookedUp(s, KeyFor(key, ignoreCase), rounds)
      case Err(_) => None
      case Ok(data) => Some(CString(data))
  }

  /** A buffer b into whose first size bytes the string s was printed. */
  function Printed(b: seq<octet>, size: nat, s: seq<octet>): seq<octet>
    requires size <= |b|
  {
    if size == 0 then b
    else
      var f := if |s| < size then s else s[..size - 1];
      f + [0] + b[|f| + 1..]
  }

  /** `snprintf(buf, size, "%.*s", ...)` with all of data. */
  method PrintTo(buf: array<octet>, size: nat, data: seq<octet>)
    requires size <= buf.Length
    modifies buf
    ensures buf[..] == Printed(old(buf[..]), size, CString(data))
  {
    if size > 0 {
      var f := Formatted(data, size);
      ghost var goal := Printed(buf[..], size, CString(data));
      forall k | 0 <= k < |f| {
        buf[k] := f[k];
      }
      buf[|f|] := 0;
      assert buf[..] == goal;
    }
  }

  /** `_citrus_lookup_simple` */
  method LookupSimple(dbFile: Option<seq<octet>>, text: Option<seq<octet>>, hash: HashFunction, key: seq<octet>,
                      linebuf: array<octet>, size: nat, ignoreCase: bool, ghost rounds: nat)
    returns (found: bool)
    requires NoNul(key) && size <= linebuf.Length
    requires var src := Opened(dbFile, text, hash); src.Ok? ==> Terminates(src.value, KeyFor(key, ignoreCase), rounds)
    modifies linebuf
    ensures var s := Simple(Opened(dbFile, text, hash), key, ignoreCase, rounds);
      && (found <==> s.Some?)
      && linebuf[..] == if found then Printed(old(linebuf[..]), size, s.value) else old(linebuf[..])
  {
    hide Opened, LookedUp, Printed, CString, Terminates;
    var ret, cl := SeqOpen(dbFile, text, hash, ignoreCase);
    if cl == null {
      return false;
    }
    var data := cl.SeqLookup(key, rounds);
    if data.Err? {
      return false;
    }
    PrintTo(linebuf, size, data.value);
    return true;
  }
}
